/**
 * Worked instances of the price path on SOL (9 decimals) and USDC (6 decimals),
 * with a quote endpoint that always answers 15 USDC for the requested input.
 */
module PriceExamples {
  import opened Outcomes
  import opened Digits
  import opened Decimals
  import opened NumberParsing
  import opened SolanaChain
  import opened AmountCodec
  import opened JupiterConnector
  import opened JupiterControllers

  const SOL := TokenInfo("So11111111111111111111111111111111111111112", "SOL", "Wrapped SOL", 9)
  const USDC := TokenInfo("EPjFWdd5AufqSSqeM2qN1xzybapC8G4wEGGkZwyTDt1v", "USDC", "USD Coin", 6)

  /** A quote endpoint that echoes the request and always offers 15 USDC (raw 15000000). */
  function FixedQuote(request: QuoteRequest): Completion<QuoteResponse> {
    Returns(QuoteResponse(request.inputMint, request.amount, request.outputMint, "15000000", "0", ""))
  }

  lemma TenthIsPlain()
    ensures ParseDecimal("0.1") == Some(Decimal(1, 1))
  {
    FirstIndexIsUnique("0.1", '.', 1);
    assert "0.1"[..1] == "0" && "0.1"[2..] == "1";
    assert DigitsValue("0" + "1") == 1 by { assert "0" + "1" == "01" && "01"[..1] == "0" && "0"[..0] == ""; }
  }

  /** "0.1" is one tenth to `parseFloat` and to decimal.js-light. */
  lemma TenthParses()
    ensures ParseFloat("0.1") == Some(Decimal(1, 1))
    ensures NewDecimal("0.1") == Some(SignedDecimal(false, Decimal(1, 1)))
  {
    TenthIsPlain();
    PlainLiteralReadsAlike("0.1");
  }

  /** "0.1 " is one tenth to `parseFloat` and an invalid argument to decimal.js-light. */
  lemma TenthWithTrailingSpace()
    ensures ParseFloat("0.1 ") == Some(Decimal(1, 1))
    ensures NewDecimal("0.1 ") == None
  {
    TenthIsPlain();
    TrailingTextSplitsTheReaders("0.1", " ");
    assert "0.1" + " " == "0.1 ";
  }

  /** decimal.js-light reads a leading '-' as a sign: "-0.1" is minus one tenth. */
  lemma NegativeTenthParses()
    ensures NewDecimal("-" + "0.1") == Some(SignedDecimal(true, Decimal(1, 1)))
  {
    TenthIsPlain();
    PlainLiteralReadsAlike("0.1");
  }

  /** decimal.js-light reads an exponent part as a power of ten: "1e3" is a thousand. */
  lemma ThousandInExponentForm()
    ensures NewDecimal("1e3") == Some(SignedDecimal(false, Decimal(1000, 0)))
  {
    OneThenExponentThree();
    assert "1e3"[1..] == "e3";
    assert ApplyExponent(Decimal(1, 0), Exponent(false, 3, 2)) == Decimal(1000, 0);
  }

  lemma OneThenExponentThree()
    ensures ScanMantissa("1e3") == Some(Scanned(Decimal(1, 0), 1))
    ensures ScanExponent("e3") == Some(Exponent(false, 3, 2))
  {
    assert DigitRun("1e3") == 1 && DigitRun("3") == 1;
    assert "1e3"[..1] == "1" && "1"[..0] == "" && "e3"[1..] == "3" && "3"[..1] == "3";
  }

  /** `toFixed` keeps the sign of a negative amount: "-0.1" at one place is "-0.1". */
  lemma NegativeTenthAtOnePlace()
    ensures ToFixed("-" + "0.1", 1) == Returns("-" + "0.1")
  {
    NegativeTenthParses();
    assert Rescale(Decimal(1, 1), 1) == 1;
    TenthAtOnePlace();
  }

  lemma TenthAtOnePlace()
    ensures RenderFixed(1, 1) == "0.1"
  {
    assert NatToString(1) == "1";
    RenderBelowOne(1, 1);
  }

  lemma FifteenMillionParses()
    ensures ParseAmount(USDC, "15000000") == Some(SignedDecimal(false, Decimal(15000000, 6)))
  {
    var s := "15" + Zeros(6);
    assert s != [] && IsDigits(s) && DigitsValue(s) == 15000000 by {
      assert DigitsValue("15") == 15 by { assert "15"[..1] == "1" && "1"[..0] == ""; }
      PadRightValue("15", 6);
    }
    assert ParseAmount(USDC, s) == Some(SignedDecimal(false, Decimal(15000000, 6))) by { DigitStringAmount(USDC, s); }
    assert s == "15000000" by { assert Zeros(6) == "000000"; }
  }

  lemma FifteenIsRead()
    ensures ParseInt("15") == Some(ParsedInt(false, 15))
  {
    assert DigitsValue("15") == 15 by { assert "15"[..1] == "1" && "1"[..0] == ""; }
    WholeDigitsAreRead("15");
  }

  /** `parseInt` reads past leading white space and reads a sign. */
  lemma SpacedAndSignedFifteen()
    ensures ParseInt(" 15") == Some(ParsedInt(false, 15))
    ensures ParseInt("+15") == Some(ParsedInt(false, 15))
    ensures ParseInt("-15") == Some(ParsedInt(true, 15))
  {
    FifteenIsRead();
    assert ParseInt([' '] + "15") == ParseInt("15") by { SpaceIsSkipped(' ', "15"); }
    assert [' '] + "15" == " 15";
    SignIsRead("15");
    assert "+" + "15" == "+15" && "-" + "15" == "-15";
  }

  /** `parseInt` reads "0x1f" in base 16. */
  lemma HexThirtyOne()
    ensures ParseInt("0x1f") == Some(ParsedInt(false, 31))
  {
    assert HexValue("1f") == 31 by { assert "1f"[..1] == "1" && "1"[..0] == ""; }
    HexPrefixIsRead('x', "1f", "");
    assert "0" + ['x'] + "1f" + "" == "0x1f";
  }

  lemma DigitStringAmount(token: TokenInfo, s: string)
    requires s != [] && IsDigits(s)
    ensures ParseAmount(token, s) == Some(SignedDecimal(false, Decimal(DigitsValue(s), token.decimals)))
  {
  }

  lemma TenthAtNinePlaces()
    ensures ToFixed("0.1", 9) == Returns("0.100000000")
  {
    TenthParses();
    ToFixedUnsigned("0.1", 9, Decimal(1, 1));
    assert Rescale(Decimal(1, 1), 9) == Pow10(8);
    HundredMillionAtNinePlaces();
  }

  lemma HundredMillionAtNinePlaces()
    ensures RenderFixed(Pow10(8), 9) == "0.100000000"
  {
    HundredMillionDigits();
    TenthBelowOne();
  }

  lemma HundredMillionDigits()
    ensures NatToString(Pow10(8)) == "100000000"
  {
    PowerOfTenDigits(8);
    assert Zeros(8) == "00000000";
  }

  lemma TenthBelowOne()
    ensures RenderFixed(Pow10(8), 9) == "0." + NatToString(Pow10(8))
  {
    PowerOfTenDigits(8);
    RenderBelowOne(Pow10(8), 9);
  }

  lemma TenthOfSolEncodes()
    ensures EncodeAmount(SOL.decimals, Decimal(1, 1)) == "100000000"
  {
    assert SignificantFractionDigits(Decimal(1, 1)) == 1;
    assert NatToString(1) == "1";
    assert Zeros(8) == "00000000";
  }

  lemma FifteenUsdcPerTenth()
    ensures UnitPrice(USDC, "15000000", Decimal(1, 1)) == Finite(150.0)
  {
    var out, tenth := SignedDecimal(false, Decimal(15000000, 6)), Decimal(1, 1);
    assert UnitPrice(USDC, "15000000", tenth) == Quotient(out, tenth) by { FifteenMillionParses(); }
    FifteenAndATenth();
    var q := Quotient(out, tenth);
    assert q.Finite? && q.value * 0.1 == 15.0;
  }

  lemma FifteenAndATenth()
    ensures SignedDecimal(false, Decimal(15000000, 6)).Value() == 15.0
    ensures Decimal(1, 1).Value() == 0.1
  {
    assert Pow10(6) == 1000000;
    assert Pow10(1) == 10;
  }

  lemma SolAndUsdcResolve(solana: Solana, jupiter: Jupiter)
    requires solana.symbolTable == map["SOL" := SOL, "USDC" := USDC]
    requires jupiter.tokenList == [SOL, USDC]
    ensures GetFullTokenFromSymbol(solana, jupiter, "SOL") == Returns(SOL)
    ensures GetFullTokenFromSymbol(solana, jupiter, "USDC") == Returns(USDC)
  {
    assert IndexOfAddress([SOL, USDC], SOL.address) == Some(0);
    assert SOL.address != USDC.address;
    assert IndexOfAddress([SOL, USDC], USDC.address) == Some(1);
  }

  /** Pricing a SELL of 0.1 SOL: raw amount 100000000, 15 USDC out, price 150 USDC per SOL. */
  lemma SellTenthOfSol(solana: Solana, jupiter: Jupiter)
    requires solana.symbolTable == map["SOL" := SOL, "USDC" := USDC]
    requires jupiter.tokenList == [SOL, USDC]
    ensures Price(solana, jupiter, PriceRequest("solana", "SOL", "USDC", "0.1", "SELL", None), FixedQuote)
      == Returns(PriceResponse("solana", SOL.address, USDC.address, "0.100000000", "100000000", "15000000",
           Some(Finite(150.0)), solana.gasPrice, solana.nativeTokenSymbol, 0, "0"))
  {
    TenthParses();
    TenthAtNinePlaces();
    SolAndUsdcResolve(solana, jupiter);
    TenthOfSolEncodes();
    FifteenUsdcPerTenth();
    var quote := QuoteResponse(SOL.address, "100000000", USDC.address, "15000000", "0", "");
    var trade := JupiterTrade(quote, Some(Finite(150.0)));
    assert EstimateSellTrade(SOL, USDC, "0.1", None, FixedQuote) == Returns(trade);
    assert "SELL" != "BUY";
    var info := TradeInfo(SOL, USDC, "0.1", trade);
    assert GetTradeInfo(solana, jupiter, "SOL", "USDC", "0.1", "SELL", None, FixedQuote) == Returns(info);
    var req := PriceRequest("solana", "SOL", "USDC", "0.1", "SELL", None);
    assert PriceResponseFor(solana, req, info) == Returns(PriceResponse("solana", SOL.address, USDC.address, "0.100000000", "100000000", "15000000",
           Some(Finite(150.0)), solana.gasPrice, solana.nativeTokenSymbol, 0, "0"));
  }

  /**
   * A BUY of "0.1" encodes the amount in the quote token's decimals and asks for
   * USDC -> SOL: 0.1 USDC is offered, not 0.1 SOL requested.
   */
  lemma BuyTenthOffersTenthOfQuoteToken(solana: Solana, jupiter: Jupiter, fetchQuote: QuoteRequest -> Completion<QuoteResponse>)
    requires solana.symbolTable == map["SOL" := SOL, "USDC" := USDC]
    requires jupiter.tokenList == [SOL, USDC]
    ensures var request := QuoteRequest(USDC.address, SOL.address, "100000", "50");
      var r := GetTradeInfo(solana, jupiter, "SOL", "USDC", "0.1", "BUY", None, fetchQuote);
      (r.Returns? <==> fetchQuote(request).Returns?) &&
      (r.Returns? ==> r.value.expectedTrade.quote == fetchQuote(request).value)
  {
    TenthParses();
    SolAndUsdcResolve(solana, jupiter);
    TenthOfUsdcEncodes();
    BuyRequestsQuoteToBase(solana, jupiter, "SOL", "USDC", "0.1", None, fetchQuote);
    var request := QuoteRequest(USDC.address, SOL.address, "100000", "50");
    var e := EstimateBuyTrade(USDC, SOL, "0.1", None, fetchQuote);
    assert AnswersRequest(e, request, SOL, Decimal(1, 1), fetchQuote);
    assert GetTradeInfo(solana, jupiter, "SOL", "USDC", "0.1", "BUY", None, fetchQuote) == InfoFrom(SOL, USDC, "0.1", e);
  }

  lemma TenthOfUsdcEncodes()
    ensures EncodeAmount(USDC.decimals, Decimal(1, 1)) == "100000"
  {
    assert SignificantFractionDigits(Decimal(1, 1)) == 1;
    assert NatToString(1) == "1";
    assert Zeros(5) == "00000";
  }

  /**
   * Pricing a SELL of "0.1 " (a trailing space): the estimate is made for 0.1 SOL,
   * then formatting the amount throws decimal.js-light's Error, not re-wrapped.
   */
  lemma SellTenthWithTrailingSpace(solana: Solana, jupiter: Jupiter)
    requires solana.symbolTable == map["SOL" := SOL, "USDC" := USDC]
    requires jupiter.tokenList == [SOL, USDC]
    ensures GetTradeInfo(solana, jupiter, "SOL", "USDC", "0.1 ", "SELL", None, FixedQuote).Returns?
    ensures Price(solana, jupiter, PriceRequest("solana", "SOL", "USDC", "0.1 ", "SELL", None), FixedQuote)
      == Throws(Error(InvalidDecimal("0.1 ")))
  {
    TenthWithTrailingSpace();
    SolAndUsdcResolve(solana, jupiter);
    TenthOfSolEncodes();
    assert "SELL" != "BUY";
    OtherSidesRequestBaseToQuote(solana, jupiter, "SOL", "USDC", "0.1 ", "SELL", None, FixedQuote);
  }
}
