/**
 * The Jupiter route handlers' price path: token resolution from symbols, the
 * BUY/other side dispatch, the re-wrapping of failures into the two-code error
 * taxonomy, and the price response.
 *
 * `Date.now()` and the latency it feeds are left out of the responses.
 */
module JupiterControllers {
  import opened Outcomes
  import opened Decimals
  import opened NumberParsing
  import opened SolanaChain
  import opened AmountCodec
  import opened JupiterConnector

  datatype TradeInfo = TradeInfo(baseToken: TokenInfo, quoteToken: TokenInfo, requestAmount: string, expectedTrade: JupiterTrade)

  /** The fields of a price request the handler reads. */
  datatype PriceRequest = PriceRequest(chain: string, base: string, quote: string, amount: string, side: string, allowedSlippage: Option<string>)

  datatype PriceResponse = PriceResponse(
    network: string, base: string, quote: string, amount: string, rawAmount: string, expectedAmount: string,
    price: Option<Number>, gasPrice: real, gasPriceToken: string, gasLimit: int, gasCost: string)

  const TOKEN_NOT_SUPPORTED_STATUS := 500
  const FAILED_STATUS := 500

  function TokenNotSupportedFor(symbol: string): Thrown {
    HttpException(TOKEN_NOT_SUPPORTED_STATUS, TokenNotSupported(symbol), TokenNotSupportedCode)
  }

  /**
   * `getFullTokenFromSymbol`: the chain maps the symbol to an address, the connector
   * maps the address to its own token; a miss at either stage is "token not supported".
   */
  function GetFullTokenFromSymbol(solana: Solana, jupiter: Jupiter, symbol: string): (r: Completion<TokenInfo>)
    reads solana, jupiter
    ensures r.Returns? <==>
      solana.TokenBySymbol(symbol).Some? && jupiter.TokenByAddress(solana.TokenBySymbol(symbol).value.address).Some?
    ensures r.Returns? ==> r.value == jupiter.TokenByAddress(solana.TokenBySymbol(symbol).value.address).value
    ensures r.Returns? ==> r.value.address == solana.symbolTable[symbol].address
    ensures !r.Returns? ==> r == Throws(TokenNotSupportedFor(symbol))
  {
    var fullToken :=
      match solana.TokenBySymbol(symbol)
      case Some(tokenInfo) => jupiter.TokenByAddress(tokenInfo.address)
      case None => None;
    if fullToken.None? then Throws(TokenNotSupportedFor(symbol)) else Returns(fullToken.value)
  }

  /**
   * `getTradeInfo`: resolve the base token, then the quote token, then estimate:
   * a BUY asks for quote -> base, any other side for base -> quote.
   */
  function GetTradeInfo(
    solana: Solana, jupiter: Jupiter, baseAsset: string, quoteAsset: string, amount: string,
    tradeSide: string, allowedSlippage: Option<string>,
    fetchQuote: QuoteRequest -> Completion<QuoteResponse>): (r: Completion<TradeInfo>)
    reads solana, jupiter
    ensures GetFullTokenFromSymbol(solana, jupiter, baseAsset).Throws? ==> r == Throws(TokenNotSupportedFor(baseAsset))
    ensures (GetFullTokenFromSymbol(solana, jupiter, baseAsset).Returns? &&
             GetFullTokenFromSymbol(solana, jupiter, quoteAsset).Throws?) ==>
      r == Throws(TokenNotSupportedFor(quoteAsset))
    ensures r.Returns? ==>
      && r.value.baseToken == GetFullTokenFromSymbol(solana, jupiter, baseAsset).value
      && r.value.quoteToken == GetFullTokenFromSymbol(solana, jupiter, quoteAsset).value
      && r.value.requestAmount == amount
      && r.value.expectedTrade.price.Some?
      && ParseFloat(amount).Some?
  {
    var baseToken :- GetFullTokenFromSymbol(solana, jupiter, baseAsset);
    var quoteToken :- GetFullTokenFromSymbol(solana, jupiter, quoteAsset);
    var expectedTrade :-
      if tradeSide == "BUY" then EstimateBuyTrade(quoteToken, baseToken, amount, allowedSlippage, fetchQuote)
      else EstimateSellTrade(baseToken, quoteToken, amount, allowedSlippage, fetchQuote);
    Returns(TradeInfo(baseToken, quoteToken, amount, expectedTrade))
  }

  /** The trade info for resolved tokens from an estimate's settlement: the trade on success, the failure as it is. */
  function InfoFrom(base: TokenInfo, quote: TokenInfo, amount: string, estimate: Completion<JupiterTrade>): Completion<TradeInfo> {
    match estimate
    case Returns(t) => Returns(TradeInfo(base, quote, amount, t))
    case Throws(x) => Throws(x)
    case Hangs => Hangs
  }

  /**
   * A BUY settles as the buy estimate for quoteToken -> baseToken does: its trade
   * (quote and price) becomes the expected trade, its failure the failure; the
   * request sent is quoteToken -> baseToken in quoteToken decimals.
   */
  lemma BuyRequestsQuoteToBase(
    solana: Solana, jupiter: Jupiter, baseAsset: string, quoteAsset: string, amount: string,
    allowedSlippage: Option<string>, fetchQuote: QuoteRequest -> Completion<QuoteResponse>)
    requires GetFullTokenFromSymbol(solana, jupiter, baseAsset).Returns?
    requires GetFullTokenFromSymbol(solana, jupiter, quoteAsset).Returns?
    ensures var base, quote := GetFullTokenFromSymbol(solana, jupiter, baseAsset).value, GetFullTokenFromSymbol(solana, jupiter, quoteAsset).value;
      GetTradeInfo(solana, jupiter, baseAsset, quoteAsset, amount, "BUY", allowedSlippage, fetchQuote)
        == InfoFrom(base, quote, amount, EstimateBuyTrade(quote, base, amount, allowedSlippage, fetchQuote))
    ensures var base, quote := GetFullTokenFromSymbol(solana, jupiter, baseAsset).value, GetFullTokenFromSymbol(solana, jupiter, quoteAsset).value;
      ParseFloat(amount).Some? ==>
      AnswersRequest(EstimateBuyTrade(quote, base, amount, allowedSlippage, fetchQuote),
        QuoteRequest(quote.address, base.address, EncodeAmount(quote.decimals, ParseFloat(amount).value), SlippageOrDefault(allowedSlippage)),
        base, ParseFloat(amount).value, fetchQuote)
  {
  }

  /**
   * Every side other than 'BUY' (not only 'SELL') settles as the sell estimate for
   * baseToken -> quoteToken does, exactly as 'SELL' itself.
   */
  lemma OtherSidesRequestBaseToQuote(
    solana: Solana, jupiter: Jupiter, baseAsset: string, quoteAsset: string, amount: string,
    tradeSide: string, allowedSlippage: Option<string>, fetchQuote: QuoteRequest -> Completion<QuoteResponse>)
    requires tradeSide != "BUY"
    requires GetFullTokenFromSymbol(solana, jupiter, baseAsset).Returns?
    requires GetFullTokenFromSymbol(solana, jupiter, quoteAsset).Returns?
    ensures var base, quote := GetFullTokenFromSymbol(solana, jupiter, baseAsset).value, GetFullTokenFromSymbol(solana, jupiter, quoteAsset).value;
      GetTradeInfo(solana, jupiter, baseAsset, quoteAsset, amount, tradeSide, allowedSlippage, fetchQuote)
        == InfoFrom(base, quote, amount, EstimateSellTrade(base, quote, amount, allowedSlippage, fetchQuote))
    ensures var base, quote := GetFullTokenFromSymbol(solana, jupiter, baseAsset).value, GetFullTokenFromSymbol(solana, jupiter, quoteAsset).value;
      ParseFloat(amount).Some? ==>
      AnswersRequest(EstimateSellTrade(base, quote, amount, allowedSlippage, fetchQuote),
        QuoteRequest(base.address, quote.address, EncodeAmount(base.decimals, ParseFloat(amount).value), SlippageOrDefault(allowedSlippage)),
        quote, ParseFloat(amount).value, fetchQuote)
    ensures GetTradeInfo(solana, jupiter, baseAsset, quoteAsset, amount, tradeSide, allowedSlippage, fetchQuote)
      == GetTradeInfo(solana, jupiter, baseAsset, quoteAsset, amount, "SELL", allowedSlippage, fetchQuote)
  {
  }

  /**
   * The catch blocks of `price` and `trade`: an `Error` becomes a 500 with the
   * price-failed code and the original message behind the price-failed prefix;
   * any other thrown value becomes a 500 with the unknown-error code.
   */
  function Rewrap(e: Thrown): (r: Thrown)
    ensures r.HttpException? && r.status == FAILED_STATUS
    ensures e.IsError() ==> r.code == PriceFailedCode && r.message == PriceFailed(e.message)
    ensures !e.IsError() ==> r.code == UnknownErrorCode && r.message == UnknownError
  {
    if e.IsError() then HttpException(FAILED_STATUS, PriceFailed(e.message), PriceFailedCode)
    else HttpException(FAILED_STATUS, UnknownError, UnknownErrorCode)
  }

  /** A settled failure of `getTradeInfo` as the handler passes it on: thrown values re-wrapped, a hang still a hang. */
  function HandlerFailure<T>(info: Completion<TradeInfo>): (r: Completion<T>)
    requires !info.Returns?
    ensures info.Throws? ==> r == Throws(Rewrap(info.thrown))
    ensures info.Hangs? ==> r == Hangs
  {
    if info.Throws? then Throws(Rewrap(info.thrown)) else Hangs
  }

  /**
   * The price response for resolved trade info: addresses, amounts and price passed
   * through, gas fields zero; formatting the amount throws, unwrapped, when
   * decimal.js-light rejects it.
   */
  function PriceResponseFor(solana: Solana, req: PriceRequest, info: TradeInfo): (r: Completion<PriceResponse>)
    reads solana
    ensures NewDecimal(req.amount).None? ==> r == Throws(Error(InvalidDecimal(req.amount)))
    ensures NewDecimal(req.amount).Some? ==>
      && r.Returns?
      && r.value.network == req.chain
      && r.value.base == info.baseToken.address
      && r.value.quote == info.quoteToken.address
      && r.value.amount == ToFixed(req.amount, info.baseToken.decimals).value
      && r.value.rawAmount == info.expectedTrade.quote.inAmount
      && r.value.expectedAmount == info.expectedTrade.quote.outAmount
      && r.value.price == info.expectedTrade.price
      && r.value.gasPrice == solana.gasPrice && r.value.gasPriceToken == solana.nativeTokenSymbol
      && r.value.gasLimit == 0 && r.value.gasCost == "0"
  {
    var amount :- ToFixed(req.amount, info.baseToken.decimals);
    Returns(PriceResponse(
      req.chain, info.baseToken.address, info.quoteToken.address, amount,
      info.expectedTrade.quote.inAmount, info.expectedTrade.quote.outAmount, info.expectedTrade.price,
      solana.gasPrice, solana.nativeTokenSymbol, 0, "0"))
  }

  /**
   * `price`: the trade info shaped into a response, or the failure of `getTradeInfo`
   * re-wrapped and no response. Formatting the amount comes after the `try`: an
   * amount that `parseFloat` reads but decimal.js-light rejects (" 0.1", "0.1abc")
   * is estimated and then throws decimal.js-light's own Error, not re-wrapped.
   */
  function Price(solana: Solana, jupiter: Jupiter, req: PriceRequest, fetchQuote: QuoteRequest -> Completion<QuoteResponse>)
    : (r: Completion<PriceResponse>)
    reads solana, jupiter
    ensures var info := GetTradeInfo(solana, jupiter, req.base, req.quote, req.amount, req.side, req.allowedSlippage, fetchQuote);
      && (info.Throws? ==> r == Throws(Rewrap(info.thrown)))
      && (info.Hangs? ==> r == Hangs)
      && (info.Returns? && NewDecimal(req.amount).None? ==> r == Throws(Error(InvalidDecimal(req.amount))))
      && (info.Returns? && NewDecimal(req.amount).Some? ==> r.Returns?)
    ensures r.Throws? ==>
      || (r.thrown.HttpException? && r.thrown.status == FAILED_STATUS && r.thrown.code in {PriceFailedCode, UnknownErrorCode})
      || r.thrown == Error(InvalidDecimal(req.amount))
    ensures r.Returns? ==>
      var info := GetTradeInfo(solana, jupiter, req.base, req.quote, req.amount, req.side, req.allowedSlippage, fetchQuote).value;
      && r.value.network == req.chain
      && r.value.base == info.baseToken.address
      && r.value.quote == info.quoteToken.address
      && NewDecimal(req.amount).Some?
      && r.value.amount == ToFixed(req.amount, info.baseToken.decimals).value
      && r.value.rawAmount == info.expectedTrade.quote.inAmount
      && r.value.expectedAmount == info.expectedTrade.quote.outAmount
      && r.value.price == info.expectedTrade.price
      && r.value.gasPrice == solana.gasPrice && r.value.gasPriceToken == solana.nativeTokenSymbol
      && r.value.gasLimit == 0 && r.value.gasCost == "0"
  {
    var info := GetTradeInfo(solana, jupiter, req.base, req.quote, req.amount, req.side, req.allowedSlippage, fetchQuote);
    if !info.Returns? then HandlerFailure(info)
    else PriceResponseFor(solana, req, info.value)
  }

  /**
   * A token the chain does not list is reported through the price-failed code, the
   * token-not-supported message kept inside; the base token is checked first.
   */
  lemma UnsupportedTokenSurfacesAsPriceFailed(
    solana: Solana, jupiter: Jupiter, req: PriceRequest, fetchQuote: QuoteRequest -> Completion<QuoteResponse>)
    requires req.base !in solana.symbolTable || req.quote !in solana.symbolTable
    ensures Price(solana, jupiter, req, fetchQuote).Throws?
    ensures var failing := if GetFullTokenFromSymbol(solana, jupiter, req.base).Throws? then req.base else req.quote;
      Price(solana, jupiter, req, fetchQuote).thrown
        == HttpException(FAILED_STATUS, PriceFailed(TokenNotSupported(failing)), PriceFailedCode)
  {
  }
}
