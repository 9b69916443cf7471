/**
 * The Jupiter connector object: its init/ready life cycle, its token list and
 * lookup by address, the per-(chain, network) instance registry, and the quote
 * estimation of `estimateBuyTrade` / `estimateSellTrade`.
 *
 * The aggregator's quote endpoint is a parameter `fetchQuote`: it receives the quote
 * request record (the fields of the query string) and settles to a quote or fails.
 */
module JupiterConnector {
  import opened Outcomes
  import opened Digits
  import opened Decimals
  import opened NumberParsing
  import opened SolanaChain
  import opened AmountCodec

  /** A JavaScript number that may come out of a division. */
  datatype Number = Finite(value: real) | NaN | Infinity | NegativeInfinity

  /** The query parameters of a request to the aggregator's quote endpoint. */
  datatype QuoteRequest = QuoteRequest(inputMint: string, outputMint: string, amount: string, slippageBps: string)

  /**
   * The aggregator's quote: the fields the connector reads, and the rest of the
   * response (route plan, thresholds, ...) carried along untouched.
   */
  datatype QuoteResponse = QuoteResponse(
    inputMint: string, inAmount: string, outputMint: string, outAmount: string,
    priceImpactPct: string, passThrough: string)

  /** `JupiterTrade`: the quote response spread into a record, with the locally computed `price`. */
  datatype JupiterTrade = JupiterTrade(quote: QuoteResponse, price: Option<Number>)

  const DEFAULT_SLIPPAGE_BPS := "50"

  /** The slippage sent with a quote request: the caller's value, or 50 bps when it is absent or empty. */
  function SlippageOrDefault(allowedSlippage: Option<string>): (bps: string)
    ensures allowedSlippage.None? || allowedSlippage == Some("") ==> bps == DEFAULT_SLIPPAGE_BPS
    ensures allowedSlippage.Some? && allowedSlippage.value != "" ==> bps == allowedSlippage.value
    ensures bps != ""
  {
    if allowedSlippage.None? || allowedSlippage.value == "" then DEFAULT_SLIPPAGE_BPS else allowedSlippage.value
  }

  /**
   * p is JavaScript's `out / amount` for a non-negative divisor: exact where it is
   * finite, NaN for 0 / 0, and an infinity of the dividend's sign otherwise.
   */
  ghost predicate IsQuotient(p: Number, out: SignedDecimal, amount: Decimal) {
    && (amount.mantissa != 0 ==> p.Finite? && p.value * amount.Value() == out.Value())
    && (amount.mantissa == 0 ==>
          p == if out.magnitude.mantissa == 0 then NaN else if out.negative then NegativeInfinity else Infinity)
  }

  function Quotient(out: SignedDecimal, amount: Decimal): (p: Number)
    ensures IsQuotient(p, out, amount)
  {
    if amount.mantissa == 0 then (if out.magnitude.mantissa == 0 then NaN else if out.negative then NegativeInfinity else Infinity)
    else
      PositiveValue(amount);
      QuotientTimesDivisor(out.Value(), amount.Value());
      Finite(out.Value() / amount.Value())
  }

  /**
   * `price: outAmount / parseFloat(amount)`: the output amount, decoded in the
   * output token's decimals, per unit of the requested amount.
   */
  function UnitPrice(output: TokenInfo, outAmount: string, amount: Decimal): (p: Number)
    ensures ParseAmount(output, outAmount).None? ==> p == NaN
    ensures ParseAmount(output, outAmount).Some? ==> IsQuotient(p, ParseAmount(output, outAmount).value, amount)
  {
    var parsed := ParseAmount(output, outAmount);
    if parsed.None? then NaN else Quotient(parsed.value, amount)
  }

  /**
   * `r` is what the connector settles to when it sends `request` and prices the
   * answer in `output` per `amount`: the quote passes through unchanged with the
   * unit price added, and a failure of the endpoint is the connector's failure.
   */
  ghost predicate AnswersRequest(
    r: Completion<JupiterTrade>, request: QuoteRequest, output: TokenInfo, amount: Decimal,
    fetchQuote: QuoteRequest -> Completion<QuoteResponse>)
  {
    match fetchQuote(request)
    case Returns(q) => r == Returns(JupiterTrade(q, Some(UnitPrice(output, q.outAmount, amount))))
    case Throws(e) => r == Throws(e)
    case Hangs => r == Hangs
  }

  /**
   * Shared body of the two estimators: send the request for input -> output and
   * price the answer in output-token units per unit of the amount.
   */
  function EstimateTrade(
    input: TokenInfo, output: TokenInfo, amount: string, allowedSlippage: Option<string>,
    fetchQuote: QuoteRequest -> Completion<QuoteResponse>): (r: Completion<JupiterTrade>)
    ensures ParseFloat(amount).None? ==> r == Hangs
    ensures ParseFloat(amount).Some? ==>
      AnswersRequest(r,
        QuoteRequest(input.address, output.address,
          EncodeAmount(input.decimals, ParseFloat(amount).value), SlippageOrDefault(allowedSlippage)),
        output, ParseFloat(amount).value, fetchQuote)
    ensures r.Returns? ==> r.value.price.Some?
  {
    match ParseFloat(amount)
    case None => Hangs
    case Some(d) =>
      var request := QuoteRequest(input.address, output.address, EncodeAmount(input.decimals, d), SlippageOrDefault(allowedSlippage));
      var response :- fetchQuote(request);
      Returns(JupiterTrade(response, Some(UnitPrice(output, response.outAmount, d))))
  }

  /**
   * `estimateBuyTrade(quoteToken, baseToken, amount)`: requests quoteToken -> baseToken,
   * with the amount encoded in quoteToken's decimals and the price in baseToken units.
   */
  function EstimateBuyTrade(
    quoteToken: TokenInfo, baseToken: TokenInfo, amount: string, allowedSlippage: Option<string>,
    fetchQuote: QuoteRequest -> Completion<QuoteResponse>): (r: Completion<JupiterTrade>)
    ensures ParseFloat(amount).None? ==> r == Hangs
    ensures ParseFloat(amount).Some? ==>
      AnswersRequest(r,
        QuoteRequest(quoteToken.address, baseToken.address,
          EncodeAmount(quoteToken.decimals, ParseFloat(amount).value), SlippageOrDefault(allowedSlippage)),
        baseToken, ParseFloat(amount).value, fetchQuote)
  {
    EstimateTrade(quoteToken, baseToken, amount, allowedSlippage, fetchQuote)
  }

  /**
   * `estimateSellTrade(baseToken, quoteToken, amount)`: requests baseToken -> quoteToken,
   * with the amount encoded in baseToken's decimals and the price in quoteToken units.
   * The source writes the two estimates out separately; both delegate to
   * `EstimateTrade`, with the roles of the two tokens swapped.
   */
  function EstimateSellTrade(
    baseToken: TokenInfo, quoteToken: TokenInfo, amount: string, allowedSlippage: Option<string>,
    fetchQuote: QuoteRequest -> Completion<QuoteResponse>): (r: Completion<JupiterTrade>)
    ensures ParseFloat(amount).None? ==> r == Hangs
    ensures ParseFloat(amount).Some? ==>
      AnswersRequest(r,
        QuoteRequest(baseToken.address, quoteToken.address,
          EncodeAmount(baseToken.decimals, ParseFloat(amount).value), SlippageOrDefault(allowedSlippage)),
        quoteToken, ParseFloat(amount).value, fetchQuote)
  {
    EstimateTrade(baseToken, quoteToken, amount, allowedSlippage, fetchQuote)
  }

  /** `tokenList.find(x => x.address === address)`: the index of the first token with that address. */
  function IndexOfAddress(tokens: seq<TokenInfo>, address: string): (r: Option<nat>)
    ensures r.None? <==> forall i :: 0 <= i < |tokens| ==> tokens[i].address != address
    ensures r.Some? ==> r.value < |tokens| && tokens[r.value].address == address
    ensures r.Some? ==> forall j :: 0 <= j < r.value ==> tokens[j].address != address
  {
    if tokens == [] then None
    else if tokens[0].address == address then Some(0)
    else match IndexOfAddress(tokens[1..], address)
      case None => None
      case Some(i) => Some(i + 1)
  }

  class Jupiter {
    const chain: Solana
    var ready: bool
    var tokenList: seq<TokenInfo>

    /** Until `init` succeeds the connector is not ready and its token list is the initial empty one. */
    ghost predicate Valid()
      reads this
    {
      !ready ==> tokenList == []
    }

    /** The private constructor once the chain name has been accepted. */
    constructor (chain: Solana)
      ensures this.chain == chain && !ready && tokenList == [] && Valid()
    {
      this.chain := chain;
      ready := false;
      tokenList := [];
    }

    /**
     * `new Jupiter(chain, network)`: only 'solana' is accepted. `solana` stands for
     * `Solana.getInstance(network)`, which the constructor asks for only then.
     */
    static method Create(chainName: string, network: string, solana: Solana) returns (r: Completion<Jupiter>)
      ensures chainName == "solana" ==>
        r.Returns? && fresh(r.value) && r.value.chain == solana && !r.value.ready && r.value.tokenList == []
      ensures chainName != "solana" ==> r == Throws(UNSUPPORTED_CHAIN)
    {
      if chainName == "solana" {
        var jupiter := new Jupiter(solana);
        r := Returns(jupiter);
      } else {
        r := Throws(UNSUPPORTED_CHAIN);
      }
    }

    /**
     * `init()`: fails without any change while the chain is not ready; otherwise
     * replaces the token list with the chain's and becomes ready.
     */
    method Init() returns (r: Completion<()>)
      modifies this
      ensures old(Valid()) ==> Valid()
      ensures old(ready) ==> ready
      ensures !chain.isReady ==>
        r == Throws(InitializationError(ServiceUninitialized(chain.displayName), ServiceUninitializedCode))
      ensures chain.isReady && chain.tokenListResponse.Returns? ==>
        r == Returns(()) && ready && tokenList == chain.tokenListResponse.value
      ensures chain.isReady && chain.tokenListResponse.Throws? ==> r == Throws(chain.tokenListResponse.thrown)
      ensures chain.isReady && chain.tokenListResponse.Hangs? ==> r == Hangs
      ensures !r.Returns? ==> ready == old(ready) && tokenList == old(tokenList)
    {
      if !chain.Ready() {
        return Throws(InitializationError(ServiceUninitialized(chain.displayName), ServiceUninitializedCode));
      }
      match chain.tokenListResponse
      case Returns(tokens) =>
        tokenList := tokens;
        ready := true;
        r := Returns(());
      case Throws(e) =>
        r := Throws(e);
      case Hangs =>
        r := Hangs;
    }

    /** `ready()`: whether `init` has completed; until then the token list is the initial empty one. */
    function Ready(): (r: bool)
      reads this
      ensures Valid() && !r ==> tokenList == []
    {
      ready
    }

    /** `getTokenByAddress(address)`: the first listed token with that address, if any. */
    function TokenByAddress(address: string): (r: Option<TokenInfo>)
      reads this
      ensures r.None? <==> forall i :: 0 <= i < |tokenList| ==> tokenList[i].address != address
      ensures r.Some? ==> r.value.address == address
      ensures r.Some? ==>
        exists i :: (0 <= i < |tokenList| && tokenList[i] == r.value &&
          forall j :: 0 <= j < i ==> tokenList[j].address != address)
    {
      match IndexOfAddress(tokenList, address)
      case None => None
      case Some(i) => Some(tokenList[i])
    }
  }

  /** `Jupiter._instances` with `getInstance`: one connector per key `chain + network`, made on first demand. */
  class JupiterRegistry {
    var instances: map<string, Jupiter>

    constructor ()
      ensures instances == map[]
    {
      instances := map[];
    }

    method GetInstance(chainName: string, network: string, solana: Solana) returns (r: Completion<Jupiter>)
      modifies this
      ensures var key := chainName + network;
        key in old(instances) ==> r == Returns(old(instances)[key]) && instances == old(instances)
      ensures var key := chainName + network;
        key !in old(instances) && chainName == "solana" ==>
          r.Returns? && fresh(r.value) && r.value.chain == solana && !r.value.ready && r.value.tokenList == []
          && instances == old(instances)[key := r.value]
      ensures var key := chainName + network;
        key !in old(instances) && chainName != "solana" ==>
          r == Throws(UNSUPPORTED_CHAIN) && instances == old(instances)
    {
      var key := chainName + network;
      if key !in instances {
        var created := Jupiter.Create(chainName, network, solana);
        if created.Throws? {
          return Throws(created.thrown);
        }
        instances := instances[key := created.value];
      }
      r := Returns(instances[key]);
    }
  }

  /** Asking twice with the same chain and network yields the identical connector. */
  method SameKeySameInstance(registry: JupiterRegistry, chainName: string, network: string, solana: Solana)
    returns (first: Completion<Jupiter>, second: Completion<Jupiter>)
    modifies registry
    ensures first.Returns? ==> second == first
    ensures first.Throws? ==> second == first
  {
    first := registry.GetInstance(chainName, network, solana);
    second := registry.GetInstance(chainName, network, solana);
  }

  /**
   * The registry key concatenates chain and network without a separator, so an
   * unsupported chain name can be answered with a cached Solana connector.
   */
  method ConcatenatedKeysCollide(registry: JupiterRegistry, solana: Solana)
    returns (solanaMainnet: Completion<Jupiter>, solAnamainnet: Completion<Jupiter>)
    requires registry.instances == map[]
    modifies registry
    ensures solanaMainnet.Returns? && solAnamainnet == solanaMainnet
  {
    solanaMainnet := registry.GetInstance("solana", "mainnet", solana);
    assert "sol" + "anamainnet" == "solana" + "mainnet";
    solAnamainnet := registry.GetInstance("sol", "anamainnet", solana);
  }
}
