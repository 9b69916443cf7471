/**
 * The Jupiter `trade` route handler: estimate as `price` does, then ask the
 * aggregator's swap endpoint for a transaction, sign it with the caller's wallet,
 * send it and wait for its confirmation.
 *
 * The wallet store, the swap endpoint, transaction decoding, the RPC connection's
 * send and confirm are the collaborators of an `Environment`; each answers with a
 * fixed function of its argument, and the calls that leave the process are
 * recorded, in order, in the environment's trace.
 */
module JupiterTrading {
  import opened Outcomes
  import opened Decimals
  import opened NumberParsing
  import opened SolanaChain
  import opened JupiterConnector
  import opened JupiterControllers

  /** The wallet `solana.getKeypair(address)` returns; only its public key is observable here. */
  datatype Keypair = Keypair(publicKey: string)

  /** The JSON body posted to the swap endpoint. */
  datatype SwapRequest = SwapRequest(quoteResponse: JupiterTrade, userPublicKey: string, wrapAndUnwrapSol: bool)

  /** A serialized transaction: its message and the public keys of the wallets that signed it. */
  datatype RawTransaction = RawTransaction(message: string, signers: seq<string>)

  datatype SendOptions = SendOptions(skipPreflight: bool, maxRetries: nat)

  /** The options `trade` sends every transaction with. */
  const SEND_OPTIONS := SendOptions(true, 2)

  /** What `confirmTransaction` resolves with; `trade` does not look at it. */
  datatype Confirmation = Confirmed | FailedOnChain(reason: string)

  /** A call that leaves the handler. */
  datatype Event =
    | KeypairRequested(address: string)
    | SwapRequested(request: SwapRequest)
    | RawTransactionSent(raw: RawTransaction, options: SendOptions)
    | ConfirmationAwaited(txid: string)

  /** How each collaborator answers. */
  datatype Oracles = Oracles(
    keypair: string -> Completion<Keypair>,
    swap: SwapRequest -> Completion<string>,
    deserialize: string -> Completion<string>,
    send: (RawTransaction, SendOptions) -> Completion<string>,
    confirm: string -> Completion<Confirmation>)

  /** The fields of a trade request the handler reads. */
  datatype TradeRequest = TradeRequest(
    chain: string, base: string, quote: string, amount: string, side: string,
    allowedSlippage: Option<string>, address: string)

  datatype TradeResponse = TradeResponse(
    network: string, base: string, quote: string, amount: string, rawAmount: string,
    price: Option<Number>, gasPrice: real, gasPriceToken: string, gasLimit: int, gasCost: string,
    txHash: string)

  /** What a run of the handler (or of its swap stage) settles to, and the calls it made. */
  datatype SwapRun = SwapRun(txid: Completion<string>, events: seq<Event>)
  datatype TradeRun = TradeRun(outcome: Completion<TradeResponse>, events: seq<Event>)

  /** The quote posted to the swap endpoint: the estimated trade without its `price` field. */
  function StripPrice(trade: JupiterTrade): (stripped: JupiterTrade)
    ensures stripped.quote == trade.quote && stripped.price == None
  {
    trade.(price := None)
  }

  /**
   * The swap stage of `trade` for an estimated trade: each step runs only once the
   * previous one has returned, and the first failure ends the stage as it is.
   */
  function ExecuteSwap(o: Oracles, trade: JupiterTrade, address: string): (r: SwapRun)
    ensures 1 <= |r.events| <= 4 && r.events[0] == KeypairRequested(address)
    ensures o.keypair(address).Returns? <==> |r.events| >= 2
    ensures r.txid.Returns? ==> |r.events| == 4 && r.events[3] == ConfirmationAwaited(r.txid.value)
  {
    var wallet := o.keypair(address);
    var afterKeypair := [KeypairRequested(address)];
    if !wallet.Returns? then SwapRun(wallet.PropagateFailure(), afterKeypair)
    else
      var request := SwapRequest(StripPrice(trade), wallet.value.publicKey, true);
      var afterSwap := afterKeypair + [SwapRequested(request)];
      var encoded := o.swap(request);
      if !encoded.Returns? then SwapRun(encoded.PropagateFailure(), afterSwap)
      else
        var message := o.deserialize(encoded.value);
        if !message.Returns? then SwapRun(message.PropagateFailure(), afterSwap)
        else
          var rest := SendAndConfirm(o, RawTransaction(message.value, [wallet.value.publicKey]));
          SwapRun(rest.txid, afterSwap + rest.events)
  }

  /** The last two steps of the swap stage: send, then await the confirmation. */
  function SendAndConfirm(o: Oracles, raw: RawTransaction): (r: SwapRun)
    ensures 1 <= |r.events| <= 2 && r.events[0] == RawTransactionSent(raw, SEND_OPTIONS)
    ensures !o.send(raw, SEND_OPTIONS).Returns? ==> r.txid == o.send(raw, SEND_OPTIONS).PropagateFailure() && |r.events| == 1
    ensures r.txid.Returns? <==> o.send(raw, SEND_OPTIONS).Returns? && o.confirm(o.send(raw, SEND_OPTIONS).value).Returns?
    ensures r.txid.Returns? ==>
      && r.txid == o.send(raw, SEND_OPTIONS)
      && r.events == [RawTransactionSent(raw, SEND_OPTIONS), ConfirmationAwaited(r.txid.value)]
  {
    var afterSend := [RawTransactionSent(raw, SEND_OPTIONS)];
    var txid := o.send(raw, SEND_OPTIONS);
    if !txid.Returns? then SwapRun(txid.PropagateFailure(), afterSend)
    else
      var afterConfirm := afterSend + [ConfirmationAwaited(txid.value)];
      var confirmation := o.confirm(txid.value);
      if !confirmation.Returns? then SwapRun(confirmation.PropagateFailure(), afterConfirm)
      else SwapRun(Returns(txid.value), afterConfirm)
  }

  /** `txid || ''`: the empty string is the only falsy string, so the fallback never changes the id. */
  function TxHash(txid: string): (hash: string)
    ensures hash == txid
  {
    if txid == "" then "" else txid
  }

  /**
   * The response `trade` builds once the transaction is confirmed: formatting the
   * amount throws, unwrapped, when decimal.js-light rejects it.
   */
  function TradeResponseFor(solana: Solana, req: TradeRequest, info: TradeInfo, txid: string): (r: Completion<TradeResponse>)
    reads solana
    ensures NewDecimal(req.amount).None? ==> r == Throws(Error(InvalidDecimal(req.amount)))
    ensures NewDecimal(req.amount).Some? ==>
      && r.Returns?
      && r.value.network == req.chain
      && r.value.base == info.baseToken.address
      && r.value.quote == info.quoteToken.address
      && r.value.amount == ToFixed(req.amount, info.baseToken.decimals).value
      && r.value.rawAmount == info.expectedTrade.quote.inAmount
      && r.value.price == info.expectedTrade.price
      && r.value.gasPrice == solana.gasPrice && r.value.gasPriceToken == solana.nativeTokenSymbol
      && r.value.txHash == txid
      && r.value.gasLimit == 0 && r.value.gasCost == "0"
  {
    var amount :- ToFixed(req.amount, info.baseToken.decimals);
    Returns(TradeResponse(
      req.chain, info.baseToken.address, info.quoteToken.address, amount,
      info.expectedTrade.quote.inAmount, info.expectedTrade.price,
      solana.gasPrice, solana.nativeTokenSymbol, 0, "0", TxHash(txid)))
  }

  /**
   * What `trade` settles to and the calls it makes: nothing is called when the
   * estimate fails, and a response reports a transaction whose confirmation was awaited.
   */
  function TradeSpec(
    o: Oracles, solana: Solana, jupiter: Jupiter, req: TradeRequest,
    fetchQuote: QuoteRequest -> Completion<QuoteResponse>): (r: TradeRun)
    reads solana, jupiter
    ensures r.events == [] <==>
      !GetTradeInfo(solana, jupiter, req.base, req.quote, req.amount, req.side, req.allowedSlippage, fetchQuote).Returns?
    ensures |r.events| <= 4
    ensures r.outcome.Returns? ==> |r.events| == 4 && r.events[3] == ConfirmationAwaited(r.outcome.value.txHash)
  {
    var info := GetTradeInfo(solana, jupiter, req.base, req.quote, req.amount, req.side, req.allowedSlippage, fetchQuote);
    if !info.Returns? then TradeRun(HandlerFailure(info), [])
    else
      var run := ExecuteSwap(o, info.value.expectedTrade, req.address);
      if !run.txid.Returns? then TradeRun(run.txid.PropagateFailure(), run.events)
      else TradeRun(TradeResponseFor(solana, req, info.value, run.txid.value), run.events)
  }

  /** The collaborators, and the calls made to them so far. */
  class Environment {
    const oracles: Oracles
    var trace: seq<Event>

    constructor (oracles: Oracles)
      ensures this.oracles == oracles && trace == []
    {
      this.oracles := oracles;
      trace := [];
    }

    /** `solana.getKeypair(address)` */
    method GetKeypair(address: string) returns (r: Completion<Keypair>)
      modifies this
      ensures r == oracles.keypair(address)
      ensures trace == old(trace) + [KeypairRequested(address)]
    {
      trace := trace + [KeypairRequested(address)];
      r := oracles.keypair(address);
    }

    /** The POST to the swap endpoint and the `swapTransaction` field of its JSON answer. */
    method PostSwap(request: SwapRequest) returns (r: Completion<string>)
      modifies this
      ensures r == oracles.swap(request)
      ensures trace == old(trace) + [SwapRequested(request)]
    {
      trace := trace + [SwapRequested(request)];
      r := oracles.swap(request);
    }

    /** `solana.connection.sendRawTransaction(raw, options)` */
    method SendRawTransaction(raw: RawTransaction, options: SendOptions) returns (r: Completion<string>)
      modifies this
      ensures r == oracles.send(raw, options)
      ensures trace == old(trace) + [RawTransactionSent(raw, options)]
    {
      trace := trace + [RawTransactionSent(raw, options)];
      r := oracles.send(raw, options);
    }

    /** `solana.connection.confirmTransaction(txid)` */
    method ConfirmTransaction(txid: string) returns (r: Completion<Confirmation>)
      modifies this
      ensures r == oracles.confirm(txid)
      ensures trace == old(trace) + [ConfirmationAwaited(txid)]
    {
      trace := trace + [ConfirmationAwaited(txid)];
      r := oracles.confirm(txid);
    }
  }

  /** A deserialized versioned transaction, to which signatures are added in place. */
  class VersionedTransaction {
    const message: string
    var signers: seq<string>

    /** `VersionedTransaction.deserialize(Buffer.from(encoded, 'base64'))`: unsigned. */
    static method Deserialize(env: Environment, encoded: string) returns (r: Completion<VersionedTransaction>)
      ensures env.oracles.deserialize(encoded).Returns? ==>
        r.Returns? && fresh(r.value) && r.value.message == env.oracles.deserialize(encoded).value && r.value.signers == []
      ensures !env.oracles.deserialize(encoded).Returns? ==> r == env.oracles.deserialize(encoded).PropagateFailure()
    {
      var decoded := env.oracles.deserialize(encoded);
      if !decoded.Returns? {
        return decoded.PropagateFailure();
      }
      var transaction := new VersionedTransaction(decoded.value);
      r := Returns(transaction);
    }

    constructor (message: string)
      ensures this.message == message && signers == []
    {
      this.message := message;
      signers := [];
    }

    /** `transaction.sign([wallet])` */
    method Sign(wallet: Keypair)
      modifies this
      ensures signers == old(signers) + [wallet.publicKey]
    {
      signers := signers + [wallet.publicKey];
    }

    /** `transaction.serialize()` */
    function Serialize(): RawTransaction
      reads this
    {
      RawTransaction(message, signers)
    }
  }

  /** `structuredClone(tradeInfo.expectedTrade)`, whose `price` field is then deleted. */
  class TradeClone {
    var quote: QuoteResponse
    var price: Option<Number>

    constructor (trade: JupiterTrade)
      ensures quote == trade.quote && price == trade.price
    {
      quote := trade.quote;
      price := trade.price;
    }

    /** `delete quoteResponse['price']` */
    method DeletePrice()
      modifies this
      ensures quote == old(quote) && price == None
    {
      price := None;
    }

    function Body(): JupiterTrade
      reads this
    {
      JupiterTrade(quote, price)
    }
  }

  /** The swap stage, step by step: it settles and calls as `ExecuteSwap` says. */
  method SwapSteps(env: Environment, trade: JupiterTrade, address: string) returns (txid: Completion<string>)
    modifies env
    ensures txid == ExecuteSwap(env.oracles, trade, address).txid
    ensures env.trace == old(env.trace) + ExecuteSwap(env.oracles, trade, address).events
  {
    var quoteResponse := new TradeClone(trade);
    quoteResponse.DeletePrice();
    var wallet := env.GetKeypair(address);
    if !wallet.Returns? {
      return wallet.PropagateFailure();
    }
    var request := SwapRequest(quoteResponse.Body(), wallet.value.publicKey, true);
    var swapTransaction := env.PostSwap(request);
    if !swapTransaction.Returns? {
      return swapTransaction.PropagateFailure();
    }
    var transaction := VersionedTransaction.Deserialize(env, swapTransaction.value);
    if !transaction.Returns? {
      return transaction.PropagateFailure();
    }
    transaction.value.Sign(wallet.value);
    var rawTransaction := transaction.value.Serialize();
    assert request == SwapRequest(StripPrice(trade), wallet.value.publicKey, true);
    assert swapTransaction == env.oracles.swap(request);
    assert rawTransaction == RawTransaction(env.oracles.deserialize(swapTransaction.value).value, [wallet.value.publicKey]);
    ghost var before := env.trace;
    assert before == old(env.trace) + [KeypairRequested(address), SwapRequested(request)];
    txid := SendAndConfirmSteps(env, rawTransaction);
    ghost var rest := SendAndConfirm(env.oracles, rawTransaction);
    assert env.trace == old(env.trace) + ([KeypairRequested(address), SwapRequested(request)] + rest.events);
  }

  /** Sending and confirming, step by step: they settle and call as `SendAndConfirm` says. */
  method SendAndConfirmSteps(env: Environment, raw: RawTransaction) returns (txid: Completion<string>)
    modifies env
    ensures txid == SendAndConfirm(env.oracles, raw).txid
    ensures env.trace == old(env.trace) + SendAndConfirm(env.oracles, raw).events
  {
    txid := env.SendRawTransaction(raw, SEND_OPTIONS);
    if !txid.Returns? {
      return txid.PropagateFailure();
    }
    var confirmation := env.ConfirmTransaction(txid.value);
    if !confirmation.Returns? {
      return confirmation.PropagateFailure();
    }
  }

  /** `trade`: the handler, step by step; it settles and calls as `TradeSpec` says. */
  method Trade(
    env: Environment, solana: Solana, jupiter: Jupiter, req: TradeRequest,
    fetchQuote: QuoteRequest -> Completion<QuoteResponse>) returns (r: Completion<TradeResponse>)
    modifies env
    ensures r == TradeSpec(env.oracles, solana, jupiter, req, fetchQuote).outcome
    ensures env.trace == old(env.trace) + TradeSpec(env.oracles, solana, jupiter, req, fetchQuote).events
  {
    var info := GetTradeInfo(solana, jupiter, req.base, req.quote, req.amount, req.side, req.allowedSlippage, fetchQuote);
    if !info.Returns? {
      return HandlerFailure(info);
    }
    var tradeInfo := info.value;
    var txid := SwapSteps(env, tradeInfo.expectedTrade, req.address);
    if !txid.Returns? {
      return txid.PropagateFailure();
    }
    r := TradeResponseFor(solana, req, tradeInfo, txid.value);
  }

  /** The call `e` records was answered with a failure (or never answered). */
  ghost predicate CallFailed(o: Oracles, e: Event) {
    match e
    case KeypairRequested(address) => !o.keypair(address).Returns?
    case SwapRequested(request) => !o.swap(request).Returns?
    case RawTransactionSent(raw, options) => !o.send(raw, options).Returns?
    case ConfirmationAwaited(txid) => !o.confirm(txid).Returns?
  }

  /** The failure the call `e` records was answered with. */
  ghost function FailureOf(o: Oracles, e: Event): Completion<string>
    requires CallFailed(o, e)
  {
    match e
    case KeypairRequested(address) => o.keypair(address).PropagateFailure()
    case SwapRequested(request) => o.swap(request).PropagateFailure()
    case RawTransactionSent(raw, options) => o.send(raw, options).PropagateFailure()
    case ConfirmationAwaited(txid) => o.confirm(txid).PropagateFailure()
  }

  /** No call is made after one that failed, and the stage's failure is that call's failure or the decoder's. */
  lemma NoCallAfterAFailure(o: Oracles, trade: JupiterTrade, address: string)
    ensures var run := ExecuteSwap(o, trade, address);
      && 1 <= |run.events| <= 4
      && (forall i :: 0 <= i < |run.events| - 1 ==> !CallFailed(o, run.events[i]))
      && (!run.txid.Returns? ==>
            (CallFailed(o, run.events[|run.events| - 1]) && run.txid == FailureOf(o, run.events[|run.events| - 1])) ||
            (run.events[|run.events| - 1].SwapRequested? &&
             !o.deserialize(o.swap(run.events[|run.events| - 1].request).value).Returns? &&
             run.txid == o.deserialize(o.swap(run.events[|run.events| - 1].request).value).PropagateFailure()))
  {
  }

  /** The only transaction sent carries exactly the wallet's signature, with skipPreflight and two retries. */
  lemma SentTransactionIsSignedByTheWallet(o: Oracles, trade: JupiterTrade, address: string)
    ensures var run := ExecuteSwap(o, trade, address);
      forall i :: 0 <= i < |run.events| && run.events[i].RawTransactionSent? ==>
        && o.keypair(address).Returns?
        && run.events[i].raw.signers == [o.keypair(address).value.publicKey]
        && run.events[i].options == SendOptions(true, 2)
        && i == 2 && run.events[1].SwapRequested?
        && o.swap(run.events[1].request).Returns?
        && o.deserialize(o.swap(run.events[1].request).value).Returns?
        && run.events[i].raw.message == o.deserialize(o.swap(run.events[1].request).value).value
  {
  }

  /** The swap endpoint receives the estimated quote without its price, the wallet's key, and SOL wrapping on. */
  lemma SwapRequestCarriesTheStrippedQuote(o: Oracles, trade: JupiterTrade, address: string)
    ensures var run := ExecuteSwap(o, trade, address);
      forall i :: 0 <= i < |run.events| && run.events[i].SwapRequested? ==>
        && o.keypair(address).Returns?
        && run.events[i].request.quoteResponse.quote == trade.quote
        && run.events[i].request.quoteResponse.price == None
        && run.events[i].request.userPublicKey == o.keypair(address).value.publicKey
        && run.events[i].request.wrapAndUnwrapSol
  {
  }

  /**
   * The stage succeeds exactly when every call returns, whatever the confirmation
   * says; it then reports the id the send returned, after awaiting its confirmation.
   */
  lemma SwapReportsTheSentTransaction(o: Oracles, trade: JupiterTrade, address: string)
    ensures var run := ExecuteSwap(o, trade, address);
      run.txid.Returns? ==>
        && |run.events| == 4
        && run.events[2].RawTransactionSent?
        && o.send(run.events[2].raw, run.events[2].options) == run.txid
        && run.events[3] == ConfirmationAwaited(run.txid.value)
        && o.confirm(run.txid.value).Returns?
    ensures var run := ExecuteSwap(o, trade, address);
      (|run.events| == 4 && o.confirm(run.events[3].txid).Returns?) ==> run.txid.Returns?
  {
  }

  /** When the estimate fails nothing else is called, and the failure is re-wrapped as in `price`. */
  lemma FailedEstimateCallsNothing(
    o: Oracles, solana: Solana, jupiter: Jupiter, req: TradeRequest,
    fetchQuote: QuoteRequest -> Completion<QuoteResponse>)
    requires !GetTradeInfo(solana, jupiter, req.base, req.quote, req.amount, req.side, req.allowedSlippage, fetchQuote).Returns?
    ensures TradeSpec(o, solana, jupiter, req, fetchQuote).events == []
    ensures var info := GetTradeInfo(solana, jupiter, req.base, req.quote, req.amount, req.side, req.allowedSlippage, fetchQuote);
      info.Throws? ==> TradeSpec(o, solana, jupiter, req, fetchQuote).outcome == Throws(Rewrap(info.thrown))
  {
  }

  /** A failure of the swap stage reaches the caller as thrown: it is not re-wrapped into the 500 taxonomy. */
  lemma SwapFailureIsNotRewrapped(
    o: Oracles, solana: Solana, jupiter: Jupiter, req: TradeRequest,
    fetchQuote: QuoteRequest -> Completion<QuoteResponse>)
    requires GetTradeInfo(solana, jupiter, req.base, req.quote, req.amount, req.side, req.allowedSlippage, fetchQuote).Returns?
    ensures var info := GetTradeInfo(solana, jupiter, req.base, req.quote, req.amount, req.side, req.allowedSlippage, fetchQuote);
      var run := ExecuteSwap(o, info.value.expectedTrade, req.address);
      && TradeSpec(o, solana, jupiter, req, fetchQuote).events == run.events
      && (run.txid.Throws? ==> TradeSpec(o, solana, jupiter, req, fetchQuote).outcome == Throws(run.txid.thrown))
      && (run.txid.Hangs? ==> TradeSpec(o, solana, jupiter, req, fetchQuote).outcome == Hangs)
  {
  }

  /**
   * A completed trade reports the estimated price (which the swap request left out),
   * the estimate's input amount, the amount at the base token's decimals, the gas
   * fields and the sent transaction's id; it completes exactly when the swap stage
   * does and decimal.js-light accepts the amount.
   */
  lemma TradeResponseReportsTheEstimate(
    o: Oracles, solana: Solana, jupiter: Jupiter, req: TradeRequest,
    fetchQuote: QuoteRequest -> Completion<QuoteResponse>)
    requires GetTradeInfo(solana, jupiter, req.base, req.quote, req.amount, req.side, req.allowedSlippage, fetchQuote).Returns?
    ensures var info := GetTradeInfo(solana, jupiter, req.base, req.quote, req.amount, req.side, req.allowedSlippage, fetchQuote).value;
      var run := ExecuteSwap(o, info.expectedTrade, req.address);
      var r := TradeSpec(o, solana, jupiter, req, fetchQuote).outcome;
      && (r.Returns? <==> run.txid.Returns? && NewDecimal(req.amount).Some?)
      && (r.Returns? ==>
            && r.value.network == req.chain
            && r.value.base == info.baseToken.address
            && r.value.quote == info.quoteToken.address
            && r.value.amount == ToFixed(req.amount, info.baseToken.decimals).value
            && r.value.rawAmount == info.expectedTrade.quote.inAmount
            && r.value.price == info.expectedTrade.price && r.value.price.Some?
            && r.value.gasPrice == solana.gasPrice && r.value.gasPriceToken == solana.nativeTokenSymbol
            && r.value.txHash == run.txid.value
            && r.value.gasLimit == 0 && r.value.gasCost == "0")
  {
    var info := GetTradeInfo(solana, jupiter, req.base, req.quote, req.amount, req.side, req.allowedSlippage, fetchQuote).value;
    var run := ExecuteSwap(o, info.expectedTrade, req.address);
    if run.txid.Returns? {
      assert TradeSpec(o, solana, jupiter, req, fetchQuote).outcome == TradeResponseFor(solana, req, info, run.txid.value);
    }
  }

  /**
   * An amount `parseFloat` reads but decimal.js-light rejects (" 0.1", "0.1 ",
   * "0.1abc") is estimated and swapped: the transaction is sent and confirmed, and
   * only then does formatting the response throw decimal.js-light's plain Error,
   * outside the `try`, so the caller gets neither a 500 nor the transaction id.
   */
  lemma UnreadableAmountThrowsAfterTheSwap(
    o: Oracles, solana: Solana, jupiter: Jupiter, req: TradeRequest,
    fetchQuote: QuoteRequest -> Completion<QuoteResponse>)
    requires GetTradeInfo(solana, jupiter, req.base, req.quote, req.amount, req.side, req.allowedSlippage, fetchQuote).Returns?
    requires NewDecimal(req.amount).None?
    ensures ParseFloat(req.amount).Some?
    ensures var info := GetTradeInfo(solana, jupiter, req.base, req.quote, req.amount, req.side, req.allowedSlippage, fetchQuote).value;
      var run := ExecuteSwap(o, info.expectedTrade, req.address);
      var t := TradeSpec(o, solana, jupiter, req, fetchQuote);
      run.txid.Returns? ==>
        && t.outcome == Throws(Error(InvalidDecimal(req.amount)))
        && t.events == run.events
        && |t.events| == 4
        && t.events[2].RawTransactionSent?
        && t.events[3] == ConfirmationAwaited(run.txid.value)
  {
    var info := GetTradeInfo(solana, jupiter, req.base, req.quote, req.amount, req.side, req.allowedSlippage, fetchQuote).value;
    var run := ExecuteSwap(o, info.expectedTrade, req.address);
    if run.txid.Returns? {
      SwapReportsTheSentTransaction(o, info.expectedTrade, req.address);
    }
  }
}
