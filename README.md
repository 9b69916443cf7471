# Jupiter and Raydium swap connectors — a Dafny model

This project models the Solana swap connectors of a trading gateway. There are two connectors.

The **Jupiter connector** covers the following:
- a per-(chain, network) singleton registry;
- an init/ready state machine over the connector's token list;
- a first-match token lookup by address;
- the amount codec;
- construction of the directional quote request sent to the aggregator's quote endpoint.

The codec has two halves:
- `getAmount` turns a human decimal amount into a raw integer string by multiplying by 10 until the value is integral, then padding with zeros.
- `parseAmount` turns a raw amount back into a number of tokens.

The Jupiter route handlers do the following:
- resolve token symbols in two stages (chain symbol → address → connector token);
- dispatch on the trade side;
- re-wrap failures into a two-code error taxonomy;
- build the price and trade responses.

The `trade` handler also drives the swap. It clones the estimated trade and deletes the price from the clone. Then it fetches the swap transaction, signs it in place, sends it with fixed options and awaits its confirmation.

The **Raydium connector** is a skeleton. It has the same registry and ready flag, a time-to-live taken from its configuration, and the precedence rule for the allowed slippage.

Modules, one per file:

- `Outcomes` (`outcomes.dfy`): how a call ends. `Completion` is `Returns(value)`, `Throws(thrown)` or `Hangs`. `Hangs` stands for a promise that never settles or a loop that never ends. Thrown values are `Error`, `InitializationError`, `HttpException` or a non-`Error` value. Error messages are kept as structure, because their text prefixes are constants of the gateway's error handler, and that file is not part of this model.
- `Digits` (`digits.dfy`): decimal digit strings, their values, integer-to-string conversion and zero padding.
- `Decimals` (`decimals.dfy`): exact non-negative decimals `mantissa / 10^scale`, plain `digits[.digits]` literals, the `Math.floor(r) !== r` test, `r * 10`, half-up rescaling and fixed-point rendering.
- `NumberParsing` (`parsing.dfy`): the two readers of an amount string. `parseFloat` skips leading white space and reads the longest numeric prefix. decimal.js-light's `new Decimal` takes an optional '-' and then the whole string as one literal, exponent included. This module also holds decimal.js-light's `toFixed`, lemmas on where the two readers agree and where they part, and `parseInt`, which `parseAmount` uses on the raw amounts the aggregator returns: white space, a sign and a "0x" prefix are read, then the longest digit run of that base.
- `SolanaChain` (`solana.dfy`): the chain client, seen only through the fields and calls the connectors use.
- `AmountCodec` (`amount.dfy`): `getAmount` as a loop proved against a reference encoding, `parseAmount`, and the laws that relate the two.
- `JupiterConnector` (`jupiter.dfy`): the connector class, its registry, the quote-request construction and the unit price.
- `JupiterControllers` (`controllers.dfy`): token resolution, `getTradeInfo`, the error re-wrapping and `price`.
- `PriceExamples` (`price_examples.dfy`): worked SOL/USDC instances of the price path.
- `JupiterTrading` (`trade.dfy`): `trade` as a method over an environment of collaborators. Its calls are recorded in a trace. Its result and trace are proved equal to those of the functions `ExecuteSwap`, `SendAndConfirm` and `TradeSpec`. Lemmas about ordering, signing and failure propagation are proved on those functions.
- `RaydiumConnector` (`raydium.dfy`): the Raydium class, its registry, `split`/`join` on `'/'`, and `getAllowedSlippage`.

Behaviour of the code that the model keeps as written:

- **Over-scaling of excess digits.** An amount with k significant fraction digits, where k exceeds the token's decimals, is not truncated. The raw amount is amount × 10^k, so it decodes to 10^(k − decimals) times the amount. This is proved in `AmountCodec.OverPreciseAmountIsOverScaled`. A truncating encoder would round amount × 10^decimals down; this one scales the parsed digits instead.
- **Which token a BUY amount is in.** A BUY encodes the amount in the *quote* token's decimals and offers the quote token as input. "BUY 0.1" of SOL for USDC therefore offers 0.1 USDC; see `PriceExamples.BuyTenthOffersTenthOfQuoteToken`.
- **Any side other than `'BUY'` sells**, including misspellings.
- **Registry key collisions.** Registry keys concatenate chain and network with no separator. `"sol" + "anamainnet"` therefore reaches the connector cached for `"solana" + "mainnet"`.
- **`network` field of the responses.** Price and trade responses report `req.chain` in their `network` field.
- **Failures after the estimate.** In `trade`, failures of the swap stage are not re-wrapped. Only failures of the estimate become 500 responses with the price-failed or unknown-error code.
- **Two readers of one amount.** The estimate reads the amount with `parseFloat`; the response formats it with decimal.js-light. An amount such as `"0.1 "`, `" 0.1"` or `"0.1abc"` is 0.1 to the first and an invalid argument to the second. `price` then throws decimal.js-light's plain Error, outside its `try`. `trade` first sends and confirms the swap, then throws that Error, so the caller gets neither a 500 nor the transaction id. See `JupiterTrading.UnreadableAmountThrowsAfterTheSwap` and `PriceExamples.SellTenthWithTrailingSpace`.

## Model

| member | source | states |
|---|---|---|
| Digits.NatToString | src/connectors/jupiter/jupiter.ts:114 | the rendering of an integral `r` is a non-empty digit string whose value is `r`, with no leading zero, and 0 is written "0" |
| Digits.Zeros | src/connectors/jupiter/jupiter.ts:114 | `"0".repeat(n)` is n digits, all '0' |
| Decimals.Decimal.Times10 | src/connectors/jupiter/jupiter.ts:110 | the loop's step multiplies the value by exactly 10 |
| Decimals.IntegralIsFloorFixed | src/connectors/jupiter/jupiter.ts:109 | the loop test on the mantissa holds exactly when `Math.floor(r) === r` on the value |
| Decimals.IntegralAfterShift | src/connectors/jupiter/jupiter.ts:109-111 | after c steps the value is integral iff c is at least the number of significant fraction digits |
| Decimals.RenderFixed | src/connectors/jupiter/jupiter.controllers.ts:135 | the fixed-point text of mantissa q at `places` places parses back to exactly q / 10^places, and a leading '0' is the whole integer part (no "00.5"); at 0 places the text is digits only, otherwise it is non-empty integer digits, '.', then exactly `places` fraction digits (no ".5", no "5.") |
| Decimals.Rescale | src/connectors/jupiter/jupiter.controllers.ts:135 | rescaling to more places keeps the value; rescaling to fewer places rounds half up (both bounds stated) |
| Decimals.ParseDecimal | src/connectors/jupiter/jupiter.controllers.ts:135 | a plain literal is digits with at most one point and starts with a digit or the point; a digit string reads as its own value at scale 0 |
| NumberParsing.TrimStart | src/connectors/jupiter/jupiter.ts:106 | `parseFloat` drops exactly the leading JavaScript white space: what is left starts with something else |
| NumberParsing.DigitRun | src/connectors/jupiter/jupiter.ts:106 | the digit run at the front of a string is all digits and is followed by a non-digit or the end |
| NumberParsing.ApplyExponentValue | src/connectors/jupiter/jupiter.controllers.ts:135 | an exponent part scales the mantissa by exactly that power of ten |
| NumberParsing.ParseFloat | src/connectors/jupiter/jupiter.ts:106 | a number is read only when the trimmed text starts with a digit, a point or '+' |
| NumberParsing.PlusSignIsSkipped | src/connectors/jupiter/jupiter.ts:106 | `parseFloat` reads a '+' followed by a literal exactly as it reads the literal alone, as the literal's value |
| NumberParsing.ParseInt | src/connectors/jupiter/jupiter.ts:118 | a number is read only when the trimmed text starts with a digit, or a sign then a digit, and it is negative exactly when that sign is '-' |
| NumberParsing.DigitPrefixIsRead | src/connectors/jupiter/jupiter.ts:118 | a run of decimal digits not followed by another digit (and not a "0x" prefix) is read as its value, the rest ignored |
| NumberParsing.WholeDigitsAreRead | src/connectors/jupiter/jupiter.ts:118 | a non-empty digit string is read whole as its value |
| NumberParsing.SpaceIsSkipped | src/connectors/jupiter/jupiter.ts:118 | leading JavaScript white space does not change what `parseInt` reads |
| NumberParsing.SignIsRead | src/connectors/jupiter/jupiter.ts:118 | '+' changes nothing and '-' negates what follows, NaN staying NaN |
| NumberParsing.HexPrefixIsRead | src/connectors/jupiter/jupiter.ts:118 | after "0x" or "0X" the longest run of hexadecimal digits is read in base 16 |
| NumberParsing.EmptyHexIsNaN | src/connectors/jupiter/jupiter.ts:118 | "0x" with no hexadecimal digit after it is NaN, not 0 |
| NumberParsing.NewDecimal | src/connectors/jupiter/jupiter.controllers.ts:135 | accepted only when non-empty; the value is negative exactly when the text starts with '-' |
| NumberParsing.PlainLiteralReadsAlike | src/connectors/jupiter/jupiter.controllers.ts:135 | a plain literal reads as the same value to `parseFloat` and to decimal.js-light, and with a leading '-' as its negation to the latter |
| NumberParsing.DecimalJsLiteralsParseAlike | src/connectors/jupiter/jupiter.controllers.ts:135 | every unsigned string decimal.js-light accepts, `parseFloat` reads to the same value |
| NumberParsing.TrailingTextSplitsTheReaders | src/connectors/jupiter/jupiter.controllers.ts:231 | a literal followed by text that cannot extend it is a number to `parseFloat` and an invalid argument to decimal.js-light |
| NumberParsing.LeadingSpaceSplitsTheReaders | src/connectors/jupiter/jupiter.controllers.ts:135 | leading white space is skipped by `parseFloat` and rejected by decimal.js-light |
| NumberParsing.ToFixed | src/connectors/jupiter/jupiter.controllers.ts:135 | `new Decimal(s).toFixed(places)` throws the invalid-argument Error on what the constructor rejects; otherwise its text is exactly an optional '-' (input negative and nonzero) followed by the fixed-point text of the magnitude rounded half up at `places`, and it reads back as that rounded value |
| NumberParsing.ToFixedKeepsValue | src/connectors/jupiter/jupiter.controllers.ts:135 | formatting to at least the amount's own number of places keeps its value exactly, at the requested scale |
| AmountCodec.EncodeAmount | src/connectors/jupiter/jupiter.ts:105-115 | the raw amount is a non-empty string of digits |
| AmountCodec.RawAmount | src/connectors/jupiter/jupiter.ts:105-115 | `getAmount` returns a non-empty digit string exactly when `parseFloat` reads a number, never throws, and otherwise never ends |
| AmountCodec.GetAmount | src/connectors/jupiter/jupiter.ts:105-115 | settles to what `RawAmount` says: the encoding of what `parseFloat` reads, after exactly k loop steps (k = significant fraction digits); on an amount `parseFloat` reads as NaN it never ends |
| AmountCodec.ShiftToRaw | src/connectors/jupiter/jupiter.ts:108-114 | on a parsed amount the loop ends after exactly k steps with the digits of amount·10^k followed by max(decimals − k, 0) zeros |
| AmountCodec.ParseAmount | src/connectors/jupiter/jupiter.ts:117-119 | NaN exactly when `parseInt` reads nothing; otherwise the sign `parseInt` reads and a magnitude of the integer it reads / 10^decimals; a non-empty digit string decodes to integer(raw) / 10^decimals |
| AmountCodec.EncodeAmountValue | src/connectors/jupiter/jupiter.ts:109-114 | the raw amount is amount·10^decimals when k ≤ decimals and amount·10^k (no zeros appended) when k > decimals |
| AmountCodec.RoundTrip | src/connectors/jupiter/jupiter.ts:105-119 | decoding the encoding returns the amount whenever it has at most `decimals` significant fraction digits |
| AmountCodec.OverPreciseAmountIsOverScaled | src/connectors/jupiter/jupiter.ts:109-114 | with k > decimals the decoded raw amount is the amount scaled up by 10^(k − decimals), not truncated |
| JupiterConnector.SlippageOrDefault | src/connectors/jupiter/jupiter.ts:144-146 | the slippage sent is the caller's value, or '50' when it is absent or empty; never empty |
| JupiterConnector.Quotient | src/connectors/jupiter/jupiter.ts:157 | JavaScript's division by a non-negative amount: the quotient times the amount is the dividend; 0 / 0 is NaN and any other dividend over 0 is an infinity of the dividend's sign |
| JupiterConnector.UnitPrice | src/connectors/jupiter/jupiter.ts:153-157 | NaN when the out amount does not decode; otherwise the division above: the price times the requested amount is the decoded (signed) out amount, NaN or a signed infinity for a zero amount |
| JupiterConnector.EstimateTrade | src/connectors/jupiter/jupiter.ts:132-197 | an unreadable amount never settles; otherwise the request input → output, amount in input decimals, default slippage, is sent and its answer passes through priced per unit, failures unchanged |
| JupiterConnector.EstimateBuyTrade | src/connectors/jupiter/jupiter.ts:132-158 | requests quoteToken → baseToken, amount in quoteToken decimals, default slippage; the quote passes through with the price in baseToken units; endpoint failures propagate |
| JupiterConnector.EstimateSellTrade | src/connectors/jupiter/jupiter.ts:172-197 | requests baseToken → quoteToken, amount in baseToken decimals; the quote passes through with the price in quoteToken units |
| JupiterConnector.IndexOfAddress | src/connectors/jupiter/jupiter.ts:84 | the index of the first token with the address, or none iff no token has it |
| JupiterConnector.Jupiter.constructor | src/connectors/jupiter/jupiter.ts:30-42 | a new connector is not ready and has an empty token list |
| JupiterConnector.Jupiter.Create | src/connectors/jupiter/jupiter.ts:36-42 | only 'solana' yields a (fresh, not ready) connector; any other chain throws 'Unsupported chain' |
| JupiterConnector.Jupiter.Init | src/connectors/jupiter/jupiter.ts:44-55 | a chain that is not ready makes it throw the service-uninitialised error with nothing changed; otherwise the token list becomes the chain's and the connector ready; a failing token-list call propagates with nothing changed |
| JupiterConnector.Jupiter.Ready | src/connectors/jupiter/jupiter.ts:87-89 | the getter returns the ready flag; a connector that is not ready holds no tokens |
| JupiterConnector.Jupiter.TokenByAddress | src/connectors/jupiter/jupiter.ts:83-85 | the first listed token with that address, or none iff no token has it |
| JupiterConnector.JupiterRegistry.GetInstance | src/connectors/jupiter/jupiter.ts:91-103 | a cached key returns the identical instance unchanged; a new key creates and caches one connector, or throws and caches nothing |
| JupiterConnector.SameKeySameInstance | src/connectors/jupiter/jupiter.ts:91-103 | a second request with the same chain and network returns the identical connector |
| JupiterConnector.ConcatenatedKeysCollide | src/connectors/jupiter/jupiter.ts:95-102 | after 'solana'+'mainnet', the chain 'sol' with network 'anamainnet' gets the same Solana connector |
| JupiterControllers.GetFullTokenFromSymbol | src/connectors/jupiter/jupiter.controllers.ts:26-44 | the connector's token for the chain's address of the symbol; a miss at either stage throws a 500 with the token-not-supported code and the symbol |
| JupiterControllers.GetTradeInfo | src/connectors/jupiter/jupiter.controllers.ts:46-89 | base resolved before quote (an unsupported base is reported first); the result carries both resolved tokens and the amount unchanged |
| JupiterControllers.BuyRequestsQuoteToBase | src/connectors/jupiter/jupiter.controllers.ts:67-73 | a BUY settles exactly as the buy estimate for quoteToken → baseToken does: its trade with both resolved tokens, or its failure unchanged; the request is in quoteToken decimals |
| JupiterControllers.OtherSidesRequestBaseToQuote | src/connectors/jupiter/jupiter.controllers.ts:74-81 | every side other than 'BUY' settles exactly as the sell estimate for baseToken → quoteToken does, and so exactly as 'SELL' |
| JupiterControllers.Rewrap | src/connectors/jupiter/jupiter.controllers.ts:111-125 | an Error becomes a 500 with the price-failed code and its message inside; anything else a 500 with the unknown-error code |
| JupiterControllers.HandlerFailure | src/connectors/jupiter/jupiter.controllers.ts:111-125 | a thrown failure of the estimate is re-wrapped; one that never settles still never settles |
| JupiterControllers.PriceResponseFor | src/connectors/jupiter/jupiter.controllers.ts:127-143 | addresses, inAmount, outAmount, price and gas price and token passed through, amount exactly the text `toFixed` writes at base decimals, gas limit 0 and cost '0'; an amount decimal.js-light rejects throws its Error |
| JupiterControllers.Price | src/connectors/jupiter/jupiter.controllers.ts:91-144 | an estimate failure is re-wrapped into a 500 of the two codes; after an estimate, an amount decimal.js-light rejects throws its Error unwrapped; nothing else is thrown; a response carries the fields `PriceResponseFor` states, its amount exactly the text `toFixed` writes |
| JupiterControllers.UnsupportedTokenSurfacesAsPriceFailed | src/connectors/jupiter/jupiter.controllers.ts:101-117 | an unlisted token makes `price` throw the price-failed 500 wrapping the token-not-supported message, for the base token first |
| PriceExamples.FifteenIsRead | src/connectors/jupiter/jupiter.ts:118 | `parseInt("15")` is 15 |
| PriceExamples.SpacedAndSignedFifteen | src/connectors/jupiter/jupiter.ts:118 | `parseInt` reads " 15" and "+15" as 15 and "-15" as -15 |
| PriceExamples.HexThirtyOne | src/connectors/jupiter/jupiter.ts:118 | `parseInt("0x1f")` is 31 |
| PriceExamples.SellTenthOfSol | src/connectors/jupiter/jupiter.controllers.ts:129-143 | selling 0.1 SOL for a 15 USDC quote: raw amount 100000000, amount '0.100000000', price 150 |
| PriceExamples.TenthWithTrailingSpace | src/connectors/jupiter/jupiter.controllers.ts:135 | '0.1 ' is 0.1 to `parseFloat` and invalid to decimal.js-light |
| PriceExamples.NegativeTenthParses | src/connectors/jupiter/jupiter.controllers.ts:135 | decimal.js-light reads '-0.1' as minus one tenth |
| PriceExamples.ThousandInExponentForm | src/connectors/jupiter/jupiter.controllers.ts:135 | decimal.js-light reads '1e3' as one thousand |
| PriceExamples.NegativeTenthAtOnePlace | src/connectors/jupiter/jupiter.controllers.ts:135 | '-0.1' formatted to one place is '-0.1': the sign is kept |
| PriceExamples.SellTenthWithTrailingSpace | src/connectors/jupiter/jupiter.controllers.ts:91-144 | pricing a SELL of '0.1 ' SOL estimates and then throws decimal.js-light's invalid-argument Error |
| PriceExamples.BuyTenthOffersTenthOfQuoteToken | src/connectors/jupiter/jupiter.ts:127-149 | a BUY of '0.1' SOL with USDC requests USDC → SOL for the raw amount 100000 (0.1 USDC) at 50 bps |
| JupiterTrading.StripPrice | src/connectors/jupiter/jupiter.controllers.ts:185-186 | the quote sent to the swap endpoint is the estimate's quote without a price |
| JupiterTrading.TradeClone.constructor | src/connectors/jupiter/jupiter.controllers.ts:185 | the clone starts with the estimate's quote and price |
| JupiterTrading.TradeClone.DeletePrice | src/connectors/jupiter/jupiter.controllers.ts:186 | the clone loses its price and keeps its quote |
| JupiterTrading.Environment.GetKeypair | src/connectors/jupiter/jupiter.controllers.ts:188 | the wallet lookup answers as the wallet store does and is recorded |
| JupiterTrading.Environment.PostSwap | src/connectors/jupiter/jupiter.controllers.ts:192-204 | the swap request answers as the endpoint does and is recorded |
| JupiterTrading.VersionedTransaction.Deserialize | src/connectors/jupiter/jupiter.controllers.ts:207-208 | decoding yields a fresh unsigned transaction, or the decoder's failure |
| JupiterTrading.VersionedTransaction.Sign | src/connectors/jupiter/jupiter.controllers.ts:212 | signing adds the wallet's key to the transaction's signers |
| JupiterTrading.Environment.SendRawTransaction | src/connectors/jupiter/jupiter.controllers.ts:216-219 | the send answers as the RPC node does and is recorded with its options |
| JupiterTrading.Environment.ConfirmTransaction | src/connectors/jupiter/jupiter.controllers.ts:220 | awaiting the confirmation answers as the RPC node does and is recorded |
| JupiterTrading.SendAndConfirm | src/connectors/jupiter/jupiter.controllers.ts:215-220 | the send is recorded first; a failed send ends the stage with its failure and no confirmation; the stage returns iff send and confirmation return, and then reports the sent id after awaiting it |
| JupiterTrading.ExecuteSwap | src/connectors/jupiter/jupiter.controllers.ts:185-220 | the wallet is asked first, at most four calls are made, the swap request follows only a returned wallet, and a returned id is the one whose confirmation was awaited last |
| JupiterTrading.TxHash | src/connectors/jupiter/jupiter.controllers.ts:238 | `txid \|\| ''` is the id itself |
| JupiterTrading.TradeResponseFor | src/connectors/jupiter/jupiter.controllers.ts:223-239 | addresses, inAmount, price, gas price and token passed through, amount exactly the text `toFixed` writes at base decimals, txHash the sent id; an amount decimal.js-light rejects throws its Error |
| JupiterTrading.TradeSpec | src/connectors/jupiter/jupiter.controllers.ts:149-240 | no call is made iff the estimate fails; at most four calls; a response's txHash is the id whose confirmation was awaited last |
| JupiterTrading.SendAndConfirmSteps | src/connectors/jupiter/jupiter.controllers.ts:215-220 | result and recorded calls are those of `SendAndConfirm` |
| JupiterTrading.SwapSteps | src/connectors/jupiter/jupiter.controllers.ts:185-220 | clone and strip, wallet, swap request, decode, sign, send, confirm: result and recorded calls are those of `ExecuteSwap` |
| JupiterTrading.Trade | src/connectors/jupiter/jupiter.controllers.ts:149-240 | the handler's result and recorded calls are those of `TradeSpec` |
| JupiterTrading.NoCallAfterAFailure | src/connectors/jupiter/jupiter.controllers.ts:188-220 | no collaborator is called after one failed, and a failed stage ends with exactly that call's failure or the decoder's |
| JupiterTrading.SentTransactionIsSignedByTheWallet | src/connectors/jupiter/jupiter.controllers.ts:212-219 | the only send is the third call; the transaction sent is the swap endpoint's transaction as decoded, carries exactly the wallet's signature and is sent with skipPreflight and 2 retries |
| JupiterTrading.SwapRequestCarriesTheStrippedQuote | src/connectors/jupiter/jupiter.controllers.ts:185-204 | the swap endpoint gets the estimate's quote without price, the wallet's public key and SOL wrapping on |
| JupiterTrading.SwapReportsTheSentTransaction | src/connectors/jupiter/jupiter.controllers.ts:215-220 | the stage succeeds iff every call returns, whatever the confirmation status; it reports the sent id after awaiting its confirmation |
| JupiterTrading.FailedEstimateCallsNothing | src/connectors/jupiter/jupiter.controllers.ts:156-181 | when the estimate fails no collaborator is called and the failure is re-wrapped |
| JupiterTrading.SwapFailureIsNotRewrapped | src/connectors/jupiter/jupiter.controllers.ts:185-220 | a failure after the estimate reaches the caller unchanged |
| JupiterTrading.TradeResponseReportsTheEstimate | src/connectors/jupiter/jupiter.controllers.ts:225-239 | a trade completes iff the swap stage does and decimal.js-light accepts the amount; it reports the estimate's (unstripped) price, its inAmount, the amount exactly as `toFixed` writes it at base decimals, the gas price and token, and the sent id as txHash |
| JupiterTrading.UnreadableAmountThrowsAfterTheSwap | src/connectors/jupiter/jupiter.controllers.ts:185-239 | an amount only `parseFloat` reads is estimated and swapped; after the send and its confirmation the handler throws decimal.js-light's Error |
| RaydiumConnector.Split | src/connectors/raydium/raydium.ts:83 | `split('/')` gives at least one piece, none containing '/' |
| RaydiumConnector.JoinSplit | src/connectors/raydium/raydium.ts:83 | joining the pieces with '/' gives the string back |
| RaydiumConnector.SplitJoin | src/connectors/raydium/raydium.ts:83 | splitting a join of '/'-free pieces gives the pieces back |
| RaydiumConnector.GetAllowedSlippage | src/connectors/raydium/raydium.ts:81-93 | an accepted caller fraction gives its first two '/'-pieces; otherwise the config's percent match; otherwise the malformed-percent error |
| RaydiumConnector.CallerFractionIsSplitAtTheSlash | src/connectors/raydium/raydium.ts:82-85 | an accepted 'n/d' gives numerator n and denominator d |
| RaydiumConnector.ConfigDecidesWithoutCallerFraction | src/connectors/raydium/raydium.ts:86-92 | with no accepted caller fraction the result is the config's, and it throws iff the config value does not match |
| RaydiumConnector.Raydium.constructor | src/connectors/raydium/raydium.ts:21-30 | a new connector holds its chain and the ttl, and is not ready |
| RaydiumConnector.Raydium.Create | src/connectors/raydium/raydium.ts:21-30 | only 'solana' yields a fresh, not ready connector whose ttl is the configured one; any other chain throws 'Unsupported chain' |
| RaydiumConnector.Raydium.Ready | src/connectors/raydium/raydium.ts:71-73 | the getter returns the ready flag; a ready connector sits on a ready chain |
| RaydiumConnector.Raydium.Init | src/connectors/raydium/raydium.ts:43-52 | throws the service-uninitialised error with ready unchanged while the chain is not ready; otherwise becomes ready |
| RaydiumConnector.RaydiumRegistry.GetInstance | src/connectors/raydium/raydium.ts:32-41 | a cached key returns the identical instance; a new key creates and caches one, or throws and caches nothing |
| RaydiumConnector.SameKeySameInstance | src/connectors/raydium/raydium.ts:32-41 | a second request with the same chain and network returns the identical connector, or the same error |

## Left out

- Floating point: `parseFloat`, `Math.floor`, `r * 10` and number-to-string are modelled on exact decimals. Binary rounding, exponent notation for large or small values, and numbers beyond 2^53 are not modelled.
- ParseFloat: a leading '-' and `Infinity` are read as NaN. `getAmount` then never ends, where the code would loop on a negative value to an integer or return `"Infinity"` padded with zeros.
- NewDecimal: decimal.js-light's exponent range is not modelled; every exponent is accepted.
- Solana.TokenBySymbol: the chain client's `getTokenBySymbol` is abstracted to a lookup in its symbol table, with no contract of its own.
- VersionedTransaction.Serialize: web3.js's wire encoding is abstracted to the message and the keys that signed it, with no contract of its own.
- Raydium.Ttl: the getter returns the configured time-to-live; that is stated by `Raydium.Create` and `RaydiumRegistry.GetInstance`, not by a contract of its own.
- UnitPrice: the price is kept as a number. Its conversion to a string (`+ ""`) is not modelled.
- `priceImpactPct` and its logging, the quote URL text, `logger`, `console.log`, `Date.now()`, `timestamp` and `latency` are not modelled.
- The HTTP calls to the quote and swap endpoints, the wallet store, transaction decoding, and the RPC send and confirm are not modelled. They are oracles: a `fetchQuote` function, and the `Oracles` of an `Environment`. A failure of `fetch`/`.json()` or a missing `swapTransaction` field is one of the oracle's `Throws` answers.
- VersionedTransaction.Sign: the check that the wallet is a required signer of the message (which can throw) is not modelled. Signing records the key.
- Error texts: the message prefixes and codes of the gateway's error handler are not part of this model. Messages and codes are structured values.
- Solana: how the chain client loads its token list, symbol table, gas price and readiness is not modelled. `Solana.getInstance(network)` is a given object and its own failures are not modelled.
- The JavaScript `in` operator on a plain object also finds inherited keys such as `"constructor"`. Registries are maps, so such keys are not modelled.
- Raydium `getTokenByAddress` is not modelled: it looks up ethers' `getAddress` checksum in a token list that is never filled.
- Raydium's `Percent` is not modelled: the model records its two constructor arguments. The big-integer parsing that can reject them is not modelled.
- `isFractionString` and `percentRegexp` are not modelled: they are parameters.
- The stubs are not modelled: Jupiter `executeTrade`, and Raydium `estimateSellTrade`, `estimateBuyTrade` and `executeTrade` return nothing of interest. The commented-out `init` is not modelled either.
- src/connectors/raydium/raydium.controller.ts and src/connectors/raydium/raydium.config.ts are not part of this model. The configuration enters as a value.
- Concurrency is not modelled. Concurrent requests interleave only at awaits, and the registries assume one caller at a time.
