/**
 * The Raydium connector skeleton: the same per-(chain, network) registry and
 * ready flag as the Jupiter connector, the swap time-to-live taken from the
 * configuration, and the choice of the allowed slippage.
 *
 * The configuration is the value `RaydiumConfig.config` holds; the validator
 * `isFractionString` and the configuration manager's `percentRegexp` match are
 * not part of this model and are taken as parameters.
 */
module RaydiumConnector {
  import opened Outcomes
  import opened Decimals
  import opened SolanaChain

  /** The configuration fields the connector reads. */
  datatype RaydiumConfig = RaydiumConfig(ttl: int, allowedSlippage: string)

  /** A `Percent` as constructed from its numerator and (possibly missing) denominator strings. */
  datatype Percent = Percent(numerator: string, denominator: Option<string>)

  const MALFORMED_SLIPPAGE := Error(Text("Encountered a malformed percent string in the config for ALLOWED_SLIPPAGE."))

  /** `s.split(sep)` for a one-character separator: the pieces between the separators, in order. */
  function Split(s: string, sep: char): (pieces: seq<string>)
    ensures |pieces| >= 1
    ensures forall i :: 0 <= i < |pieces| ==> sep !in pieces[i]
    ensures sep !in s ==> pieces == [s]
    decreases |s|
  {
    match FirstIndexOf(s, sep)
    case None => [s]
    case Some(i) => [s[..i]] + Split(s[i + 1..], sep)
  }

  /** `pieces.join(sep)` */
  function Join(pieces: seq<string>, sep: char): (s: string)
    requires |pieces| >= 1
    ensures |pieces| == 1 ==> s == pieces[0]
  {
    if |pieces| == 1 then pieces[0] else pieces[0] + [sep] + Join(pieces[1..], sep)
  }

  /** Joining the pieces of a split gives the string back. */
  lemma {:induction false} JoinSplit(s: string, sep: char)
    ensures Join(Split(s, sep), sep) == s
    decreases |s|
  {
    match FirstIndexOf(s, sep)
    case None =>
    case Some(i) =>
      var head, tail := s[..i], s[i + 1..];
      var rest := Split(tail, sep);
      assert Split(s, sep) == [head] + rest;
      JoinCons(head, rest, sep);
      JoinSplit(tail, sep);
      SliceAround(s, i);
  }

  lemma SliceAround(s: string, i: nat)
    requires i < |s|
    ensures s == s[..i] + [s[i]] + s[i + 1..]
  {
    assert s == s[..i] + s[i..];
    assert s[i..] == [s[i]] + s[i + 1..];
  }

  lemma JoinCons(head: string, rest: seq<string>, sep: char)
    requires |rest| >= 1
    ensures Join([head] + rest, sep) == head + [sep] + Join(rest, sep)
  {
    assert ([head] + rest)[0] == head && ([head] + rest)[1..] == rest;
  }

  /** Splitting a join of separator-free pieces gives the pieces back. */
  lemma {:induction false} SplitJoin(pieces: seq<string>, sep: char)
    requires |pieces| >= 1
    requires forall i :: 0 <= i < |pieces| ==> sep !in pieces[i]
    ensures Split(Join(pieces, sep), sep) == pieces
    decreases |pieces|
  {
    if |pieces| > 1 {
      var s := Join(pieces, sep);
      var head := pieces[0];
      assert pieces == [head] + pieces[1..];
      JoinCons(head, pieces[1..], sep);
      assert s == head + [sep] + Join(pieces[1..], sep);
      assert s[|head|] == sep;
      forall j | 0 <= j < |head| ensures s[j] != sep {
        assert s[j] == head[j];
      }
      FirstIndexIsUnique(s, sep, |head|);
      assert s[..|head|] == head;
      assert s[|head| + 1..] == Join(pieces[1..], sep);
      SplitJoin(pieces[1..], sep);
      assert Split(s, sep) == [head] + pieces[1..];
    }
  }

  /**
   * `getAllowedSlippage(allowedSlippageStr)`: a caller value that the validator
   * accepts as a fraction is split on '/'; otherwise the configured value, matched
   * by the percent pattern, gives numerator and denominator; otherwise it throws.
   */
  function GetAllowedSlippage(
    allowedSlippageStr: Option<string>, config: RaydiumConfig,
    isFractionString: string -> bool, percentMatch: string -> Option<(string, string)>): (r: Completion<Percent>)
    ensures allowedSlippageStr.Some? && isFractionString(allowedSlippageStr.value) ==>
      var pieces := Split(allowedSlippageStr.value, '/');
      && r.Returns?
      && r.value.numerator == pieces[0]
      && r.value.denominator == (if |pieces| > 1 then Some(pieces[1]) else None)
    ensures !(allowedSlippageStr.Some? && isFractionString(allowedSlippageStr.value)) ==>
      match percentMatch(config.allowedSlippage)
      case Some(nd) => r == Returns(Percent(nd.0, Some(nd.1)))
      case None => r == Throws(MALFORMED_SLIPPAGE)
  {
    if allowedSlippageStr.Some? && isFractionString(allowedSlippageStr.value) then
      var fractionSplit := Split(allowedSlippageStr.value, '/');
      Returns(Percent(fractionSplit[0], if |fractionSplit| > 1 then Some(fractionSplit[1]) else None))
    else
      match percentMatch(config.allowedSlippage)
      case Some(nd) => Returns(Percent(nd.0, Some(nd.1)))
      case None => Throws(MALFORMED_SLIPPAGE)
  }

  /** A caller fraction with a single '/' is taken as numerator and denominator around it, neither containing '/'. */
  lemma CallerFractionIsSplitAtTheSlash(
    numerator: string, denominator: string, config: RaydiumConfig,
    isFractionString: string -> bool, percentMatch: string -> Option<(string, string)>)
    requires '/' !in numerator && '/' !in denominator
    requires isFractionString(numerator + "/" + denominator)
    ensures GetAllowedSlippage(Some(numerator + "/" + denominator), config, isFractionString, percentMatch)
      == Returns(Percent(numerator, Some(denominator)))
  {
    SplitJoin([numerator, denominator], '/');
    assert Join([numerator, denominator], '/') == numerator + "/" + denominator;
  }

  /** The configured slippage is used, and nothing else decides, whenever the caller gives no fraction. */
  lemma ConfigDecidesWithoutCallerFraction(
    allowedSlippageStr: Option<string>, config: RaydiumConfig,
    isFractionString: string -> bool, percentMatch: string -> Option<(string, string)>)
    requires allowedSlippageStr.None? || !isFractionString(allowedSlippageStr.value)
    ensures GetAllowedSlippage(allowedSlippageStr, config, isFractionString, percentMatch)
      == GetAllowedSlippage(None, config, isFractionString, percentMatch)
    ensures GetAllowedSlippage(allowedSlippageStr, config, isFractionString, percentMatch).Throws? <==>
      percentMatch(config.allowedSlippage).None?
  {
  }

  class Raydium {
    const chain: Solana
    /** `_ttl`: the configured time-to-live, captured at construction. */
    const ttl: int
    var ready: bool

    /** The connector is ready only once `init` has found its chain ready. */
    ghost predicate Valid()
      reads this, chain
    {
      ready ==> chain.isReady
    }

    /** The private constructor once the chain name has been accepted. */
    constructor (chain: Solana, ttl: int)
      ensures this.chain == chain && this.ttl == ttl && !ready && Valid()
    {
      this.chain := chain;
      this.ttl := ttl;
      ready := false;
    }

    /**
     * `new Raydium(chain, network)`: only 'solana' is accepted. `solana` stands for
     * `Solana.getInstance(network)`.
     */
    static method Create(chainName: string, network: string, solana: Solana, config: RaydiumConfig)
      returns (r: Completion<Raydium>)
      ensures chainName == "solana" ==>
        r.Returns? && fresh(r.value) && r.value.chain == solana && r.value.Ttl() == config.ttl && !r.value.Ready()
      ensures chainName != "solana" ==> r == Throws(UNSUPPORTED_CHAIN)
    {
      if chainName == "solana" {
        var raydium := new Raydium(solana, config.ttl);
        r := Returns(raydium);
      } else {
        r := Throws(UNSUPPORTED_CHAIN);
      }
    }

    /** `init()`: fails without any change while the chain is not ready; otherwise becomes ready. */
    method Init() returns (r: Completion<()>)
      modifies this
      ensures old(Valid()) ==> Valid()
      ensures !chain.isReady ==>
        r == Throws(InitializationError(ServiceUninitialized(chain.displayName), ServiceUninitializedCode))
        && ready == old(ready)
      ensures chain.isReady ==> r == Returns(()) && ready
    {
      if !chain.Ready() {
        return Throws(InitializationError(ServiceUninitialized(chain.displayName), ServiceUninitializedCode));
      }
      ready := true;
      r := Returns(());
    }

    /** `ready()`: whether `init` has succeeded; a ready connector sits on a ready chain. */
    function Ready(): (r: bool)
      reads this, chain
      ensures Valid() && r ==> chain.isReady
    {
      ready
    }

    /** The `ttl` getter. */
    function Ttl(): int {
      ttl
    }
  }

  /** `Raydium._instances` with `getInstance`: one connector per key `chain + network`, made on first demand. */
  class RaydiumRegistry {
    var instances: map<string, Raydium>

    constructor ()
      ensures instances == map[]
    {
      instances := map[];
    }

    method GetInstance(chainName: string, network: string, solana: Solana, config: RaydiumConfig)
      returns (r: Completion<Raydium>)
      modifies this
      ensures var key := chainName + network;
        key in old(instances) ==> r == Returns(old(instances)[key]) && instances == old(instances)
      ensures var key := chainName + network;
        key !in old(instances) && chainName == "solana" ==>
          r.Returns? && fresh(r.value) && r.value.chain == solana && r.value.Ttl() == config.ttl && !r.value.Ready()
          && instances == old(instances)[key := r.value]
      ensures var key := chainName + network;
        key !in old(instances) && chainName != "solana" ==>
          r == Throws(UNSUPPORTED_CHAIN) && instances == old(instances)
    {
      var key := chainName + network;
      if key !in instances {
        var created := Raydium.Create(chainName, network, solana, config);
        if created.Throws? {
          return Throws(created.thrown);
        }
        instances := instances[key := created.value];
      }
      r := Returns(instances[key]);
    }
  }

  /** Asking twice with the same chain and network yields the identical connector. */
  method SameKeySameInstance(registry: RaydiumRegistry, chainName: string, network: string, solana: Solana, config: RaydiumConfig)
    returns (first: Completion<Raydium>, second: Completion<Raydium>)
    modifies registry
    ensures first.Returns? ==> second == first
    ensures first.Throws? ==> second == first
  {
    first := registry.GetInstance(chainName, network, solana, config);
    second := registry.GetInstance(chainName, network, solana, config);
  }
}
