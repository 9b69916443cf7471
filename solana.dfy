/**
 * The Solana chain client, seen only through the calls the connectors make on it.
 * Each field stands for what the corresponding call currently answers; how the
 * client computes it is not part of this model.
 */
module SolanaChain {
  import opened Outcomes

  /** A token of the chain's token list (the fields the connectors read). */
  datatype TokenInfo = TokenInfo(address: string, symbol: string, name: string, decimals: nat)

  class Solana {
    const network: string
    /** `chain.toString()`, used to name the chain in the uninitialised-service message. */
    const displayName: string
    const nativeTokenSymbol: string
    /** `ready()` */
    var isReady: bool
    /** the settlement of `await getTokenList()` */
    var tokenListResponse: Completion<seq<TokenInfo>>
    /** the table behind `getTokenBySymbol(symbol)` */
    var symbolTable: map<string, TokenInfo>
    /** `gasPrice` */
    var gasPrice: real

    constructor (network: string, displayName: string, nativeTokenSymbol: string)
      ensures this.network == network && this.displayName == displayName
      ensures this.nativeTokenSymbol == nativeTokenSymbol
      ensures !isReady && symbolTable == map[]
    {
      this.network := network;
      this.displayName := displayName;
      this.nativeTokenSymbol := nativeTokenSymbol;
      isReady := false;
      tokenListResponse := Hangs;
      symbolTable := map[];
      gasPrice := 0.0;
    }

    function Ready(): bool
      reads this
    {
      isReady
    }

    /** `getTokenBySymbol(symbol)`: the token the chain lists under that symbol, if any. */
    function TokenBySymbol(symbol: string): Option<TokenInfo>
      reads this
    {
      if symbol in symbolTable then Some(symbolTable[symbol]) else None
    }
  }
}
