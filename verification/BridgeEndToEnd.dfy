/** The bridge from the wallet's form to the mint: the relayer's runs (bridge-relayer/src/relayer.ts) over a
    chain that is what `verifyBridgeDeposit` (bridge-relayer/src/quantos.ts) reads from the node, with
    calldata built by the wallet (quantos-wallet-server/src/routes.rs). */
module BridgeEndToEnd {
  import opened Bytes
  import Text
  import opened Hexadecimal
  import opened BridgeCalldata
  import R = Relayer
  import T = TokenAmount

  const TOKEN_DECIMALS: nat := 18

  /** What the Quantos node holds for a transaction hash. */
  type Node = Hash32 -> (Option<Receipt>, Option<Transaction>)

  function Read(node: Node, config: Config, tx: Hash32): Verdict {
    VerifyBridgeDeposit(node(tx).0, node(tx).1, config)
  }

  /** The deposits the relayer sees; an address is the number its twenty bytes write. */
  function ChainOf(node: Node, config: Config): R.Chain {
    (tx: Hash32) =>
      match Read(node, config, tx)
      case Rejected(_) => None
      case TokenTransfer(amount) => Some(R.Deposit(amount, None))
      case VaultDeposit(amount, recipient) => Some(R.Deposit(amount, Some(FromBE(EvmAddress(recipient)))))
  }

  /** Over every run every mint is for a transaction that succeeded, and is what its calldata says: the amount always,
      the address whenever the transaction is a vault deposit. */
  lemma EveryMintIsRead(node: Node, config: Config, maxRetries: nat, steps: seq<R.Step>, i: nat)
    requires R.ValidRun(ChainOf(node, config), maxRetries, steps)
    requires i < |R.Exec(ChainOf(node, config), maxRetries, steps).gateway.minted|
    ensures var m := R.Exec(ChainOf(node, config), maxRetries, steps).gateway.minted[i];
            && R.TxOf(m).Some? && var v := Read(node, config, R.TxOf(m).value);
            && Confirmed(node(R.TxOf(m).value).0, node(R.TxOf(m).value).1)
            && !v.Rejected? && v.amount == m.amount > 0
            && (v.VaultDeposit? ==> m.recipient == FromBE(EvmAddress(v.baseRecipient)))
  {
    R.BridgeSafety(ChainOf(node, config), maxRetries, steps);
    var tx := R.TxOf(R.Exec(ChainOf(node, config), maxRetries, steps).gateway.minted[i]).value;
    AcceptedIff(node(tx).0, node(tx).1, config);
  }

  /** The node holds the deposit that the wallet makes of the address and amount typed. */
  ghost predicate MadeBy(node: Node, config: Config, hash: Hash32, typedAddress: string, address: seq<byte>,
                         typedAmount: string) {
    && |address| == 20 && HexDecode(Cleaned(typedAddress)) == Some(address)
    && T.ParseTokenAmount(typedAmount, TOKEN_DECIMALS).Ok?
    && var (receipt, tx) := node(hash);
       && receipt.Some? && receipt.value.status == "QTS:1" && tx.Some?
       && Text.Lower(tx.value.to) == Text.Lower(config.bridgeVault)
       && IsInputFor(tx.value.input, Calldata(DEPOSIT_SELECTOR, Bytes32(address).value,
                                              T.ParseTokenAmount(typedAmount, TOKEN_DECIMALS).amount))
  }

  lemma TokensFit()
    ensures T.Pow10(TOKEN_DECIMALS) <= U128_MAX
  {
    assert T.Pow10(4) == 10_000 && T.Pow10(8) == 100_000_000 && T.Pow10(12) == 1_000_000_000_000;
    assert T.Pow10(16) == 10_000_000_000_000_000;
  }

  lemma ParsedFits(s: string, decimals: nat)
    ensures T.ParseTokenAmount(s, decimals).Ok? ==> T.ParseTokenAmount(s, decimals).amount <= U128_MAX
  {
  }

  /** Over every run, with any number of relayers, crashes, retries and spellings: a mint for a deposit made in the
      wallet goes to the address typed, for the amount typed, in units of the last of eighteen places, and
      there is no other mint for that transaction. */
  lemma MintIsWhatWasTyped(node: Node, config: Config, maxRetries: nat, steps: seq<R.Step>, i: nat, hash: Hash32,
                           typedAddress: string, address: seq<byte>, typedAmount: string)
    requires R.ValidRun(ChainOf(node, config), maxRetries, steps)
    requires i < |R.Exec(ChainOf(node, config), maxRetries, steps).gateway.minted|
    requires R.TxOf(R.Exec(ChainOf(node, config), maxRetries, steps).gateway.minted[i]) == Some(hash)
    requires MadeBy(node, config, hash, typedAddress, address, typedAmount)
    ensures var minted := R.Exec(ChainOf(node, config), maxRetries, steps).gateway.minted;
            && BE(minted[i].recipient, 20) == address && address != Zeros(20)
            && T.Ok(minted[i].amount) == T.ParseTokenAmount(typedAmount, TOKEN_DECIMALS)
            && (forall n: nat :: T.Writes(typedAmount, TOKEN_DECIMALS, n) ==> minted[i].amount == n)
            && (forall j :: 0 <= j < |minted| && j != i ==> R.TxOf(minted[j]) != Some(hash))
  {
    var amount := T.ParseTokenAmount(typedAmount, TOKEN_DECIMALS).amount;
    ParsedFits(typedAmount, TOKEN_DECIMALS);
    var (receipt, tx) := node(hash);
    AddressArrives(receipt.value, tx.value, config, typedAddress, address, amount);
    EveryMintIsRead(node, config, maxRetries, steps, i);
    BEOfFromBE(address);
    TokensFit();
    forall n: nat | T.Writes(typedAmount, TOKEN_DECIMALS, n) ensures amount == n {
      T.WrittenIsParsed(typedAmount, TOKEN_DECIMALS, n);
    }
    R.BridgeSafety(ChainOf(node, config), maxRetries, steps);
  }
}
