/** The bridge relayer (bridge-relayer/src/relayer.ts, db.ts, base.ts) against the gateway contract it
    mints on (base-bridge/contracts/BaseBridgeGateway.sol).  Any number of relayer processes run
    concurrently; each takes one step per awaited call.  Any call may throw, any process may crash and
    start again, Quantos and Base calls may fail, and a sent mint may be executed late, early, or never. */
module Relayer {
  import opened Bytes
  import opened Text
  import opened Hexadecimal

  // ------------------------------------------------------------------ deposit identifiers

  /** The hash without "QTS:" and "0x". */
  function Raw(txHash: string): string {
    StripAnyCase(StripPrefix(txHash, "QTS:"), "0x")
  }

  /** Zero-filled on the left or cut on the right to 64 digits; the contract reads digits of either case. */
  function DepositId(txHash: string): (id: string)
    ensures |id| == 64
  {
    var raw := Raw(txHash);
    Lower(if |raw| < 64 then Fill(64 - |raw|) + raw else raw[..64])
  }

  predicate Canonical(txHash: string) {
    |Raw(txHash)| == 64 && Lower(Raw(txHash)) == Raw(txHash)
  }

  /** Hashes of up to 64 digits share an identifier exactly when they spell the same digits up to case
      and leading zeros. */
  lemma SameDepositIdIff(a: string, b: string)
    requires |Raw(a)| <= |Raw(b)| <= 64
    ensures DepositId(a) == DepositId(b) <==> Lower(Raw(b)) == Fill(|Raw(b)| - |Raw(a)|) + Lower(Raw(a))
  {
    var x, y := Lower(Raw(a)), Lower(Raw(b));
    assert DepositId(a) == Fill(64 - |x|) + x by { IdIsFilled(a); }
    assert DepositId(b) == Fill(64 - |y|) + y by { IdIsFilled(b); }
    FilledEqualIff(x, y);
  }

  /** Canonical hashes share one only if they are the same hash. */
  lemma CanonicalIdsDiffer(a: string, b: string)
    requires Canonical(a) && Canonical(b)
    ensures DepositId(a) == DepositId(b) <==> Raw(a) == Raw(b)
  {
    SameDepositIdIff(a, b);
    assert Fill(0) + Raw(a) == Raw(a);
  }

  lemma FilledEqualIff(x: string, y: string)
    requires |x| <= |y| <= 64
    ensures Fill(64 - |x|) + x == Fill(64 - |y|) + y <==> y == Fill(|y| - |x|) + x
  {
    var d := |y| - |x|;
    FillTwice(64 - |y|, d, x);
    if Fill(64 - |x|) + x == Fill(64 - |y|) + y {
      SplitEqual(Fill(64 - |y|), Fill(d) + x, Fill(64 - |y|), y);
    }
  }

  lemma IdIsFilled(a: string)
    requires |Raw(a)| <= 64
    ensures DepositId(a) == Fill(64 - |Raw(a)|) + Lower(Raw(a))
  {
  }

  lemma FillTwice(m: nat, n: nat, s: string)
    ensures Fill(m + n) + s == Fill(m) + (Fill(n) + s)
  {
  }

  /** For a text that the node resolves, the identifier is hex unless the prefix is in lower case; one that is
      not hex cannot be encoded for the gateway. */
  lemma IdIsHexIff(s: string)
    requires NodeHash(s).Some?
    ensures HexText(DepositId(s)) <==> !("qts:" <= s)
  {
    DecodesIff(Cleaned(s));
    if "qts:" <= s {
      LowerPrefixIsNotHex(s);
    } else {
      RawOfResolved(s);
      LowerIsHex(Cleaned(s));
    }
  }

  /** And then it is the transaction hash. */
  lemma IdOfResolved(s: string)
    requires NodeHash(s).Some? && HexText(DepositId(s))
    ensures DepositId(s) == Hex(NodeHash(s).value)
  {
    IdIsHexIff(s);
    DecodesIff(Cleaned(s));
    HexOfDecoded(Cleaned(s));
    RawOfResolved(s);
  }

  lemma LowerIsHex(x: string)
    requires HexText(x)
    ensures HexText(Lower(x))
  {
    forall i | 0 <= i < |x| ensures HexValue(Lower(x)[i]).Some? {
      assert HexValue(x[i]).Some?;
    }
  }

  lemma RawOfResolved(s: string)
    requires HexText(Cleaned(s)) && |Cleaned(s)| == 64 && !("qts:" <= s)
    ensures Raw(s) == Cleaned(s) && DepositId(s) == Lower(Cleaned(s))
  {
    var x := Cleaned(s);
    NoPrefixInText(x);
    if "QTS:" <= s {
      assert StripPrefix(s, "QTS:") == x;
    } else if "0x" <= s {
      assert s[..2] == "0x" && s[2..] == x;
    }
    assert x[..64] == x;
  }

  lemma LowerPrefixIsNotHex(s: string)
    requires "qts:" <= s && |s| == 68
    ensures !HexText(DepositId(s))
  {
    assert s[0] == 'q';
    assert Lower(s[..2])[0] == 'q' && Lower("0x")[0] == '0';
    assert Raw(s) == s;
    assert DepositId(s)[0] == 'q';
  }

  /** Two texts of transactions that can reach the gateway share an identifier exactly when they are texts of
      one transaction. */
  lemma SameIdIffSameTransaction(a: string, b: string)
    requires NodeHash(a).Some? && HexText(DepositId(a)) && NodeHash(b).Some? && HexText(DepositId(b))
    ensures DepositId(a) == DepositId(b) <==> NodeHash(a) == NodeHash(b)
  {
    IdOfResolved(a);
    IdOfResolved(b);
    if DepositId(a) == DepositId(b) { HexInjective(NodeHash(a).value, NodeHash(b).value); }
  }

  // ------------------------------------------------------------------ state

  datatype Status = Pending | QuantosConfirmed | Relaying | Completed | Failed

  datatype Row = Row(txHash: string, recipient: nat, sender: nat, status: Status, retries: nat)

  /** What the Quantos chain holds for a transaction that is a valid bridge deposit. */
  datatype Deposit = Deposit(amount: nat, recipient: Option<nat>)

  type Chain = Hash32 -> Option<Deposit>

  /** The deposit the node finds for the text of a transaction hash. */
  function Lookup(chain: Chain, txHash: string): Option<Deposit> {
    if NodeHash(txHash).Some? then chain(NodeHash(txHash).value) else None
  }

  /** The arguments of `mintFromQuantos`; `txHash` records which hash they were built from. */
  datatype Mint = Mint(id: string, sender: nat, recipient: nat, amount: nat, txHash: string)

  datatype TxStatus = Waiting | Succeeded | Reverted

  datatype BaseTx = BaseTx(mint: Mint, status: TxStatus)

  /** `minted` lists the QuantosDepositMinted events. */
  datatype Gateway = Gateway(processed: set<string>, minted: seq<Mint>, paused: bool, relayerAllowed: bool)

  /** Where one relayer process is.  `row` and `retries` are the values it read when it polled. */
  datatype Proc =
    | Idle
    | Queue(todo: seq<(nat, Row)>)
    | Marked(id: nat, row: Row, todo: seq<(nat, Row)>)
    | Verified(id: nat, row: Row, deposit: Deposit, todo: seq<(nat, Row)>)
    | Unprocessed(id: nat, row: Row, deposit: Deposit, todo: seq<(nat, Row)>)
    | Sent(id: nat, row: Row, tx: nat, todo: seq<(nat, Row)>)
    | Finishing(id: nat, row: Row, status: Status, todo: seq<(nat, Row)>)
    | Catching(id: nat, row: Row, todo: seq<(nat, Row)>)

  datatype World = World(rows: map<nat, Row>, gateway: Gateway, sent: seq<BaseTx>, procs: map<nat, Proc>)

  function Init(): World {
    World(map[], Gateway({}, [], false, true), [], map[])
  }

  // ------------------------------------------------------------------ the gateway

  predicate Mintable(g: Gateway, m: Mint) {
    && g.relayerAllowed && !g.paused
    && m.id != Fill(64) && m.recipient != 0 && m.sender != 0 && m.amount != 0
    && m.id !in g.processed
  }

  function ExecuteMint(g: Gateway, m: Mint): Gateway {
    if Mintable(g, m) then g.(processed := g.processed + {m.id}, minted := g.minted + [m]) else g
  }

  /** The gateway mints exactly for its relayer, while not paused, for an identifier that is not zero and new, to a
      recipient, from a sender and of an amount that are not zero; anything else changes nothing. */
  lemma MintedIff(g: Gateway, m: Mint)
    requires |m.id| == 64
    ensures var minted := && g.relayerAllowed && !g.paused && (exists i :: 0 <= i < 64 && m.id[i] != '0')
                          && m.recipient > 0 && m.sender > 0 && m.amount > 0 && m.id !in g.processed;
            ExecuteMint(g, m) == if minted then g.(processed := g.processed + {m.id}, minted := g.minted + [m]) else g
  {
    assert m.id == Fill(64) <==> forall i :: 0 <= i < 64 ==> m.id[i] == '0';
  }

  // ------------------------------------------------------------------ steps

  datatype Step =
    | InsertRow(id: nat, txHash: string, recipient: nat, sender: nat, confirmed: bool)
    | Poll(p: nat, ids: seq<nat>)          // fetch pending and stuck rows
    | Begin(p: nat)                        // mark the next row "relaying"
    | Verify(p: nat, found: bool)          // verifyBridgeDeposit; a failed lookup reads as invalid
    | Check(p: nat, reached: bool)         // isDepositProcessed; a failed call reads as "no"
    | Send(p: nat)                         // mintFromQuantos; throws for an identifier that is not hex
    | Confirm(p: nat)                      // the receipt arrives
    | Finish(p: nat)                       // write the final status
    | Throw(p: nat)                        // the awaited call throws
    | Catch(p: nat)                        // the catch block of pollAndProcess
    | Crash(p: nat)                        // the process stops, or the poll cycle is abandoned
    | Execute(tx: nat)                     // Base executes a sent mint
    | Govern(paused: bool, relayerAllowed: bool)

  function ProcOf(w: World, p: nat): Proc {
    if p in w.procs then w.procs[p] else Idle
  }

  function At(w: World, p: nat, proc: Proc): World {
    w.(procs := w.procs[p := proc])
  }

  predicate Retryable(row: Row, maxRetries: nat) {
    (row.status.Pending? || row.status.QuantosConfirmed? || row.status.Relaying?) && row.retries < maxRetries
  }

  function SetStatus(w: World, id: nat, status: Status): World {
    if id in w.rows then w.(rows := w.rows[id := w.rows[id].(status := status)]) else w
  }

  function RecipientFor(row: Row, d: Deposit): nat {
    if d.recipient.Some? then d.recipient.value else row.recipient
  }

  function Next(todo: seq<(nat, Row)>): Proc {
    if todo == [] then Idle else Queue(todo)
  }

  function ReadRows(w: World, ids: seq<nat>): seq<(nat, Row)>
    requires forall i :: 0 <= i < |ids| ==> ids[i] in w.rows
  {
    seq(|ids|, i requires 0 <= i < |ids| => (ids[i], w.rows[ids[i]]))
  }

  predicate Enabled(chain: Chain, maxRetries: nat, w: World, step: Step) {
    match step
    case InsertRow(id, _, _, _, _) => id !in w.rows
    case Poll(p, ids) => ProcOf(w, p).Idle? &&
                         forall i :: 0 <= i < |ids| ==> ids[i] in w.rows && Retryable(w.rows[ids[i]], maxRetries)
    case Begin(p) => ProcOf(w, p).Queue? && ProcOf(w, p).todo != []
    case Verify(p, found) => ProcOf(w, p).Marked? && (found ==> Lookup(chain, ProcOf(w, p).row.txHash).Some?)
    case Check(p, _) => ProcOf(w, p).Verified?
    case Send(p) => ProcOf(w, p).Unprocessed? && HexText(DepositId(ProcOf(w, p).row.txHash))
    case Confirm(p) => ProcOf(w, p).Sent? && ProcOf(w, p).tx < |w.sent| && !w.sent[ProcOf(w, p).tx].status.Waiting?
    case Finish(p) => ProcOf(w, p).Finishing?
    case Throw(p) => !ProcOf(w, p).Idle? && !ProcOf(w, p).Queue? && !ProcOf(w, p).Catching?
    case Catch(p) => ProcOf(w, p).Catching?
    case Crash(_) => true
    case Execute(tx) => tx < |w.sent| && w.sent[tx].status.Waiting?
    case Govern(_, _) => true
  }

  function Apply(chain: Chain, maxRetries: nat, w: World, step: Step): World
    requires Enabled(chain, maxRetries, w, step)
  {
    match step
    case InsertRow(id, txHash, recipient, sender, confirmed) =>
      w.(rows := w.rows[id := Row(txHash, recipient, sender, if confirmed then QuantosConfirmed else Pending, 0)])
    case Poll(p, ids) => At(w, p, Next(ReadRows(w, ids)))
    case Begin(p) =>
      var (id, row) := ProcOf(w, p).todo[0];
      At(SetStatus(w, id, Relaying), p, Marked(id, row, ProcOf(w, p).todo[1..]))
    case Verify(p, found) =>
      var pr := ProcOf(w, p);
      At(w, p, if found then Verified(pr.id, pr.row, Lookup(chain, pr.row.txHash).value, pr.todo)
               else Finishing(pr.id, pr.row, Failed, pr.todo))
    case Check(p, reached) =>
      var pr := ProcOf(w, p);
      At(w, p, if reached && DepositId(pr.row.txHash) in w.gateway.processed
               then Finishing(pr.id, pr.row, Completed, pr.todo)
               else if pr.deposit.amount == 0 then Finishing(pr.id, pr.row, Failed, pr.todo)
               else Unprocessed(pr.id, pr.row, pr.deposit, pr.todo))
    case Send(p) =>
      var pr := ProcOf(w, p);
      var mint := Mint(DepositId(pr.row.txHash), pr.row.sender, RecipientFor(pr.row, pr.deposit),
                       pr.deposit.amount, pr.row.txHash);
      At(w.(sent := w.sent + [BaseTx(mint, Waiting)]), p, Sent(pr.id, pr.row, |w.sent|, pr.todo))
    case Confirm(p) =>
      var pr := ProcOf(w, p);
      At(w, p, if w.sent[pr.tx].status.Succeeded? then Finishing(pr.id, pr.row, Completed, pr.todo)
               else Catching(pr.id, pr.row, pr.todo))
    case Finish(p) =>
      var pr := ProcOf(w, p);
      At(SetStatus(w, pr.id, pr.status), p, Next(pr.todo))
    case Throw(p) => At(w, p, Catching(ProcOf(w, p).id, ProcOf(w, p).row, ProcOf(w, p).todo))
    case Catch(p) =>
      var pr := ProcOf(w, p);
      var retries := pr.row.retries + 1;
      var w' := SetStatus(w, pr.id, if retries >= maxRetries then Failed else Pending);
      At(if pr.id in w'.rows then w'.(rows := w'.rows[pr.id := w'.rows[pr.id].(retries := retries)]) else w',
         p, Next(pr.todo))
    case Crash(p) => At(w, p, Idle)
    case Execute(tx) =>
      var m := w.sent[tx].mint;
      w.(gateway := ExecuteMint(w.gateway, m),
         sent := w.sent[tx := BaseTx(m, if Mintable(w.gateway, m) then Succeeded else Reverted)])
    case Govern(paused, allowed) => w.(gateway := w.gateway.(paused := paused, relayerAllowed := allowed))
  }

  predicate ValidRun(chain: Chain, maxRetries: nat, steps: seq<Step>)
    decreases |steps|, 0
  {
    steps == [] ||
    (ValidRun(chain, maxRetries, steps[..|steps| - 1]) &&
     Enabled(chain, maxRetries, Exec(chain, maxRetries, steps[..|steps| - 1]), steps[|steps| - 1]))
  }

  function Exec(chain: Chain, maxRetries: nat, steps: seq<Step>): World
    requires ValidRun(chain, maxRetries, steps)
    decreases |steps|, 1
  {
    if steps == [] then Init()
    else Apply(chain, maxRetries, Exec(chain, maxRetries, steps[..|steps| - 1]), steps[|steps| - 1])
  }

  // ------------------------------------------------------------------ what every run keeps

  /** A mint built from a real deposit: its own identifier, its own amount, the on-chain recipient if
      the deposit names one. */
  ghost predicate Genuine(chain: Chain, m: Mint) {
    && m.id == DepositId(m.txHash) && HexText(m.id)
    && var d := Lookup(chain, m.txHash);
       && d.Some? && m.amount == d.value.amount
       && (d.value.recipient.Some? ==> m.recipient == d.value.recipient.value)
  }

  function Ids(mints: seq<Mint>): set<string> {
    set i | 0 <= i < |mints| :: mints[i].id
  }

  lemma IdsSnoc(mints: seq<Mint>, m: Mint)
    ensures Ids(mints + [m]) == Ids(mints) + {m.id}
  {
    var all := mints + [m];
    forall id | id in Ids(mints) ensures id in Ids(all) {
      var i :| 0 <= i < |mints| && mints[i].id == id;
      assert all[i].id == id;
    }
    assert all[|mints|].id == m.id;
  }

  ghost predicate GatewayInv(chain: Chain, g: Gateway) {
    && (forall i, j :: 0 <= i < j < |g.minted| ==> g.minted[i].id != g.minted[j].id)
    && (forall i :: 0 <= i < |g.minted| ==> Genuine(chain, g.minted[i]) && g.minted[i].amount > 0)
    && g.processed == Ids(g.minted)
  }

  ghost predicate SentInv(chain: Chain, w: World) {
    forall k :: 0 <= k < |w.sent| ==>
      Genuine(chain, w.sent[k].mint) && (w.sent[k].status.Succeeded? ==> w.sent[k].mint.id in w.gateway.processed)
  }

  /** The text is of a deposit, and its identifier has been processed. */
  ghost predicate Settled(chain: Chain, w: World, txHash: string) {
    Lookup(chain, txHash).Some? && DepositId(txHash) in w.gateway.processed
  }

  ghost predicate RowInv(chain: Chain, maxRetries: nat, w: World) {
    forall id :: id in w.rows ==>
      && (w.rows[id].status.Completed? ==> Settled(chain, w, w.rows[id].txHash))
      && (w.rows[id].retries <= maxRetries || w.rows[id].retries == 0)
  }

  /** Hash, recipient and sender are written once. */
  predicate SameDeposit(a: Row, b: Row) {
    a.txHash == b.txHash && a.recipient == b.recipient && a.sender == b.sender
  }

  /** A row a process is working on is for the deposit it was for when it was read, and was below the limit. */
  ghost predicate ReadOk(maxRetries: nat, w: World, id: nat, row: Row) {
    id in w.rows && SameDeposit(w.rows[id], row) && row.retries < maxRetries
  }

  ghost predicate TodoOk(maxRetries: nat, w: World, todo: seq<(nat, Row)>) {
    forall i :: 0 <= i < |todo| ==> ReadOk(maxRetries, w, todo[i].0, todo[i].1)
  }

  ghost predicate ProcOk(chain: Chain, maxRetries: nat, w: World, pr: Proc) {
    pr.Idle? ||
    (&& TodoOk(maxRetries, w, pr.todo)
     && (!pr.Queue? ==> ReadOk(maxRetries, w, pr.id, pr.row))
     && (pr.Verified? || pr.Unprocessed? ==> Lookup(chain, pr.row.txHash) == Some(pr.deposit))
     && (pr.Sent? ==> pr.tx < |w.sent| && w.sent[pr.tx].mint.id == DepositId(pr.row.txHash)
                      && Lookup(chain, pr.row.txHash).Some?)
     && (pr.Finishing? && pr.status.Completed? ==> Settled(chain, w, pr.row.txHash)))
  }

  ghost predicate ProcsInv(chain: Chain, maxRetries: nat, w: World) {
    forall p :: p in w.procs ==> ProcOk(chain, maxRetries, w, w.procs[p])
  }

  ghost predicate Inv(chain: Chain, maxRetries: nat, w: World) {
    GatewayInv(chain, w.gateway) && SentInv(chain, w) && RowInv(chain, maxRetries, w) && ProcsInv(chain, maxRetries, w)
  }

  /** What no step undoes: identifiers stay processed, rows keep their deposits, sent mints keep their
      arguments. */
  ghost predicate Grows(w: World, w': World) {
    && w.gateway.processed <= w'.gateway.processed
    && w.gateway.minted <= w'.gateway.minted
    && (forall id :: id in w.rows ==> id in w'.rows && SameDeposit(w'.rows[id], w.rows[id]))
    && |w.sent| <= |w'.sent|
    && (forall k :: 0 <= k < |w.sent| ==> w'.sent[k].mint == w.sent[k].mint)
  }

  lemma StepGrows(chain: Chain, maxRetries: nat, w: World, step: Step)
    requires Enabled(chain, maxRetries, w, step)
    ensures Grows(w, Apply(chain, maxRetries, w, step))
  {
  }

  lemma ProcStaysOk(chain: Chain, maxRetries: nat, w: World, w': World, pr: Proc)
    requires Grows(w, w') && ProcOk(chain, maxRetries, w, pr)
    ensures ProcOk(chain, maxRetries, w', pr)
  {
  }

  lemma MintKeepsGateway(chain: Chain, g: Gateway, m: Mint)
    requires GatewayInv(chain, g) && Genuine(chain, m)
    ensures GatewayInv(chain, ExecuteMint(g, m))
  {
    if Mintable(g, m) {
      var minted := g.minted + [m];
      IdsSnoc(g.minted, m);
      forall i, j | 0 <= i < j < |minted| ensures minted[i].id != minted[j].id {
        assert g.minted[i].id in Ids(g.minted);
      }
    }
  }

  lemma StepKeepsGateway(chain: Chain, maxRetries: nat, w: World, step: Step)
    requires Enabled(chain, maxRetries, w, step) && Inv(chain, maxRetries, w)
    ensures GatewayInv(chain, Apply(chain, maxRetries, w, step).gateway)
    ensures SentInv(chain, Apply(chain, maxRetries, w, step))
  {
    if step.Execute? {
      MintKeepsGateway(chain, w.gateway, w.sent[step.tx].mint);
    }
    if step.Send? {
      assert ProcOk(chain, maxRetries, w, w.procs[step.p]);
    }
  }

  lemma StepKeepsRows(chain: Chain, maxRetries: nat, w: World, step: Step)
    requires Enabled(chain, maxRetries, w, step) && Inv(chain, maxRetries, w)
    ensures RowInv(chain, maxRetries, Apply(chain, maxRetries, w, step))
  {
    StepGrows(chain, maxRetries, w, step);
    if step.Finish? || step.Catch? || step.Begin? {
      assert ProcOk(chain, maxRetries, w, w.procs[step.p]);
    }
  }

  lemma StepKeepsProcs(chain: Chain, maxRetries: nat, w: World, step: Step)
    requires Enabled(chain, maxRetries, w, step) && Inv(chain, maxRetries, w)
    ensures ProcsInv(chain, maxRetries, Apply(chain, maxRetries, w, step))
  {
    var w' := Apply(chain, maxRetries, w, step);
    StepGrows(chain, maxRetries, w, step);
    forall p | p in w'.procs ensures ProcOk(chain, maxRetries, w', w'.procs[p]) {
      if p in w.procs {
        ProcStaysOk(chain, maxRetries, w, w', w.procs[p]);
      }
    }
  }

  /** The invariant holds in every reachable world. */
  lemma {:induction false} EveryRun(chain: Chain, maxRetries: nat, steps: seq<Step>)
    requires ValidRun(chain, maxRetries, steps)
    ensures Inv(chain, maxRetries, Exec(chain, maxRetries, steps))
  {
    if steps != [] {
      var before, step := steps[..|steps| - 1], steps[|steps| - 1];
      EveryRun(chain, maxRetries, before);
      var w := Exec(chain, maxRetries, before);
      StepKeepsGateway(chain, maxRetries, w, step);
      StepKeepsRows(chain, maxRetries, w, step);
      StepKeepsProcs(chain, maxRetries, w, step);
    }
  }

  /** The transaction a mint was built from. */
  function TxOf(m: Mint): Option<Hash32> {
    NodeHash(m.txHash)
  }

  /** The mint is its own transaction's amount, to the recipient that transaction names if it names one. */
  ghost predicate Pays(chain: Chain, m: Mint) {
    && TxOf(m).Some?
    && var d := chain(TxOf(m).value);
       && d.Some? && m.amount == d.value.amount > 0
       && (d.value.recipient.Some? ==> m.recipient == d.value.recipient.value)
  }

  ghost predicate OnePerTransaction(mints: seq<Mint>) {
    forall i, j :: 0 <= i < j < |mints| ==> TxOf(mints[i]) != TxOf(mints[j])
  }

  /** Safety of the bridge over every run, however many rows spell a transaction, and however: no transaction is
      minted twice, every mint pays what its own transaction deposited, and a row is completed only if
      its transaction has been minted. */
  lemma BridgeSafety(chain: Chain, maxRetries: nat, steps: seq<Step>)
    requires ValidRun(chain, maxRetries, steps)
    ensures var w := Exec(chain, maxRetries, steps);
            && (forall i :: 0 <= i < |w.gateway.minted| ==> Pays(chain, w.gateway.minted[i]))
            && OnePerTransaction(w.gateway.minted)
            && (forall id :: id in w.rows && w.rows[id].status.Completed? ==>
                  && NodeHash(w.rows[id].txHash).Some?
                  && exists m :: m in w.gateway.minted && TxOf(m) == NodeHash(w.rows[id].txHash))
  {
    EveryRun(chain, maxRetries, steps);
    var w := Exec(chain, maxRetries, steps);
    var minted := w.gateway.minted;
    forall i | 0 <= i < |minted| ensures Pays(chain, minted[i]) {
      assert Genuine(chain, minted[i]);
    }
    forall i, j | 0 <= i < j < |minted| ensures TxOf(minted[i]) != TxOf(minted[j]) {
      assert Genuine(chain, minted[i]) && Genuine(chain, minted[j]);
      SameIdIffSameTransaction(minted[i].txHash, minted[j].txHash);
    }
    forall id | id in w.rows && w.rows[id].status.Completed?
      ensures NodeHash(w.rows[id].txHash).Some?
      ensures exists m :: m in minted && TxOf(m) == NodeHash(w.rows[id].txHash)
    {
      assert DepositId(w.rows[id].txHash) in Ids(minted);
      var i :| 0 <= i < |minted| && minted[i].id == DepositId(w.rows[id].txHash);
      assert Genuine(chain, minted[i]);
      SameIdIffSameTransaction(minted[i].txHash, w.rows[id].txHash);
      assert minted[i] in minted;
    }
  }

  // ------------------------------------------------------------------ the row behind a mint

  /** The mint is the row's: its hash and sender, and its recipient unless the chain names one. */
  predicate MintOf(chain: Chain, row: Row, m: Mint) {
    && m.txHash == row.txHash && m.sender == row.sender
    && (Lookup(chain, m.txHash).Some? && Lookup(chain, m.txHash).value.recipient.None? ==> m.recipient == row.recipient)
  }

  ghost predicate HasRow(chain: Chain, w: World, m: Mint) {
    exists id :: id in w.rows && MintOf(chain, w.rows[id], m)
  }

  ghost predicate AllHaveRows(chain: Chain, w: World) {
    && (forall k :: 0 <= k < |w.sent| ==> HasRow(chain, w, w.sent[k].mint))
    && (forall k :: 0 <= k < |w.gateway.minted| ==> HasRow(chain, w, w.gateway.minted[k]))
  }

  lemma HasRowStays(chain: Chain, w: World, w': World, m: Mint)
    requires Grows(w, w') && HasRow(chain, w, m)
    ensures HasRow(chain, w', m)
  {
    var id :| id in w.rows && MintOf(chain, w.rows[id], m);
    assert id in w'.rows && MintOf(chain, w'.rows[id], m);
  }

  lemma StepKeepsMintRows(chain: Chain, maxRetries: nat, w: World, step: Step)
    requires Enabled(chain, maxRetries, w, step) && Inv(chain, maxRetries, w) && AllHaveRows(chain, w)
    ensures AllHaveRows(chain, Apply(chain, maxRetries, w, step))
  {
    var w' := Apply(chain, maxRetries, w, step);
    StepGrows(chain, maxRetries, w, step);
    forall m | HasRow(chain, w, m) ensures HasRow(chain, w', m) { HasRowStays(chain, w, w', m); }
    if step.Send? {
      var pr := ProcOf(w, step.p);
      assert ProcOk(chain, maxRetries, w, pr);
      assert MintOf(chain, w.rows[pr.id], w'.sent[|w.sent|].mint);
      assert HasRow(chain, w, w'.sent[|w.sent|].mint);
    }
  }

  /** Over every run every mint is made for a row of its transaction: it names that row's sender and, when the deposit
      itself names no recipient, that row's recipient. */
  lemma {:induction false} MintsNameTheirRow(chain: Chain, maxRetries: nat, steps: seq<Step>)
    requires ValidRun(chain, maxRetries, steps)
    ensures AllHaveRows(chain, Exec(chain, maxRetries, steps))
  {
    if steps != [] {
      var before := steps[..|steps| - 1];
      MintsNameTheirRow(chain, maxRetries, before);
      EveryRun(chain, maxRetries, before);
      StepKeepsMintRows(chain, maxRetries, Exec(chain, maxRetries, before), steps[|steps| - 1]);
    }
  }

  // ------------------------------------------------------------------ conservation

  function Minted(mints: seq<Mint>): nat {
    if mints == [] then 0 else Minted(mints[..|mints| - 1]) + mints[|mints| - 1].amount
  }

  ghost function Deposited(deposits: map<Hash32, nat>): nat
    decreases |deposits|
  {
    if deposits == map[] then 0
    else
      var h :| h in deposits;
      deposits[h] + Deposited(deposits - {h})
  }

  lemma {:induction false} DepositedWithout(deposits: map<Hash32, nat>, h: Hash32)
    requires h in deposits
    ensures Deposited(deposits) == deposits[h] + Deposited(deposits - {h})
    decreases |deposits|
  {
    var x :| x in deposits && Deposited(deposits) == deposits[x] + Deposited(deposits - {x});
    if x != h {
      DepositedWithout(deposits - {x}, h);
      DepositedWithout(deposits - {h}, x);
      assert deposits - {x} - {h} == deposits - {h} - {x};
    }
  }

  lemma {:induction false} MintedAtMostDeposited(mints: seq<Mint>, deposits: map<Hash32, nat>)
    requires OnePerTransaction(mints)
    requires forall i :: 0 <= i < |mints| ==>
               && TxOf(mints[i]).Some? && TxOf(mints[i]).value in deposits
               && mints[i].amount == deposits[TxOf(mints[i]).value]
    ensures Minted(mints) <= Deposited(deposits)
  {
    if mints != [] {
      var front, last := mints[..|mints| - 1], mints[|mints| - 1];
      DepositedWithout(deposits, TxOf(last).value);
      MintedAtMostDeposited(front, deposits - {TxOf(last).value});
    }
  }

  /** The wrapped supply a run creates never exceeds what was deposited on Quantos: `deposits` lists the amount of
      each transaction once, however many rows, spellings, retries and processes there were. */
  lemma SupplyIsBacked(chain: Chain, maxRetries: nat, steps: seq<Step>, deposits: map<Hash32, nat>)
    requires ValidRun(chain, maxRetries, steps)
    requires forall h: Hash32 :: chain(h).Some? ==> h in deposits && deposits[h] == chain(h).value.amount
    ensures Minted(Exec(chain, maxRetries, steps).gateway.minted) <= Deposited(deposits)
  {
    BridgeSafety(chain, maxRetries, steps);
    var minted := Exec(chain, maxRetries, steps).gateway.minted;
    assert forall i :: 0 <= i < |minted| ==> Pays(chain, minted[i]);
    MintedAtMostDeposited(minted, deposits);
  }
}
