/** What a relayer process does with a row when nothing comes in between (bridge-relayer/src/relayer.ts), and what
    it writes when it fails. */
module RelayerProgress {
  import opened Bytes
  import opened Text
  import opened Hexadecimal
  import opened Relayer

  lemma OneMore(chain: Chain, maxRetries: nat, steps: seq<Step>, step: Step)
    requires ValidRun(chain, maxRetries, steps) && Enabled(chain, maxRetries, Exec(chain, maxRetries, steps), step)
    ensures ValidRun(chain, maxRetries, steps + [step])
    ensures Exec(chain, maxRetries, steps + [step])
            == Apply(chain, maxRetries, Exec(chain, maxRetries, steps), step)
  {
    assert (steps + [step])[..|steps|] == steps;
  }

  /** A failed attempt at a row counts, and the row can be polled again exactly while attempts are left; otherwise it
      has failed for good.  No other row changes. */
  predicate AttemptCounted(w: World, w': World, id: nat, row: Row, maxRetries: nat) {
    && id in w.rows && id in w'.rows && w'.rows == w.rows[id := w'.rows[id]]
    && SameDeposit(w'.rows[id], w.rows[id]) && w'.rows[id].retries == row.retries + 1
    && (Retryable(w'.rows[id], maxRetries) <==> row.retries + 1 < maxRetries)
    && (w'.rows[id].status == Failed <==> row.retries + 1 >= maxRetries)
  }

  lemma CatchWrites(chain: Chain, maxRetries: nat, w: World, p: nat)
    requires Enabled(chain, maxRetries, w, Catch(p)) && Inv(chain, maxRetries, w)
    ensures var (pr, w') := (ProcOf(w, p), Apply(chain, maxRetries, w, Catch(p)));
            && AttemptCounted(w, w', pr.id, pr.row, maxRetries) && w'.gateway == w.gateway && w'.sent == w.sent
            && ProcOf(w', p) == if pr.todo == [] then Idle else Queue(pr.todo)
  {
    assert ProcOk(chain, maxRetries, w, ProcOf(w, p));
  }

  /** A call that throws, wherever the process is with a row, costs an attempt and no more, and the process goes on to
      the next row. */
  lemma ThrownAttempt(chain: Chain, maxRetries: nat, steps: seq<Step>, p: nat)
    requires ValidRun(chain, maxRetries, steps)
    requires var pr := ProcOf(Exec(chain, maxRetries, steps), p); !pr.Idle? && !pr.Queue? && !pr.Catching?
    ensures ValidRun(chain, maxRetries, steps + [Throw(p)] + [Catch(p)])
    ensures var (w, w') := (Exec(chain, maxRetries, steps), Exec(chain, maxRetries, steps + [Throw(p)] + [Catch(p)]));
            var pr := ProcOf(w, p);
            && AttemptCounted(w, w', pr.id, pr.row, maxRetries) && w'.gateway == w.gateway && w'.sent == w.sent
            && ProcOf(w', p) == if pr.todo == [] then Idle else Queue(pr.todo)
  {
    OneMore(chain, maxRetries, steps, Throw(p));
    EveryRun(chain, maxRetries, steps + [Throw(p)]);
    OneMore(chain, maxRetries, steps + [Throw(p)], Catch(p));
    CatchWrites(chain, maxRetries, Exec(chain, maxRetries, steps + [Throw(p)]), p);
  }

  /** A poll takes a row exactly if it is not settled, failed or completed, and has attempts left. */
  lemma PolledIff(chain: Chain, maxRetries: nat, w: World, p: nat, id: nat)
    ensures Enabled(chain, maxRetries, w, Poll(p, [id])) <==>
              && ProcOf(w, p).Idle? && id in w.rows && w.rows[id].retries < maxRetries
              && w.rows[id].status != Failed && w.rows[id].status != Completed
  {
    assert [id][0] == id;
  }

  /** A new row can be polled, as pending or as confirmed, and has what was handed in. */
  lemma NewRow(chain: Chain, maxRetries: nat, w: World, id: nat, txHash: string, recipient: nat, sender: nat,
               confirmed: bool)
    requires id !in w.rows && maxRetries > 0
    ensures var w' := Apply(chain, maxRetries, w, InsertRow(id, txHash, recipient, sender, confirmed));
            && id in w'.rows && Retryable(w'.rows[id], maxRetries) && w'.rows - {id} == w.rows
            && SameDeposit(w'.rows[id], Row(txHash, recipient, sender, Pending, 0))
            && (w'.rows[id].status == QuantosConfirmed <==> confirmed)
  {
  }

  /** The mint for a row: the recipient the chain names, or else the row's. */
  function MintFor(row: Row, d: Deposit): Mint {
    Mint(DepositId(row.txHash), row.sender, match d.recipient case Some(r) => r case None => row.recipient, d.amount,
         row.txHash)
  }

  /** The world after a process has dealt with a row. */
  ghost predicate Dealt(w: World, w': World, id: nat, status: Status, minted: seq<Mint>)
    requires id in w.rows
  {
    && w'.rows == w.rows[id := w.rows[id].(status := status)]
    && w'.gateway.minted == w.gateway.minted + minted
  }

  /** The next row of the process is `id`, as it was read. */
  predicate NextIs(w: World, p: nat, id: nat, row: Row, todo: seq<(nat, Row)>) {
    ProcOf(w, p) == Queue([(id, row)] + todo) && id in w.rows && SameDeposit(w.rows[id], row)
  }

  /** The process has marked the row and is about to `proc`; nothing else has changed. */
  ghost predicate Working(w0: World, w: World, p: nat, id: nat, proc: Proc) {
    && id in w0.rows && w.rows == w0.rows[id := w0.rows[id].(status := Relaying)] && w.gateway == w0.gateway
    && w.sent == w0.sent && ProcOf(w, p) == proc
  }

  lemma MarkNext(chain: Chain, maxRetries: nat, steps: seq<Step>, p: nat, id: nat, row: Row, todo: seq<(nat, Row)>)
      returns (steps': seq<Step>)
    requires ValidRun(chain, maxRetries, steps) && NextIs(Exec(chain, maxRetries, steps), p, id, row, todo)
    ensures ValidRun(chain, maxRetries, steps')
    ensures Working(Exec(chain, maxRetries, steps), Exec(chain, maxRetries, steps'), p, id, Marked(id, row, todo))
  {
    assert ([(id, row)] + todo)[1..] == todo;
    OneMore(chain, maxRetries, steps, Begin(p));
    steps' := steps + [Begin(p)];
  }

  lemma WriteStatus(chain: Chain, maxRetries: nat, steps: seq<Step>, w0: World, p: nat, id: nat, row: Row,
                    todo: seq<(nat, Row)>, status: Status, minted: seq<Mint>)
      returns (steps': seq<Step>)
    requires ValidRun(chain, maxRetries, steps) && id in w0.rows
    requires var w := Exec(chain, maxRetries, steps);
             && ProcOf(w, p) == Finishing(id, row, status, todo)
             && w.rows == w0.rows[id := w0.rows[id].(status := Relaying)]
             && w.gateway.minted == w0.gateway.minted + minted
    ensures ValidRun(chain, maxRetries, steps')
    ensures Dealt(w0, Exec(chain, maxRetries, steps'), id, status, minted)
    ensures ProcOf(Exec(chain, maxRetries, steps'), p) == if todo == [] then Idle else Queue(todo)
  {
    OneMore(chain, maxRetries, steps, Finish(p));
    steps' := steps + [Finish(p)];
  }

  /** Not a deposit: the row fails. */
  lemma NoDeposit(chain: Chain, maxRetries: nat, steps: seq<Step>, w0: World, p: nat, id: nat, row: Row,
                  todo: seq<(nat, Row)>)
      returns (steps': seq<Step>)
    requires ValidRun(chain, maxRetries, steps) && Lookup(chain, row.txHash).None?
    requires Working(w0, Exec(chain, maxRetries, steps), p, id, Marked(id, row, todo))
    ensures ValidRun(chain, maxRetries, steps') && Dealt(w0, Exec(chain, maxRetries, steps'), id, Failed, [])
    ensures ProcOf(Exec(chain, maxRetries, steps'), p) == if todo == [] then Idle else Queue(todo)
  {
    OneMore(chain, maxRetries, steps, Verify(p, false));
    steps' := WriteStatus(chain, maxRetries, steps + [Verify(p, false)], w0, p, id, row, todo, Failed, []);
  }

  lemma FindDeposit(chain: Chain, maxRetries: nat, steps: seq<Step>, w0: World, p: nat, id: nat, row: Row,
                    todo: seq<(nat, Row)>, d: Deposit)
      returns (steps': seq<Step>)
    requires ValidRun(chain, maxRetries, steps) && Lookup(chain, row.txHash) == Some(d)
    requires Working(w0, Exec(chain, maxRetries, steps), p, id, Marked(id, row, todo))
    ensures ValidRun(chain, maxRetries, steps')
    ensures Working(w0, Exec(chain, maxRetries, steps'), p, id, Verified(id, row, d, todo))
  {
    OneMore(chain, maxRetries, steps, Verify(p, true));
    steps' := steps + [Verify(p, true)];
  }

  /** Minted before: the row is completed without a mint.  Nothing deposited: it fails. */
  lemma NothingToMint(chain: Chain, maxRetries: nat, steps: seq<Step>, w0: World, p: nat, id: nat, row: Row,
                      todo: seq<(nat, Row)>, d: Deposit)
      returns (steps': seq<Step>)
    requires ValidRun(chain, maxRetries, steps)
    requires Working(w0, Exec(chain, maxRetries, steps), p, id, Verified(id, row, d, todo))
    requires DepositId(row.txHash) in w0.gateway.processed || d.amount == 0
    ensures ValidRun(chain, maxRetries, steps')
    ensures Dealt(w0, Exec(chain, maxRetries, steps'), id,
                  if DepositId(row.txHash) in w0.gateway.processed then Completed else Failed, [])
    ensures ProcOf(Exec(chain, maxRetries, steps'), p) == if todo == [] then Idle else Queue(todo)
  {
    var status := if DepositId(row.txHash) in w0.gateway.processed then Completed else Failed;
    OneMore(chain, maxRetries, steps, Check(p, true));
    steps' := WriteStatus(chain, maxRetries, steps + [Check(p, true)], w0, p, id, row, todo, status, []);
  }

  /** A deposit with something to mint that is not known to be processed, because it is not or because the check was
      not answered, is about to be sent. */
  lemma FindUnprocessed(chain: Chain, maxRetries: nat, steps: seq<Step>, w0: World, p: nat, id: nat, row: Row,
                        todo: seq<(nat, Row)>, d: Deposit, reached: bool)
      returns (steps': seq<Step>)
    requires ValidRun(chain, maxRetries, steps)
    requires Working(w0, Exec(chain, maxRetries, steps), p, id, Verified(id, row, d, todo))
    requires d.amount > 0 && (DepositId(row.txHash) !in w0.gateway.processed || !reached)
    ensures ValidRun(chain, maxRetries, steps')
    ensures Working(w0, Exec(chain, maxRetries, steps'), p, id, Unprocessed(id, row, d, todo))
  {
    OneMore(chain, maxRetries, steps, Check(p, reached));
    steps' := steps + [Check(p, reached)];
  }

  /** Sending, and execution on Base. */
  lemma SendAndExecute(chain: Chain, maxRetries: nat, steps: seq<Step>, w0: World, p: nat, id: nat, row: Row,
                       todo: seq<(nat, Row)>, d: Deposit)
      returns (steps': seq<Step>)
    requires ValidRun(chain, maxRetries, steps) && HexText(DepositId(row.txHash))
    requires Working(w0, Exec(chain, maxRetries, steps), p, id, Unprocessed(id, row, d, todo))
    ensures ValidRun(chain, maxRetries, steps')
    ensures var (w, m) := (Exec(chain, maxRetries, steps'), MintFor(row, d));
            && w.rows == w0.rows[id := w0.rows[id].(status := Relaying)] && w.gateway == ExecuteMint(w0.gateway, m)
            && ProcOf(w, p) == Sent(id, row, |w0.sent|, todo) && |w.sent| == |w0.sent| + 1
            && w.sent[|w0.sent|].status == if Mintable(w0.gateway, m) then Succeeded else Reverted
  {
    var tx := |w0.sent|;
    OneMore(chain, maxRetries, steps, Send(p));
    steps' := steps + [Send(p)];
    assert Exec(chain, maxRetries, steps').sent == w0.sent + [BaseTx(MintFor(row, d), Waiting)];
    OneMore(chain, maxRetries, steps', Execute(tx));
    steps' := steps' + [Execute(tx)];
  }

  /** The gateway is open to the relayer, and would not turn the row's arguments away. */
  predicate Welcome(g: Gateway, row: Row, d: Option<Deposit>) {
    && g.relayerAllowed && !g.paused && HexText(DepositId(row.txHash)) && DepositId(row.txHash) != Fill(64)
    && row.sender != 0 && (d.Some? ==> MintFor(row, d.value).recipient != 0)
  }

  /** What an undisturbed process makes of its next row: a deposit that is real, not empty and not minted yet is minted,
      to the recipient the chain names or else the row's, and the row is completed; one minted before
      only completes the row; anything else fails it.  Nothing else changes, and it goes on to the
      rest. */
  lemma DealWithNext(chain: Chain, maxRetries: nat, steps: seq<Step>, p: nat, id: nat, row: Row, todo: seq<(nat, Row)>)
      returns (steps': seq<Step>)
    requires ValidRun(chain, maxRetries, steps) && NextIs(Exec(chain, maxRetries, steps), p, id, row, todo)
    requires Welcome(Exec(chain, maxRetries, steps).gateway, row, Lookup(chain, row.txHash))
    ensures ValidRun(chain, maxRetries, steps')
    ensures ProcOf(Exec(chain, maxRetries, steps'), p) == if todo == [] then Idle else Queue(todo)
    ensures var (w, d) := (Exec(chain, maxRetries, steps), Lookup(chain, row.txHash));
            var known := DepositId(row.txHash) in w.gateway.processed;
            Dealt(w, Exec(chain, maxRetries, steps'), id,
                  if d.Some? && (known || d.value.amount > 0) then Completed else Failed,
                  if d.Some? && !known && d.value.amount > 0 then [MintFor(row, d.value)] else [])
  {
    var w, d := Exec(chain, maxRetries, steps), Lookup(chain, row.txHash);
    steps' := MarkNext(chain, maxRetries, steps, p, id, row, todo);
    if d.None? {
      steps' := NoDeposit(chain, maxRetries, steps', w, p, id, row, todo);
    } else {
      steps' := FindDeposit(chain, maxRetries, steps', w, p, id, row, todo, d.value);
      if DepositId(row.txHash) in w.gateway.processed || d.value.amount == 0 {
        steps' := NothingToMint(chain, maxRetries, steps', w, p, id, row, todo, d.value);
      } else {
        steps' := FindUnprocessed(chain, maxRetries, steps', w, p, id, row, todo, d.value, true);
        steps' := MintAndFinish(chain, maxRetries, steps', w, p, id, row, todo, d.value);
      }
    }
  }

  lemma MintAndFinish(chain: Chain, maxRetries: nat, steps: seq<Step>, w0: World, p: nat, id: nat, row: Row,
                      todo: seq<(nat, Row)>, d: Deposit)
      returns (steps': seq<Step>)
    requires ValidRun(chain, maxRetries, steps) && HexText(DepositId(row.txHash))
    requires Working(w0, Exec(chain, maxRetries, steps), p, id, Unprocessed(id, row, d, todo))
    requires Mintable(w0.gateway, MintFor(row, d))
    ensures ValidRun(chain, maxRetries, steps')
    ensures Dealt(w0, Exec(chain, maxRetries, steps'), id, Completed, [MintFor(row, d)])
    ensures ProcOf(Exec(chain, maxRetries, steps'), p) == if todo == [] then Idle else Queue(todo)
  {
    steps' := SendAndExecute(chain, maxRetries, steps, w0, p, id, row, todo, d);
    OneMore(chain, maxRetries, steps', Confirm(p));
    steps' := WriteStatus(chain, maxRetries, steps' + [Confirm(p)], w0, p, id, row, todo, Completed, [MintFor(row, d)]);
  }

  /** The same for one row that can be polled, from an idle process to an idle process. */
  lemma Undisturbed(chain: Chain, maxRetries: nat, steps: seq<Step>, p: nat, id: nat) returns (steps': seq<Step>)
    requires ValidRun(chain, maxRetries, steps)
    requires var w := Exec(chain, maxRetries, steps);
             && ProcOf(w, p).Idle? && id in w.rows && Retryable(w.rows[id], maxRetries)
             && Welcome(w.gateway, w.rows[id], Lookup(chain, w.rows[id].txHash))
    ensures ValidRun(chain, maxRetries, steps') && ProcOf(Exec(chain, maxRetries, steps'), p).Idle?
    ensures var w := Exec(chain, maxRetries, steps);
            var (row, d) := (w.rows[id], Lookup(chain, w.rows[id].txHash));
            var known := DepositId(row.txHash) in w.gateway.processed;
            Dealt(w, Exec(chain, maxRetries, steps'), id,
                  if d.Some? && (known || d.value.amount > 0) then Completed else Failed,
                  if d.Some? && !known && d.value.amount > 0 then [MintFor(row, d.value)] else [])
  {
    var row := Exec(chain, maxRetries, steps).rows[id];
    OneMore(chain, maxRetries, steps, Poll(p, [id]));
    assert [(id, row)] + [] == [(id, row)];
    steps' := DealWithNext(chain, maxRetries, steps + [Poll(p, [id])], p, id, row, []);
  }

  /** A check that is not answered cannot lead to a second mint: the deposit is sent again, Base turns it away, nothing
      is minted, and the attempt counts. */
  lemma SecondMintReverts(chain: Chain, maxRetries: nat, steps: seq<Step>, p: nat, id: nat, row: Row,
                          todo: seq<(nat, Row)>, d: Deposit)
      returns (steps': seq<Step>)
    requires ValidRun(chain, maxRetries, steps) && NextIs(Exec(chain, maxRetries, steps), p, id, row, todo)
    requires Lookup(chain, row.txHash) == Some(d) && d.amount > 0 && HexText(DepositId(row.txHash))
    requires DepositId(row.txHash) in Exec(chain, maxRetries, steps).gateway.processed
    ensures ValidRun(chain, maxRetries, steps')
    ensures var (w, w') := (Exec(chain, maxRetries, steps), Exec(chain, maxRetries, steps'));
            && w'.gateway == w.gateway && |w'.sent| == |w.sent| + 1
            && id in w'.rows && w'.rows[id].retries == row.retries + 1
            && (Retryable(w'.rows[id], maxRetries) <==> row.retries + 1 < maxRetries)
            && ProcOf(w', p) == if todo == [] then Idle else Queue(todo)
  {
    var w := Exec(chain, maxRetries, steps);
    steps' := MarkNext(chain, maxRetries, steps, p, id, row, todo);
    steps' := FindDeposit(chain, maxRetries, steps', w, p, id, row, todo, d);
    steps' := FindUnprocessed(chain, maxRetries, steps', w, p, id, row, todo, d, false);
    steps' := SendAndExecute(chain, maxRetries, steps', w, p, id, row, todo, d);
    steps' := RevertCounts(chain, maxRetries, steps', p, id, row, todo, |w.sent|);
  }

  lemma RevertCounts(chain: Chain, maxRetries: nat, steps: seq<Step>, p: nat, id: nat, row: Row,
                     todo: seq<(nat, Row)>, tx: nat)
      returns (steps': seq<Step>)
    requires ValidRun(chain, maxRetries, steps)
    requires var w := Exec(chain, maxRetries, steps);
             ProcOf(w, p) == Sent(id, row, tx, todo) && tx < |w.sent| && w.sent[tx].status == Reverted
    ensures ValidRun(chain, maxRetries, steps')
    ensures var (w, w') := (Exec(chain, maxRetries, steps), Exec(chain, maxRetries, steps'));
            && AttemptCounted(w, w', id, row, maxRetries) && w'.gateway == w.gateway && w'.sent == w.sent
            && ProcOf(w', p) == if todo == [] then Idle else Queue(todo)
  {
    OneMore(chain, maxRetries, steps, Confirm(p));
    steps' := steps + [Confirm(p)];
    EveryRun(chain, maxRetries, steps');
    OneMore(chain, maxRetries, steps', Catch(p));
    CatchWrites(chain, maxRetries, Exec(chain, maxRetries, steps'), p);
    steps' := steps' + [Catch(p)];
  }
}
