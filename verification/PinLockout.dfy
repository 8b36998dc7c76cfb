/** The PIN attempt counter of `unlock_wallet` (quantos-wallet-server/src/routes.rs).  A request touches the
    counter twice: it looks for a lock, and after the decryption it records the outcome.  Requests run
    concurrently, so other requests' steps may come in between.  Times are nanoseconds of a clock that
    does not go back. */
module PinLockout {
  import opened Bytes
  import opened Sequences

  const MAX_PIN_ATTEMPTS: nat := 3
  const PIN_LOCKOUT: nat := 900_000_000_000

  datatype PinAttempts = PinAttempts(failures: nat, lockedUntil: Option<nat>)

  type Table = map<string, PinAttempts>

  predicate ValidPin(pin: string) {
    |pin| == 6 && forall i :: 0 <= i < |pin| ==> '0' <= pin[i] <= '9'
  }

  predicate Locked(table: Table, key: string, now: nat) {
    key in table && table[key].lockedUntil.Some? && now < table[key].lockedUntil.value
  }

  /** What a decryption's outcome does to the table: success forgets, failure counts and locks. */
  function Recorded(table: Table, key: string, decrypts: bool, now: nat): Table {
    if decrypts then table - {key}
    else
      var e := if key in table then table[key] else PinAttempts(0, None);
      table[key := PinAttempts(e.failures + 1,
                               if e.failures + 1 >= MAX_PIN_ATTEMPTS then Some(now + PIN_LOCKOUT) else e.lockedUntil)]
  }

  datatype Outcome = InvalidPin | RateLimited | Decrypted | Failed

  class UnlockGuard {
    var pinAttempts: Table

    constructor ()
      ensures pinAttempts == map[]
    {
      pinAttempts := map[];
    }

    method CheckLock(key: string, now: nat) returns (locked: bool)
      ensures locked <==> Locked(pinAttempts, key, now)
    {
      if key in pinAttempts {
        var attempts := pinAttempts[key];
        if attempts.lockedUntil.Some? && now < attempts.lockedUntil.value { return true; }
      }
      return false;
    }

    method Record(key: string, decrypts: bool, now: nat)
      modifies this
      ensures pinAttempts == Recorded(old(pinAttempts), key, decrypts, now)
    {
      if decrypts {
        pinAttempts := pinAttempts - {key};
        return;
      }
      var entry := if key in pinAttempts then pinAttempts[key] else PinAttempts(0, None);
      entry := entry.(failures := entry.failures + 1);
      if entry.failures >= MAX_PIN_ATTEMPTS { entry := entry.(lockedUntil := Some(now + PIN_LOCKOUT)); }
      pinAttempts := pinAttempts[key := entry];
    }

    /** One request on its own; `decrypts` is what `decrypt_with_pin` answers. */
    method UnlockWallet(key: string, pin: string, decrypts: bool, checkedAt: nat, doneAt: nat) returns (r: Outcome)
      modifies this
      ensures r == if !ValidPin(pin) then InvalidPin else if Locked(old(pinAttempts), key, checkedAt) then RateLimited
                   else if decrypts then Decrypted else Failed
      ensures pinAttempts == if r.InvalidPin? || r.RateLimited? then old(pinAttempts)
                             else Recorded(old(pinAttempts), key, decrypts, doneAt)
    {
      if !ValidPin(pin) { return InvalidPin; }
      var locked := CheckLock(key, checkedAt);
      if locked { return RateLimited; }
      Record(key, decrypts, doneAt);
      return if decrypts then Decrypted else Failed;
    }
  }

  // ------------------------------------------------------------------ interleaved requests

  /** The two steps of request `id`. */
  datatype Event =
    | Checked(id: nat, key: string, pin: string, now: nat)
    | Done(id: nat, decrypts: bool, now: nat)

  /** `flying`: the requests that passed the check and are decrypting, with their keys. */
  datatype State = State(table: Table, flying: map<nat, string>)

  const START: State := State(map[], map[])

  function Step(s: State, e: Event): State {
    match e
    case Checked(id, key, pin, now) =>
      if ValidPin(pin) && !Locked(s.table, key, now) then s.(flying := s.flying[id := key]) else s
    case Done(id, decrypts, now) =>
      if id !in s.flying then s
      else State(Recorded(s.table, s.flying[id], decrypts, now), s.flying - {id})
  }

  function Run(s: State, es: seq<Event>): State {
    if es == [] then s else Step(Run(s, es[..|es| - 1]), es[|es| - 1])
  }

  /** The clock does not go back, and a request is numbered unlike those in flight. */
  ghost predicate Timed(s: State, es: seq<Event>) {
    es == [] ||
    var (front, e) := (es[..|es| - 1], es[|es| - 1]);
    && Timed(s, front)
    && (front != [] ==> front[|front| - 1].now <= e.now)
    && (e.Checked? ==> e.id !in Run(s, front).flying)
  }

  /** The requests of a key that are decrypting. */
  function InFlight(s: State, key: string): set<nat> {
    set id | id in s.flying && s.flying[id] == key
  }

  /** At no time are more than `k` requests of the key decrypting. */
  ghost predicate Overlap(s: State, es: seq<Event>, key: string, k: nat) {
    && |InFlight(Run(s, es), key)| <= k
    && (es != [] ==> Overlap(s, es[..|es| - 1], key, k))
  }

  /** The event ends a decryption for the key, with this outcome. */
  predicate Ends(s: State, e: Event, key: string, decrypts: bool) {
    e.Done? && e.id in s.flying && s.flying[e.id] == key && e.decrypts == decrypts
  }

  /** Failed decryptions for a key between two times, both included. */
  function Failures(s: State, es: seq<Event>, key: string, from: nat, to: nat): nat {
    if es == [] then 0
    else
      var front, e := es[..|es| - 1], es[|es| - 1];
      Failures(s, front, key, from, to) + if from <= e.now <= to && Ends(Run(s, front), e, key, false) then 1 else 0
  }

  /** No unlock of the key succeeds between the two times. */
  predicate NoSuccess(s: State, es: seq<Event>, key: string, from: nat, to: nat) {
    es == [] ||
    var (front, e) := (es[..|es| - 1], es[|es| - 1]);
    NoSuccess(s, front, key, from, to) && !(from <= e.now <= to && Ends(Run(s, front), e, key, true))
  }

  /** The accounts after `n` failures of the stretch, the last event at `now`.  Each lockout closes a round of
      at most `k` failures: `q` rounds after the first are over or open, and while the lock holds those
      still decrypting belong to them. */
  ghost predicate Rounds(s: State, key: string, from: nat, now: nat, k: nat, n: nat, q: nat) {
    && (n > 0 ==> key in s.table && s.table[key].failures >= n && from <= now)
    && (n >= MAX_PIN_ATTEMPTS ==>
          && s.table[key].lockedUntil.Some?
          && s.table[key].lockedUntil.value >= from + (q + 1) * PIN_LOCKOUT
          && s.table[key].lockedUntil.value <= now + PIN_LOCKOUT
          && from + q * PIN_LOCKOUT <= now
          && n <= 2 + k * (q + 1)
          && (n + |InFlight(s, key)| <= 2 + k * (q + 1) || now >= s.table[key].lockedUntil.value))
  }

  lemma NextRound(k: nat, q: nat)
    ensures k * (q + 2) == k * (q + 1) + k && (q + 2) * PIN_LOCKOUT == (q + 1) * PIN_LOCKOUT + PIN_LOCKOUT
  {
  }

  lemma DoneLeaves(s: State, e: Event, key: string)
    requires e.Done? && e.id in s.flying
    ensures InFlight(Step(s, e), key) == InFlight(s, key) - {e.id}
    ensures s.flying[e.id] == key ==> |InFlight(Step(s, e), key)| == |InFlight(s, key)| - 1
    ensures s.flying[e.id] != key ==> InFlight(Step(s, e), key) == InFlight(s, key)
  {
    assert e.id in InFlight(s, key) <==> s.flying[e.id] == key;
  }

  /** A failure of the stretch closes a round or belongs to the one before. */
  lemma FailureCounts(s: State, e: Event, key: string, from: nat, now: nat, k: nat, n: nat, q: nat) returns (q': nat)
    requires Rounds(s, key, from, now, k, n, q) && Ends(s, e, key, false) && now <= e.now && from <= e.now
    requires |InFlight(s, key)| <= k
    ensures Rounds(Step(s, e), key, from, e.now, k, n + 1, q')
  {
    DoneLeaves(s, e, key);
    NextRound(k, q);
    if n < MAX_PIN_ATTEMPTS {
      q' := 0;
    } else if now >= s.table[key].lockedUntil.value {
      q' := q + 1;
    } else {
      q' := q;
    }
  }

  /** Any other event of the stretch leaves the accounts in order. */
  lemma OthersCount(s: State, e: Event, key: string, from: nat, now: nat, k: nat, n: nat, q: nat)
    requires Rounds(s, key, from, now, k, n, q) && now <= e.now
    requires !Ends(s, e, key, false) && !Ends(s, e, key, true)
    requires e.Checked? ==> e.id !in s.flying
    ensures Rounds(Step(s, e), key, from, e.now, k, n, q)
  {
    if e.Done? && e.id in s.flying {
      DoneLeaves(s, e, key);
    } else if e.Checked? && Step(s, e) != s && e.key != key {
      assert InFlight(Step(s, e), key) == InFlight(s, key);
    }
  }

  function Last(es: seq<Event>): nat {
    if es == [] then 0 else es[|es| - 1].now
  }

  lemma {:induction false} EveryStretch(es: seq<Event>, key: string, from: nat, to: nat, k: nat) returns (q: nat)
    requires Timed(START, es) && Overlap(START, es, key, k) && NoSuccess(START, es, key, from, to) && Last(es) <= to
    ensures Rounds(Run(START, es), key, from, Last(es), k, Failures(START, es, key, from, to), q)
  {
    if es == [] {
      q := 0;
    } else {
      var front, e := es[..|es| - 1], es[|es| - 1];
      q := EveryStretch(front, key, from, to, k);
      var s, n := Run(START, front), Failures(START, front, key, from, to);
      if from <= e.now && Ends(s, e, key, false) {
        q := FailureCounts(s, e, key, from, Last(front), k, n, q);
      } else if e.now >= from {
        OthersCount(s, e, key, from, Last(front), k, n, q);
      }
    }
  }

  lemma RoundsInTime(k: nat, q: nat, length: nat)
    requires q * PIN_LOCKOUT <= length
    ensures k * (q + 1) <= k * (length / PIN_LOCKOUT + 1)
  {
    var r := length / PIN_LOCKOUT;
    assert q <= r;
    assert k * (r + 1) == k * (q + 1) + k * (r - q);
  }

  /** Over every interleaving: a stretch of time in which no unlock of a key succeeds holds at most two failed
      decryptions, and `k` for each lockout begun, where `k` is how many of its requests decrypt at once. */
  lemma {:induction false} FailuresAreLimited(es: seq<Event>, key: string, from: nat, length: nat, k: nat)
    requires Timed(START, es) && Overlap(START, es, key, k) && NoSuccess(START, es, key, from, from + length)
    ensures Failures(START, es, key, from, from + length) <= 2 + k * (length / PIN_LOCKOUT + 1)
  {
    if Last(es) <= from + length {
      StretchIsLimited(es, key, from, length, k);
    } else {
      FailuresAreLimited(es[..|es| - 1], key, from, length, k);
    }
  }

  lemma StretchIsLimited(es: seq<Event>, key: string, from: nat, length: nat, k: nat)
    requires Timed(START, es) && Overlap(START, es, key, k) && NoSuccess(START, es, key, from, from + length)
    requires Last(es) <= from + length
    ensures Failures(START, es, key, from, from + length) <= 2 + k * (length / PIN_LOCKOUT + 1)
  {
    var q := EveryStretch(es, key, from, from + length, k);
    var n := Failures(START, es, key, from, from + length);
    assert 0 <= k * (length / PIN_LOCKOUT + 1);
    if n >= MAX_PIN_ATTEMPTS { RoundsInTime(k, q, length); }
  }

  /** One request of a key at a time: at most 3 + T / 900 s failed decryptions. */
  lemma SequentialFailures(es: seq<Event>, key: string, from: nat, length: nat)
    requires Timed(START, es) && Overlap(START, es, key, 1) && NoSuccess(START, es, key, from, from + length)
    ensures Failures(START, es, key, from, from + length) <= MAX_PIN_ATTEMPTS + length / PIN_LOCKOUT
  {
    FailuresAreLimited(es, key, from, length, 1);
  }

  // ------------------------------------------------------------------ who is locked out

  /** The failures of a key since its last success, and the time of the latest. */
  datatype Streak = Streak(count: nat, latest: nat)

  function StreakOf(es: seq<Event>, key: string): Streak {
    if es == [] then Streak(0, 0)
    else
      var front, e := es[..|es| - 1], es[|es| - 1];
      if Ends(Run(START, front), e, key, true) then Streak(0, 0)
      else if Ends(Run(START, front), e, key, false) then Streak(StreakOf(front, key).count + 1, e.now)
      else StreakOf(front, key)
  }

  lemma {:induction false} TableIsStreak(es: seq<Event>, key: string)
    ensures var (table, k) := (Run(START, es).table, StreakOf(es, key));
            && (key in table <==> k.count > 0)
            && (key in table ==>
                  table[key] == PinAttempts(k.count, if k.count < MAX_PIN_ATTEMPTS then None
                                                     else Some(k.latest + PIN_LOCKOUT)))
  {
    if es != [] { TableIsStreak(es[..|es| - 1], key); }
  }

  /** Over every interleaving: a request with a valid PIN goes on to decrypt unless its key has failed three
      times or more since its last success, the latest time less than a lockout ago. */
  lemma RateLimitedIff(es: seq<Event>, id: nat, key: string, pin: string, now: nat)
    requires id !in Run(START, es).flying
    ensures var k := StreakOf(es, key);
            id in Run(START, es + [Checked(id, key, pin, now)]).flying <==>
              && |pin| == 6 && (forall i :: 0 <= i < 6 ==> pin[i] in "0123456789")
              && !(k.count >= 3 && now < k.latest + 15 * 60 * 1_000_000_000)
  {
    var all := es + [Checked(id, key, pin, now)];
    assert all[..|all| - 1] == es;
    TableIsStreak(es, key);
    if |pin| == 6 { assert forall i :: 0 <= i < 6 ==> ('0' <= pin[i] <= '9' <==> pin[i] in "0123456789"); }
  }

  // ------------------------------------------------------------------ the bound is met

  function Checks(key: string, pin: string, k: nat, t: nat): seq<Event> {
    seq(k, i requires 0 <= i < k => Checked(i, key, pin, t))
  }

  function Fails(k: nat, t: nat): seq<Event> {
    seq(k, i requires 0 <= i < k => Done(i, false, t))
  }

  /** `es` leads from `s` to `s'` within the rules of the bound, with `n` failures, by the time `t`. */
  ghost predicate Stage(s: State, es: seq<Event>, s': State, key: string, k: nat, t: nat, length: nat, n: nat) {
    && Run(s, es) == s' && Timed(s, es) && Overlap(s, es, key, k) && NoSuccess(s, es, key, 0, length)
    && Failures(s, es, key, 0, length) == n && Last(es) <= t <= length
  }

  lemma OneMore(s: State, es: seq<Event>, s': State, e: Event, key: string, k: nat, t: nat, length: nat, n: nat)
    requires Stage(s, es, s', key, k, t, length, n) && e.now == t
    requires e.Checked? ==> e.id !in s'.flying
    requires |InFlight(Step(s', e), key)| <= k && !Ends(s', e, key, true)
    ensures Stage(s, es + [e], Step(s', e), key, k, t, length, n + if Ends(s', e, key, false) then 1 else 0)
  {
    var all := es + [e];
    assert all[..|all| - 1] == es;
  }

  lemma {:induction false} Join(s: State, a: seq<Event>, s': State, b: seq<Event>, key: string, k: nat, t: nat, t': nat,
                                length: nat, n: nat)
    requires Stage(s, a, s', key, k, t, length, n) && t <= t' <= length
    requires Timed(s', b) && Overlap(s', b, key, k) && NoSuccess(s', b, key, 0, length)
    requires forall i :: 0 <= i < |b| ==> b[i].now == t'
    ensures Stage(s, a + b, Run(s', b), key, k, t', length, n + Failures(s', b, key, 0, length))
  {
    if b == [] {
      assert a + b == a;
    } else {
      var front, e := b[..|b| - 1], b[|b| - 1];
      LastEvent(s', b, key, k, length);
      Join(s, a, s', front, key, k, t, t', length, n);
      var n' := n + Failures(s', front, key, 0, length);
      OneMore(s, a + front, Run(s', front), e, key, k, t', length, n');
      assert a + b == a + front + [e];
    }
  }

  lemma LastEvent(s: State, b: seq<Event>, key: string, k: nat, length: nat)
    requires b != [] && Timed(s, b) && Overlap(s, b, key, k) && NoSuccess(s, b, key, 0, length)
    ensures var (front, e) := (b[..|b| - 1], b[|b| - 1]);
            && Timed(s, front) && Overlap(s, front, key, k) && NoSuccess(s, front, key, 0, length)
            && Run(s, b) == Step(Run(s, front), e) && |InFlight(Step(Run(s, front), e), key)| <= k
            && (e.Checked? ==> e.id !in Run(s, front).flying)
            && (e.now <= length ==> !Ends(Run(s, front), e, key, true))
            && Failures(s, b, key, 0, length) == Failures(s, front, key, 0, length)
               + if e.now <= length && Ends(Run(s, front), e, key, false) then 1 else 0
  {
  }

  function Flyers(from: nat, k: nat, key: string): map<nat, string> {
    map id | id in Interval(from, k) :: key
  }

  lemma FlyersSize(table: Table, from: nat, k: nat, key: string)
    requires from <= k
    ensures |InFlight(State(table, Flyers(from, k, key)), key)| == k - from
  {
    assert InFlight(State(table, Flyers(from, k, key)), key) == Interval(from, k);
    IntervalSize(from, k);
  }

  lemma StageNothing(s: State, key: string, k: nat, t: nat, length: nat)
    requires |InFlight(s, key)| <= k && t <= length
    ensures Stage(s, [], s, key, k, t, length, 0)
  {
  }

  lemma {:induction false} ChecksPass(table: Table, key: string, pin: string, j: nat, k: nat, t: nat, length: nat)
    requires ValidPin(pin) && !Locked(table, key, t) && j <= k && t <= length
    ensures Stage(State(table, map[]), Checks(key, pin, j, t), State(table, Flyers(0, j, key)), key, k, t, length, 0)
  {
    var s := State(table, map[]);
    FlyersSize(table, 0, j, key);
    if j == 0 {
      assert Flyers(0, 0, key) == map[];
      StageNothing(s, key, k, t, length);
    } else {
      var e := Checked(j - 1, key, pin, t);
      ChecksPass(table, key, pin, j - 1, k, t, length);
      assert Checks(key, pin, j, t) == Checks(key, pin, j - 1, t) + [e];
      assert Flyers(0, j - 1, key)[j - 1 := key] == Flyers(0, j, key);
      OneMore(s, Checks(key, pin, j - 1, t), State(table, Flyers(0, j - 1, key)), e, key, k, t, length, 0);
    }
  }

  /** The table after `j` more failures at `t`. */
  function After(table: Table, key: string, j: nat, t: nat): Table {
    if j == 0 then table else Recorded(After(table, key, j - 1, t), key, false, t)
  }

  lemma {:induction false} FailsFail(table: Table, key: string, j: nat, k: nat, t: nat, length: nat)
    requires j <= k && t <= length
    ensures Stage(State(table, Flyers(0, k, key)), Fails(j, t), State(After(table, key, j, t), Flyers(j, k, key)),
                  key, k, t, length, j)
  {
    var s := State(table, Flyers(0, k, key));
    FlyersSize(After(table, key, j, t), j, k, key);
    if j == 0 {
      StageNothing(s, key, k, t, length);
    } else {
      var e, tb := Done(j - 1, false, t), After(table, key, j - 1, t);
      FailsFail(table, key, j - 1, k, t, length);
      NextFails(tb, key, j - 1, k, t);
      assert Fails(j, t) == Fails(j - 1, t) + [e];
      OneMore(s, Fails(j - 1, t), State(tb, Flyers(j - 1, k, key)), e, key, k, t, length, j - 1);
    }
  }

  lemma NextFails(table: Table, key: string, j: nat, k: nat, t: nat)
    requires j < k
    ensures var (s, e) := (State(table, Flyers(j, k, key)), Done(j, false, t));
            Ends(s, e, key, false) && Step(s, e) == State(Recorded(table, key, false, t), Flyers(j + 1, k, key))
  {
    assert Flyers(j, k, key) - {j} == Flyers(j + 1, k, key);
  }

  /** `j` requests check together, then all fail. */
  function Burst(key: string, pin: string, j: nat, t: nat): seq<Event> {
    Checks(key, pin, j, t) + Fails(j, t)
  }

  lemma {:induction false} MoreOverlap(s: State, es: seq<Event>, key: string, j: nat, k: nat)
    requires Overlap(s, es, key, j) && j <= k
    ensures Overlap(s, es, key, k)
  {
    if es != [] { MoreOverlap(s, es[..|es| - 1], key, j, k); }
  }

  lemma BurstFails(table: Table, key: string, pin: string, j: nat, k: nat, t: nat, length: nat)
    requires ValidPin(pin) && !Locked(table, key, t) && j <= k && t <= length
    ensures Stage(State(table, map[]), Burst(key, pin, j, t), State(After(table, key, j, t), map[]), key, k, t, length,
                  j)
    ensures forall i :: 0 <= i < |Burst(key, pin, j, t)| ==> Burst(key, pin, j, t)[i].now == t
  {
    ChecksPass(table, key, pin, j, k, t, length);
    FailsFail(table, key, j, j, t, length);
    MoreOverlap(State(table, Flyers(0, j, key)), Fails(j, t), key, j, k);
    var idle, busy := State(table, map[]), State(table, Flyers(0, j, key));
    Join(idle, Checks(key, pin, j, t), busy, Fails(j, t), key, k, t, t, length, 0);
    assert Flyers(j, j, key) == map[];
  }

  lemma {:induction false} AfterCounts(table: Table, key: string, j: nat, t: nat)
    requires key in table ==> table[key].failures < MAX_PIN_ATTEMPTS ==> table[key].lockedUntil.None?
    ensures var (before, after) := (if key in table then table[key].failures else 0, After(table, key, j, t));
            && (j > 0 ==> key in after && after[key].failures == before + j)
            && (j > 0 ==> after[key].lockedUntil ==
                            if before + j >= MAX_PIN_ATTEMPTS then Some(t + PIN_LOCKOUT) else None)
  {
    if j > 0 { AfterCounts(table, key, j - 1, t); }
  }

  /** Two failures alone, then `k` at once, and `k` more as each lockout ends. */
  function Fastest(key: string, pin: string, k: nat, r: nat): seq<Event> {
    if r == 0 then Burst(key, pin, 1, 0) + Burst(key, pin, 1, 0) + Burst(key, pin, k, 0)
    else Fastest(key, pin, k, r - 1) + Burst(key, pin, k, r * PIN_LOCKOUT)
  }

  function FastestTable(key: string, k: nat, r: nat): Table {
    if r == 0 then After(After(After(map[], key, 1, 0), key, 1, 0), key, k, 0)
    else After(FastestTable(key, k, r - 1), key, k, r * PIN_LOCKOUT)
  }

  lemma {:induction false} FastestLocks(key: string, k: nat, r: nat)
    requires k >= 1
    ensures var table := FastestTable(key, k, r);
            && key in table && table[key].failures >= MAX_PIN_ATTEMPTS
            && table[key].lockedUntil == Some((r + 1) * PIN_LOCKOUT)
  {
    if r == 0 {
      AfterCounts(map[], key, 1, 0);
      AfterCounts(After(map[], key, 1, 0), key, 1, 0);
      AfterCounts(After(After(map[], key, 1, 0), key, 1, 0), key, k, 0);
    } else {
      FastestLocks(key, k, r - 1);
      AfterCounts(FastestTable(key, k, r - 1), key, k, r * PIN_LOCKOUT);
    }
  }

  lemma AddBurst(es: seq<Event>, table: Table, key: string, pin: string, j: nat, k: nat, t: nat, t': nat, length: nat,
                 n: nat)
    requires Stage(START, es, State(table, map[]), key, k, t, length, n) && t <= t' <= length
    requires ValidPin(pin) && !Locked(table, key, t') && j <= k
    ensures Stage(START, es + Burst(key, pin, j, t'), State(After(table, key, j, t'), map[]), key, k, t', length, n + j)
  {
    BurstFails(table, key, pin, j, k, t', length);
    Join(START, es, State(table, map[]), Burst(key, pin, j, t'), key, k, t, t', length, n);
  }

  lemma FastestStart(key: string, pin: string, k: nat, length: nat)
    requires ValidPin(pin) && k >= 1
    ensures Stage(START, Fastest(key, pin, k, 0), State(FastestTable(key, k, 0), map[]), key, k, 0, length, 2 + k)
  {
    var one := After(map[], key, 1, 0);
    var two := After(one, key, 1, 0);
    AfterCounts(map[], key, 1, 0);
    AfterCounts(one, key, 1, 0);
    assert !Locked(one, key, 0) && !Locked(two, key, 0);
    BurstFails(map[], key, pin, 1, k, 0, length);
    AddBurst(Burst(key, pin, 1, 0), one, key, pin, 1, k, 0, 0, length, 1);
    AddBurst(Burst(key, pin, 1, 0) + Burst(key, pin, 1, 0), two, key, pin, k, k, 0, 0, length, 2);
  }

  lemma {:induction false} FastestStage(key: string, pin: string, k: nat, r: nat, length: nat, n: nat)
    requires ValidPin(pin) && k >= 1 && r * PIN_LOCKOUT <= length && n == 2 + k * (r + 1)
    ensures Stage(START, Fastest(key, pin, k, r), State(FastestTable(key, k, r), map[]), key, k, r * PIN_LOCKOUT,
                  length, n)
  {
    if r == 0 {
      FastestStart(key, pin, k, length);
    } else {
      var t, t', table := (r - 1) * PIN_LOCKOUT, r * PIN_LOCKOUT, FastestTable(key, k, r - 1);
      assert n - k == 2 + k * r;
      FastestStage(key, pin, k, r - 1, length, n - k);
      assert !Locked(table, key, t') by { FastestLocks(key, k, r - 1); }
      AddBurst(Fastest(key, pin, k, r - 1), table, key, pin, k, k, t, t', length, n - k);
    }
  }

  /** The bound is met: for every length of time and every number of overlapping requests. */
  lemma BoundIsMet(key: string, pin: string, k: nat, length: nat)
    requires ValidPin(pin) && k >= 1
    ensures var es := Fastest(key, pin, k, length / PIN_LOCKOUT);
            && Timed(START, es) && Overlap(START, es, key, k) && NoSuccess(START, es, key, 0, length)
            && Failures(START, es, key, 0, length) == 2 + k * (length / PIN_LOCKOUT + 1)
  {
    FastestStage(key, pin, k, length / PIN_LOCKOUT, length, 2 + k * (length / PIN_LOCKOUT + 1));
  }
}
