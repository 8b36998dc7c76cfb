/** The per-key request limiter of the explorer API (explorer-api/src/middleware.ts): a counter per key
    and window, and a periodic cleanup.  Times are milliseconds. */
module RateLimiter {
  import opened Bytes

  const WINDOW_MS: int := 60_000
  const STALE_MS: int := 120_000

  datatype Entry = Entry(count: nat, windowStart: int)

  datatype Auth = Auth(apiKey: string, isMaster: bool)

  datatype Event = Request(auth: Option<Auth>, now: int) | Cleanup(now: int)

  function KeyOf(auth: Option<Auth>): string {
    if auth.Some? then auth.value.apiKey else "anonymous"
  }

  predicate IsMaster(auth: Option<Auth>) {
    auth.Some? && auth.value.isMaster
  }

  /** The entry a request is counted in, after counting it. */
  function Counted(entries: map<string, Entry>, key: string, now: int): Entry {
    if key !in entries || now - entries[key].windowStart > WINDOW_MS then Entry(1, now)
    else Entry(entries[key].count + 1, entries[key].windowStart)
  }

  function Cleaned(entries: map<string, Entry>, now: int): map<string, Entry> {
    map k | k in entries && now - entries[k].windowStart <= STALE_MS :: entries[k]
  }

  function Handled(entries: map<string, Entry>, e: Event): map<string, Entry> {
    match e
    case Request(auth, now) =>
      if IsMaster(auth) then entries else entries[KeyOf(auth) := Counted(entries, KeyOf(auth), now)]
    case Cleanup(now) => Cleaned(entries, now)
  }

  predicate Admitted(entries: map<string, Entry>, e: Event, limit: nat) {
    e.Request? && (IsMaster(e.auth) || Counted(entries, KeyOf(e.auth), e.now).count <= limit)
  }

  class Limiter {
    const perMinute: nat
    const burst: nat
    var entries: map<string, Entry>

    constructor (perMinute: nat, burst: nat)
      ensures this.perMinute == perMinute && this.burst == burst && entries == map[]
    {
      this.perMinute, this.burst, entries := perMinute, burst, map[];
    }

    method RateLimitMiddleware(auth: Option<Auth>, now: int) returns (admitted: bool)
      modifies this
      ensures entries == Handled(old(entries), Request(auth, now))
      ensures admitted == Admitted(old(entries), Request(auth, now), perMinute + burst)
    {
      var key := KeyOf(auth);
      if IsMaster(auth) { return true; }
      var entry := if key in entries then entries[key] else Entry(0, now);
      if key !in entries || now - entry.windowStart > WINDOW_MS {
        entry := Entry(0, now);
      }
      entry := entry.(count := entry.count + 1);
      entries := entries[key := entry];
      return entry.count <= perMinute + burst;
    }

    method CleanUp(now: int)
      modifies this
      ensures entries == Handled(old(entries), Cleanup(now))
    {
      var keys := entries.Keys;
      while keys != {}
        invariant keys <= entries.Keys
        invariant entries == map k | k in old(entries)
                                     && (k in keys || now - old(entries)[k].windowStart <= STALE_MS) :: old(entries)[k]
        decreases keys
      {
        var key :| key in keys;
        keys := keys - {key};
        if now - entries[key].windowStart > STALE_MS { entries := entries - {key}; }
      }
    }
  }

  // ------------------------------------------------------------------ cleaning up changes no answer

  function Run(trace: seq<Event>): map<string, Entry> {
    if trace == [] then map[] else Handled(Run(trace[..|trace| - 1]), trace[|trace| - 1])
  }

  /** The same limiter without its cleanup. */
  function RunForever(trace: seq<Event>): map<string, Entry> {
    if trace == [] then map[]
    else
      var before, e := RunForever(trace[..|trace| - 1]), trace[|trace| - 1];
      if e.Cleanup? then before else Handled(before, e)
  }

  /** The clock may step back, but never more than `drift` behind a reading made before. */
  predicate Drifts(trace: seq<Event>, drift: int) {
    forall i, j :: 0 <= i < j < |trace| ==> trace[j].now >= trace[i].now - drift
  }

  /** What cleanup took away was stale at some reading, all of which are at most `high`. */
  ghost predicate Agree(cleaned: map<string, Entry>, kept: map<string, Entry>, high: int) {
    && (forall k :: k in cleaned ==> k in kept && kept[k] == cleaned[k])
    && (forall k :: k in kept && k !in cleaned ==> high - kept[k].windowStart > STALE_MS)
  }

  lemma StepAgrees(cleaned: map<string, Entry>, kept: map<string, Entry>, high: int, e: Event)
    requires Agree(cleaned, kept, high) && e.now >= high - WINDOW_MS
    ensures e.Request? ==> forall limit :: Admitted(cleaned, e, limit) == Admitted(kept, e, limit)
    ensures Agree(Handled(cleaned, e), if e.Cleanup? then kept else Handled(kept, e),
                  if e.now > high then e.now else high)
  {
    if e.Request? && !IsMaster(e.auth) {
      assert Counted(cleaned, KeyOf(e.auth), e.now) == Counted(kept, KeyOf(e.auth), e.now);
    }
  }

  /** The latest reading so far. */
  function High(trace: seq<Event>): int
    requires trace != []
  {
    var e := trace[|trace| - 1];
    if |trace| == 1 || High(trace[..|trace| - 1]) < e.now then e.now else High(trace[..|trace| - 1])
  }

  lemma {:induction false} HighIsAReading(trace: seq<Event>)
    requires trace != []
    ensures exists i :: 0 <= i < |trace| && trace[i].now == High(trace)
  {
    var last := |trace| - 1;
    if trace[last].now != High(trace) {
      HighIsAReading(trace[..last]);
      var i :| 0 <= i < last && trace[..last][i].now == High(trace[..last]);
      assert trace[i].now == High(trace);
    }
  }

  lemma {:induction false} TablesAgree(trace: seq<Event>)
    requires Drifts(trace, WINDOW_MS)
    ensures trace != [] ==> Agree(Run(trace), RunForever(trace), High(trace))
    ensures trace == [] ==> Run(trace) == RunForever(trace)
  {
    if trace != [] {
      var front, e := trace[..|trace| - 1], trace[|trace| - 1];
      TablesAgree(front);
      if front == [] {
        StepAgrees(map[], map[], e.now, e);
      } else {
        HighIsAReading(front);
        StepAgrees(Run(front), RunForever(front), High(front), e);
      }
    }
  }

  /** On every trace whose clock falls back by at most a minute, the limiter that cleans up answers each
      request like the one that never does. */
  lemma CleanupIsInvisible(trace: seq<Event>, e: Event, limit: nat)
    requires Drifts(trace + [e], WINDOW_MS) && e.Request?
    ensures Admitted(Run(trace), e, limit) == Admitted(RunForever(trace), e, limit)
  {
    var all := trace + [e];
    assert forall i :: 0 <= i < |trace| ==> trace[i] == all[i];
    assert all[|trace|] == e;
    TablesAgree(trace);
    if trace != [] {
      HighIsAReading(trace);
      StepAgrees(Run(trace), RunForever(trace), High(trace), e);
    }
  }

  /** One millisecond more of drift and the answers can differ. */
  lemma MinuteIsSharp(auth: Option<Auth>)
    requires !IsMaster(auth)
    ensures var (trace, e) := ([Request(auth, 0), Cleanup(120_001)], Request(auth, 60_000));
            && Drifts(trace + [e], WINDOW_MS + 1)
            && Admitted(Run(trace), e, 1) && !Admitted(RunForever(trace), e, 1)
  {
    var r, trace := Request(auth, 0), [Request(auth, 0), Cleanup(120_001)];
    assert trace[..1] == [r] && [r][..0] == [];
    assert Run([r]) == map[KeyOf(auth) := Entry(1, 0)];
    assert RunForever([r]) == map[KeyOf(auth) := Entry(1, 0)];
    assert Run(trace) == Cleaned(Run([r]), 120_001) == map[];
    assert RunForever(trace) == RunForever([r]);
  }

  // ------------------------------------------------------------------ one caller and the others

  /** Callers count together if they give the same key, or none; a caller whose key is the word "anonymous" counts with
      those that give none. */
  predicate CountTogether(a: Option<Auth>, b: Option<Auth>) {
    match (a, b)
    case (Some(x), Some(y)) => x.apiKey == y.apiKey
    case (Some(x), None) => x.apiKey == "anonymous"
    case (None, Some(y)) => y.apiKey == "anonymous"
    case (None, None) => true
  }

  /** The trace without the requests of callers that do not count with this one, and without the master's. */
  function OnlyFor(trace: seq<Event>, auth: Option<Auth>): seq<Event> {
    if trace == [] then []
    else
      var front, e := OnlyFor(trace[..|trace| - 1], auth), trace[|trace| - 1];
      if e.Cleanup? || (CountTogether(e.auth, auth) && !(e.auth.Some? && e.auth.value.isMaster)) then front + [e]
      else front
  }

  /** The two tables agree on the key. */
  predicate SameFor(a: map<string, Entry>, b: map<string, Entry>, key: string) {
    (key in a <==> key in b) && (key in a ==> a[key] == b[key])
  }

  lemma RunMore(trace: seq<Event>, e: Event)
    ensures Run(trace + [e]) == Handled(Run(trace), e)
  {
    assert (trace + [e])[..|trace|] == trace;
  }

  lemma {:induction false} TableOfOne(trace: seq<Event>, auth: Option<Auth>)
    ensures SameFor(Run(trace), Run(OnlyFor(trace, auth)), KeyOf(auth))
  {
    if trace != [] {
      var front, e := trace[..|trace| - 1], trace[|trace| - 1];
      TableOfOne(front, auth);
      RunMore(OnlyFor(front, auth), e);
      StepForOne(Run(front), Run(OnlyFor(front, auth)), auth, e);
    }
  }

  /** An event leaves tables that agree on the key in agreement, and only those that count with it touch the entry. */
  lemma StepForOne(a: map<string, Entry>, b: map<string, Entry>, auth: Option<Auth>, e: Event)
    requires SameFor(a, b, KeyOf(auth))
    ensures SameFor(Handled(a, e), Handled(b, e), KeyOf(auth))
    ensures e.Request? && (!CountTogether(e.auth, auth) || (e.auth.Some? && e.auth.value.isMaster)) ==>
              SameFor(Handled(a, e), b, KeyOf(auth))
  {
  }

  /** What a caller is answered depends on their own requests and the cleanups alone, whatever others ask; the master is
      always let in, and counts for nobody. */
  lemma OthersDoNotCount(trace: seq<Event>, auth: Option<Auth>, now: int, limit: nat)
    ensures Admitted(Run(trace), Request(auth, now), limit)
            == Admitted(Run(OnlyFor(trace, auth)), Request(auth, now), limit)
    ensures auth.Some? && auth.value.isMaster ==>
              Admitted(Run(trace), Request(auth, now), limit) && Run(trace + [Request(auth, now)]) == Run(trace)
  {
    TableOfOne(trace, auth);
    RunMore(trace, Request(auth, now));
  }

  // ------------------------------------------------------------------ how many a minute admits

  predicate Counts(trace: seq<Event>, i: nat, key: string, from: int, to: int, limit: nat) {
    && i < |trace| && trace[i].Request? && !IsMaster(trace[i].auth) && KeyOf(trace[i].auth) == key
    && from <= trace[i].now <= to && AdmittedAt(trace, i, limit)
  }

  predicate AdmittedAt(trace: seq<Event>, i: nat, limit: nat)
    requires i < |trace|
  {
    Admitted(Run(trace[..i]), trace[i], limit)
  }

  lemma AnswersAgree(trace: seq<Event>, i: nat, limit: nat)
    requires Drifts(trace, 0) && i < |trace| && trace[i].Request?
    ensures AdmittedAt(trace, i, limit) == Admitted(RunForever(trace[..i]), trace[i], limit)
  {
    assert trace[..i] + [trace[i]] == trace[..i + 1];
    CleanupIsInvisible(trace[..i], trace[i], limit);
  }

  /** Requests of a key, other than the master's, admitted between two times, both included. */
  function Admissions(trace: seq<Event>, n: nat, key: string, from: int, to: int, limit: nat): nat
    requires n <= |trace|
  {
    if n == 0 then 0
    else Admissions(trace, n - 1, key, from, to, limit) + if Counts(trace, n - 1, key, from, to, limit) then 1 else 0
  }

  /** A window opened before the interval has spent one request outside it; at most one window opens inside. */
  ghost predicate Phase(entries: map<string, Entry>, key: string, from: int, limit: nat, admitted: nat) {
    admitted > 0 ==>
      && key in entries
      && (entries[key].windowStart < from ==> admitted < entries[key].count && admitted < limit)
      && (entries[key].windowStart >= from ==> admitted < limit + entries[key].count && admitted < 2 * limit)
  }

  lemma StepKeepsPhase(entries: map<string, Entry>, e: Event, key: string, from: int, limit: nat, admitted: nat)
    requires Phase(entries, key, from, limit, admitted)
    requires e.Request? && !IsMaster(e.auth) && KeyOf(e.auth) == key && from <= e.now <= from + WINDOW_MS
    requires key in entries ==> entries[key].count > 0 && entries[key].windowStart <= e.now
    ensures Phase(Handled(entries, e), key, from, limit, admitted + if Admitted(entries, e, limit) then 1 else 0)
  {
  }

  /** Requests of other keys, the master's and cleanups leave the phase alone. */
  lemma OthersKeepPhase(entries: map<string, Entry>, e: Event, key: string, from: int, limit: nat, admitted: nat)
    requires Phase(entries, key, from, limit, admitted)
    requires e.Cleanup? || IsMaster(e.auth) || KeyOf(e.auth) != key
    ensures Phase(if e.Cleanup? then entries else Handled(entries, e), key, from, limit, admitted)
  {
  }

  lemma RunForeverNext(trace: seq<Event>, n: nat)
    requires n < |trace|
    ensures RunForever(trace[..n + 1]) ==
            if trace[n].Cleanup? then RunForever(trace[..n]) else Handled(RunForever(trace[..n]), trace[n])
  {
    assert trace[..n + 1][..n] == trace[..n];
  }

  /** Entries count something and started at a reading made before. */
  lemma {:induction false} EntriesArePast(trace: seq<Event>, n: nat, now: int)
    requires n <= |trace| && forall i :: 0 <= i < n ==> trace[i].now <= now
    ensures var entries := RunForever(trace[..n]);
            forall k :: k in entries ==> entries[k].count > 0 && entries[k].windowStart <= now
  {
    if n > 0 {
      EntriesArePast(trace, n - 1, now);
      RunForeverNext(trace, n - 1);
    }
  }

  lemma {:induction false} NoneBefore(trace: seq<Event>, n: nat, key: string, from: int, to: int, limit: nat)
    requires n <= |trace| && forall i :: 0 <= i < n ==> trace[i].now < from
    ensures Admissions(trace, n, key, from, to, limit) == 0
  {
    if n > 0 { NoneBefore(trace, n - 1, key, from, to, limit); }
  }

  lemma {:induction false} EveryPhase(trace: seq<Event>, n: nat, key: string, from: int, limit: nat)
    requires Drifts(trace, 0) && n <= |trace| && forall i :: 0 <= i < n ==> trace[i].now <= from + WINDOW_MS
    ensures Phase(RunForever(trace[..n]), key, from, limit, Admissions(trace, n, key, from, from + WINDOW_MS, limit))
  {
    if n > 0 {
      var e, entries, to := trace[n - 1], RunForever(trace[..n - 1]), from + WINDOW_MS;
      EveryPhase(trace, n - 1, key, from, limit);
      RunForeverNext(trace, n - 1);
      var admitted := Admissions(trace, n - 1, key, from, to, limit);
      if e.now < from {
        NoneBefore(trace, n, key, from, to, limit);
      } else if e.Request? && !IsMaster(e.auth) && KeyOf(e.auth) == key {
        assert key in entries ==> entries[key].count > 0 && entries[key].windowStart <= e.now by {
          EntriesArePast(trace, n - 1, e.now);
        }
        assert Counts(trace, n - 1, key, from, to, limit) <==> Admitted(entries, e, limit) by {
          AnswersAgree(trace, n - 1, limit);
        }
        StepKeepsPhase(entries, e, key, from, limit, admitted);
      } else {
        OthersKeepPhase(entries, e, key, from, limit, admitted);
      }
    }
  }

  /** With its cleanup, any minute, both ends included, admits fewer than twice `perMinute + burst` requests
      of a key. */
  lemma {:induction false} MinuteIsLimited(trace: seq<Event>, n: nat, key: string, from: int, limit: nat)
    requires Drifts(trace, 0) && n <= |trace|
    ensures var admitted := Admissions(trace, n, key, from, from + WINDOW_MS, limit);
            admitted == 0 || admitted < 2 * limit
  {
    if n > 0 {
      if Counts(trace, n - 1, key, from, from + WINDOW_MS, limit) {
        EveryPhase(trace, n, key, from, limit);
      } else {
        MinuteIsLimited(trace, n - 1, key, from, limit);
      }
    }
  }

  // ------------------------------------------------------------------ the bound is met

  /** One request opens a window; as the window ends the rest of it is used, then all of the next. */
  ghost predicate Fastest(trace: seq<Event>, auth: Option<Auth>, limit: nat) {
    && |trace| == 2 * limit
    && forall i :: 0 <= i < |trace| ==> trace[i] == Request(auth, FastTime(i, limit))
  }

  function FastTime(i: nat, limit: nat): int {
    if i == 0 then 0 else if i < limit then WINDOW_MS else WINDOW_MS + 1
  }

  ghost predicate FastTable(entries: map<string, Entry>, key: string, limit: nat, n: nat) {
    && (n == 0 ==> key !in entries)
    && (n > 0 ==> key in entries && entries[key] == if n <= limit then Entry(n, 0) else Entry(n - limit, WINDOW_MS + 1))
  }

  lemma FastStep(entries: map<string, Entry>, auth: Option<Auth>, limit: nat, n: nat)
    requires FastTable(entries, KeyOf(auth), limit, n) && !IsMaster(auth) && n < 2 * limit
    ensures var e := Request(auth, FastTime(n, limit));
            Admitted(entries, e, limit) && FastTable(Handled(entries, e), KeyOf(auth), limit, n + 1)
  {
  }

  lemma {:induction false} FastTables(trace: seq<Event>, auth: Option<Auth>, limit: nat, n: nat)
    requires Fastest(trace, auth, limit) && !IsMaster(auth) && n <= |trace|
    ensures FastTable(RunForever(trace[..n]), KeyOf(auth), limit, n)
  {
    if n > 0 {
      FastTables(trace, auth, limit, n - 1);
      FastStep(RunForever(trace[..n - 1]), auth, limit, n - 1);
      RunForeverNext(trace, n - 1);
    }
  }

  lemma FastestIsAdmitted(trace: seq<Event>, auth: Option<Auth>, limit: nat, i: nat)
    requires Fastest(trace, auth, limit) && !IsMaster(auth) && i < |trace| && Drifts(trace, 0)
    ensures AdmittedAt(trace, i, limit)
  {
    FastTables(trace, auth, limit, i);
    FastStep(RunForever(trace[..i]), auth, limit, i);
    AnswersAgree(trace, i, limit);
  }

  lemma {:induction false} AllButFirst(trace: seq<Event>, n: nat, key: string, from: int, to: int, limit: nat)
    requires 0 < n <= |trace| && trace[0].now < from
    requires forall i :: 1 <= i < n ==> Counts(trace, i, key, from, to, limit)
    ensures Admissions(trace, n, key, from, to, limit) == n - 1
  {
    if n > 1 { AllButFirst(trace, n - 1, key, from, to, limit); }
  }

  /** For every limit some minute admits all but one of twice as many. */
  lemma BoundIsMet(trace: seq<Event>, auth: Option<Auth>, limit: nat)
    requires Fastest(trace, auth, limit) && !IsMaster(auth) && limit > 0
    ensures Drifts(trace, 0)
    ensures Admissions(trace, |trace|, KeyOf(auth), 1, 1 + WINDOW_MS, limit) == 2 * limit - 1
  {
    var to := 1 + WINDOW_MS;
    forall i | 1 <= i < |trace| ensures Counts(trace, i, KeyOf(auth), 1, to, limit) {
      FastestIsAdmitted(trace, auth, limit, i);
    }
    AllButFirst(trace, |trace|, KeyOf(auth), 1, 1 + WINDOW_MS, limit);
  }
}
