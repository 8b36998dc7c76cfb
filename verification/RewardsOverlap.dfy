/** Bridge points when calls of `awardBridgePoints` overlap (bridge-relayer/src/rewards.ts).  A call starts, asks
    its four queries in any order, judges what they answered, inserts the reward and then the bonus; other
    calls' steps may come in between.  Times are milliseconds of a clock that does not go back. */
module RewardsOverlap {
  import opened Bytes
  import opened Sequences
  import opened Rewards

  datatype Query = Existing | Prior | Recent | Latest

  const ALL_QUERIES: set<Query> := {Existing, Prior, Recent, Latest}

  datatype Stage = Asking(asked: set<Query>) | Passed | Paid

  /** A considered call under way, with what its queries have answered so far. */
  datatype Flight = Flight(user: nat, deposit: nat, now: int, context: Context, stage: Stage)

  const NOTHING_KNOWN: Context := Context(false, 0, 0, 0, 0, None)

  /** The steps of call `id`; `ok` says whether the insert goes through or throws. */
  datatype Event =
    | Begun(id: nat, user: nat, deposit: nat, now: int)
    | Asked(id: nat, query: Query, now: int)
    | Judged(id: nat, now: int)
    | Inserted(id: nat, ok: bool, now: int)
    | BonusTried(id: nat, ok: bool, now: int)

  datatype State = State(rows: seq<Award>, flying: map<nat, Flight>)

  const START: State := State([], map[])

  /** The context once one more query is answered from the rows as they are. */
  function Answered(rows: seq<Award>, f: Flight, q: Query): Context {
    var c := ContextOf(rows, f.user, f.deposit, f.now);
    match q
    case Existing => f.context.(hasBridgeReward := c.hasBridgeReward)
    case Prior => f.context.(priorBridges := c.priorBridges)
    case Recent =>
      f.context.(bridgesToday := c.bridgesToday, pointsToday := c.pointsToday, pointsWeek := c.pointsWeek)
    case Latest => f.context.(lastRewardAt := c.lastRewardAt)
  }

  function Ask(rows: seq<Award>, f: Flight, q: Query): Flight
    requires f.stage.Asking?
  {
    f.(context := Answered(rows, f, q), stage := Asking(f.stage.asked + {q}))
  }

  function WithBonus(rows: seq<Award>, f: Flight, at: int): seq<Award> {
    var bonus := BonusAward(f.user, f.deposit, f.context.priorBridges + 1, at);
    if bonus.None? then rows else Insert(rows, bonus.value)
  }

  /** The call is at the point where the event can come. */
  predicate Enabled(s: State, e: Event) {
    match e
    case Begun(_, _, _, _) => true
    case Asked(id, q, _) => id in s.flying && s.flying[id].stage.Asking? && q !in s.flying[id].stage.asked
    case Judged(id, _) => id in s.flying && s.flying[id].stage == Asking(ALL_QUERIES)
    case Inserted(id, _, _) => id in s.flying && s.flying[id].stage.Passed?
    case BonusTried(id, _, _) => id in s.flying && s.flying[id].stage.Paid?
  }

  function Step(s: State, e: Event): State {
    if !Enabled(s, e) then s
    else
      match e
      case Begun(id, user, deposit, now) =>
        s.(flying := s.flying[id := Flight(user, deposit, now, NOTHING_KNOWN, Asking({}))])
      case Asked(id, q, _) =>
        s.(flying := s.flying[id := Ask(s.rows, s.flying[id], q)])
      case Judged(id, now) =>
        var f := s.flying[id];
        if Judge(f.context, now).Proceed? then s.(flying := s.flying[id := f.(stage := Passed)])
        else s.(flying := s.flying - {id})
      case Inserted(id, ok, now) =>
        var f := s.flying[id];
        if ok then State(Insert(s.rows, CompleteAward(f.user, f.deposit, now)), s.flying[id := f.(stage := Paid)])
        else s.(flying := s.flying - {id})
      case BonusTried(id, ok, now) =>
        State(if ok then WithBonus(s.rows, s.flying[id], now) else s.rows, s.flying - {id})
  }

  function Run(s: State, es: seq<Event>): State {
    if es == [] then s else Step(Run(s, es[..|es| - 1]), es[|es| - 1])
  }

  /** The clock does not go back, and a call is numbered unlike those under way. */
  ghost predicate Timed(s: State, es: seq<Event>) {
    es == [] ||
    var (front, e) := (es[..|es| - 1], es[|es| - 1]);
    && Timed(s, front)
    && (front != [] ==> front[|front| - 1].now <= e.now)
    && (e.Begun? ==> e.id !in Run(s, front).flying)
  }

  /** The calls of a user that are under way. */
  function InFlight(s: State, user: nat): set<nat> {
    set id | id in s.flying && s.flying[id].user == user
  }

  /** At no time are more than `k` calls of the user under way. */
  ghost predicate Overlap(s: State, es: seq<Event>, user: nat, k: nat) {
    && |InFlight(Run(s, es), user)| <= k
    && (es != [] ==> Overlap(s, es[..|es| - 1], user, k))
  }

  // ------------------------------------------------------------------ what every interleaving keeps

  ghost predicate FlightSound(rows: seq<Award>, f: Flight, clock: int) {
    && f.now <= clock
    && (f.context.hasBridgeReward ==> Rewarded(rows, f.deposit))
    && (f.stage.Passed? ==> Judge(f.context, clock).Proceed?)
  }

  ghost predicate FlightsSound(rows: seq<Award>, flying: map<nat, Flight>, clock: int) {
    forall id :: id in flying ==> FlightSound(rows, flying[id], clock)
  }

  predicate KeysOnce(rows: seq<Award>) {
    forall i, j :: 0 <= i < j < |rows| ==> rows[i].key != rows[j].key
  }

  ghost predicate Sound(s: State, clock: int) {
    AllShaped(s.rows) && KeysOnce(s.rows) && FlightsSound(s.rows, s.flying, clock)
  }

  /** What passed the judgement still passes later. */
  lemma JudgedStays(c: Context, t: int, t': int)
    requires Judge(c, t).Proceed? && t <= t'
    ensures Judge(c, t').Proceed?
  {
  }

  lemma FlightsStaySound(rows: seq<Award>, flying: map<nat, Flight>, clock: int, clock': int)
    requires FlightsSound(rows, flying, clock) && clock <= clock'
    ensures FlightsSound(rows, flying, clock')
  {
    forall id | id in flying ensures FlightSound(rows, flying[id], clock') {
      var f := flying[id];
      if f.stage.Passed? { JudgedStays(f.context, clock, clock'); }
    }
  }

  lemma InsertKeepsSound(rows: seq<Award>, r: Award, flying: map<nat, Flight>, clock: int)
    requires AllShaped(rows) && KeysOnce(rows) && FlightsSound(rows, flying, clock) && Shaped(r)
    ensures AllShaped(Insert(rows, r)) && KeysOnce(Insert(rows, r)) && FlightsSound(Insert(rows, r), flying, clock)
  {
    forall id | id in flying ensures FlightSound(Insert(rows, r), flying[id], clock) {
      var f := flying[id];
      if Rewarded(rows, f.deposit) { InsertKeepsRewarded(rows, f.deposit); }
    }
  }

  lemma StepKeepsSound(s: State, e: Event, clock: int)
    requires Sound(s, clock) && clock <= e.now
    ensures Sound(Step(s, e), e.now)
  {
    FlightsStaySound(s.rows, s.flying, clock, e.now);
    if Enabled(s, e) {
      if e.Inserted? && e.ok {
        var f := s.flying[e.id];
        InsertKeepsSound(s.rows, CompleteAward(f.user, f.deposit, e.now), s.flying, e.now);
      } else if e.BonusTried? && e.ok {
        var f := s.flying[e.id];
        var bonus := BonusAward(f.user, f.deposit, f.context.priorBridges + 1, e.now);
        if bonus.Some? { InsertKeepsSound(s.rows, bonus.value, s.flying, e.now); }
      }
    }
  }

  // ------------------------------------------------------------------ the three limits

  /** A stretch of time that a limit is about: the seven days or the thirty minutes from a moment, or a UTC day. */
  datatype Limit = Week(from: int) | Day(day: int) | Cooldown(from: int)

  function Lo(limit: Limit): int {
    match limit
    case Week(from) => from
    case Day(day) => day * DAY_MS
    case Cooldown(from) => from
  }

  function Hi(limit: Limit): int {
    match limit
    case Week(from) => from + WEEK_MS
    case Day(day) => (day + 1) * DAY_MS - 1
    case Cooldown(from) => from + COOLDOWN_MS - 1
  }

  /** How many rewards a call may find in the stretch and still pass. */
  function Room(limit: Limit): nat {
    match limit
    case Week(_) => WEEKLY_POINTS_CAP / BRIDGE_POINTS - 1
    case Day(_) => MAX_BRIDGES_PER_DAY - 1
    case Cooldown(_) => 0
  }

  function Count(rows: seq<Award>, limit: Limit, user: nat): nat {
    BridgesIn(rows, user, Lo(limit), Hi(limit))
  }

  /** The query that the limit goes by has been answered, in the call's favour. */
  predicate Favoured(limit: Limit, f: Flight) {
    var c := f.context;
    match limit
    case Week(_) =>
      (f.stage.Asking? ==> Recent in f.stage.asked) && c.pointsWeek + BRIDGE_POINTS <= WEEKLY_POINTS_CAP
    case Day(_) => (f.stage.Asking? ==> Recent in f.stage.asked) && c.bridgesToday < MAX_BRIDGES_PER_DAY
    case Cooldown(from) =>
      (f.stage.Asking? ==> Latest in f.stage.asked) && (c.lastRewardAt.None? || c.lastRewardAt.value < from)
  }

  /** The call may yet add a reward to the stretch. */
  predicate Pending(rows: seq<Award>, limit: Limit, f: Flight, user: nat) {
    f.user == user && !f.stage.Paid? && f.now <= Hi(limit) && !Rewarded(rows, f.deposit) && Favoured(limit, f)
  }

  function AllPending(s: State, limit: Limit, user: nat): set<nat> {
    set id | id in s.flying && Pending(s.rows, limit, s.flying[id], user)
  }

  /** Rewards of the stretch and calls that may add one are at most the room and `k`. */
  ghost predicate Bounded(s: State, limit: Limit, user: nat, k: nat) {
    Count(s.rows, limit, user) + |AllPending(s, limit, user)| <= Room(limit) + k
  }

  lemma DaysApart(day: int, now: int)
    requires now < (day + 1) * DAY_MS
    ensures DayStart(now) <= day * DAY_MS
  {
    assert now / DAY_MS <= day;
  }

  lemma NoneInStretch(rows: seq<Award>, user: nat, lo: int, hi: int)
    requires forall i :: 0 <= i < |rows| && rows[i].user == user && rows[i].awardType.BridgeComplete? ==>
                           rows[i].at < lo
    ensures BridgesIn(rows, user, lo, hi) == 0
  {
    if rows != [] { NoneInStretch(rows[..|rows| - 1], user, lo, hi); }
  }

  /** A query answered in favour of a call leaves room in the stretch: it saw every reward there. */
  lemma FavouredSeesRoom(rows: seq<Award>, f: Flight, limit: Limit)
    requires AllShaped(rows) && !Rewarded(rows, f.deposit) && f.now <= Hi(limit)
    requires var c := ContextOf(rows, f.user, f.deposit, f.now);
             match limit
             case Week(_) => c.pointsWeek + BRIDGE_POINTS <= WEEKLY_POINTS_CAP
             case Day(_) => c.bridgesToday < MAX_BRIDGES_PER_DAY
             case Cooldown(from) => c.lastRewardAt.None? || c.lastRewardAt.value < from
    ensures Count(rows, limit, f.user) <= Room(limit)
  {
    var user, d := f.user, f.deposit;
    InAtMostSince(rows, user, Lo(limit), Hi(limit));
    match limit
    case Week(from) =>
      ExclusionIsEmpty(rows, user, f.now - WEEK_MS, d);
      LaterCountsFewer(rows, user, f.now - WEEK_MS, from, None);
      PointsPerBridge(rows, user, f.now - WEEK_MS, None);
    case Day(day) =>
      DaysApart(day, f.now);
      ExclusionIsEmpty(rows, user, DayStart(f.now), d);
      LaterCountsFewer(rows, user, DayStart(f.now), day * DAY_MS, None);
    case Cooldown(from) =>
      LastRewardIsLatest(rows, user, d);
      forall i | 0 <= i < |rows| && rows[i].user == user && rows[i].awardType.BridgeComplete?
        ensures rows[i].at < from
      {
        assert IsOtherReward(rows[i], user, d);
      }
      NoneInStretch(rows, user, from, Hi(limit));
  }

  /** A call that passed and inserts in the stretch was pending there. */
  lemma PassedIsPending(rows: seq<Award>, f: Flight, limit: Limit, at: int)
    requires FlightSound(rows, f, at) && f.stage.Passed? && !Rewarded(rows, f.deposit) && at <= Hi(limit)
    ensures Pending(rows, limit, f, f.user)
  {
  }

  lemma {:induction false} CountOfInsert(rows: seq<Award>, r: Award, limit: Limit, user: nat)
    ensures Count(Insert(rows, r), limit, user) <= Count(rows, limit, user) + 1
    ensures Count(Insert(rows, r), limit, user) > Count(rows, limit, user) ==>
              && Insert(rows, r) == rows + [r] && r.user == user && r.awardType.BridgeComplete?
              && (forall i :: 0 <= i < |rows| ==> rows[i].key != r.key)
              && Lo(limit) <= r.at <= Hi(limit)
  {
    assert (rows + [r])[..|rows|] == rows;
  }

  /** With more rewards no call becomes pending. */
  lemma PendingShrinks(rows: seq<Award>, r: Award, limit: Limit, f: Flight, user: nat)
    requires Pending(Insert(rows, r), limit, f, user)
    ensures Pending(rows, limit, f, user)
  {
    if Rewarded(rows, f.deposit) { InsertKeepsRewarded(rows, f.deposit); }
  }

  lemma FewerPending(s: State, s': State, limit: Limit, user: nat, k: nat)
    requires Bounded(s, limit, user, k) && Count(s'.rows, limit, user) <= Count(s.rows, limit, user)
    requires AllPending(s', limit, user) <= AllPending(s, limit, user)
    ensures Bounded(s', limit, user, k)
  {
    SubsetSize(AllPending(s', limit, user), AllPending(s, limit, user));
  }

  lemma AskedKeepsBound(s: State, e: Event, clock: int, limit: Limit, user: nat, k: nat)
    requires Sound(s, clock) && Bounded(s, limit, user, k) && e.Asked? && Enabled(s, e)
    requires |InFlight(Step(s, e), user)| <= k
    ensures Bounded(Step(s, e), limit, user, k)
  {
    var s', f := Step(s, e), s.flying[e.id];
    if Pending(s.rows, limit, s'.flying[e.id], user) && !Pending(s.rows, limit, f, user) {
      FavouredSeesRoom(s.rows, f, limit);
      SubsetSize(AllPending(s', limit, user), InFlight(s', user));
    } else {
      FewerPending(s, s', limit, user, k);
    }
  }

  lemma InsertedKeepsBound(s: State, e: Event, clock: int, limit: Limit, user: nat, k: nat)
    requires Sound(s, clock) && clock <= e.now && Bounded(s, limit, user, k) && e.Inserted? && e.ok && Enabled(s, e)
    ensures Bounded(Step(s, e), limit, user, k)
  {
    var s', f := Step(s, e), s.flying[e.id];
    var r := CompleteAward(f.user, f.deposit, e.now);
    CountOfInsert(s.rows, r, limit, user);
    forall id | id in AllPending(s', limit, user) ensures id in AllPending(s, limit, user) && id != e.id {
      PendingShrinks(s.rows, r, limit, s'.flying[id], user);
    }
    if Count(s'.rows, limit, user) > Count(s.rows, limit, user) {
      FreshDeposit(s.rows, f.deposit);
      FlightsStaySound(s.rows, s.flying, clock, e.now);
      PassedIsPending(s.rows, f, limit, e.now);
      SubsetSize(AllPending(s', limit, user), AllPending(s, limit, user) - {e.id});
    } else {
      FewerPending(s, s', limit, user, k);
    }
  }

  lemma BonusKeepsBound(s: State, id: nat, r: Award, limit: Limit, user: nat, k: nat)
    requires Bounded(s, limit, user, k) && !r.awardType.BridgeComplete?
    ensures Bounded(State(Insert(s.rows, r), s.flying - {id}), limit, user, k)
  {
    var s' := State(Insert(s.rows, r), s.flying - {id});
    CountOfInsert(s.rows, r, limit, user);
    forall i | i in AllPending(s', limit, user) ensures i in AllPending(s, limit, user) {
      PendingShrinks(s.rows, r, limit, s'.flying[i], user);
    }
    FewerPending(s, s', limit, user, k);
  }

  lemma BonusTriedKeepsBound(s: State, e: Event, limit: Limit, user: nat, k: nat)
    requires Bounded(s, limit, user, k) && e.BonusTried? && Enabled(s, e)
    ensures Bounded(Step(s, e), limit, user, k)
  {
    var f := s.flying[e.id];
    var bonus := BonusAward(f.user, f.deposit, f.context.priorBridges + 1, e.now);
    if e.ok && bonus.Some? {
      BonusKeepsBound(s, e.id, bonus.value, limit, user, k);
    } else {
      FewerPending(s, Step(s, e), limit, user, k);
    }
  }

  lemma StepKeepsBound(s: State, e: Event, clock: int, limit: Limit, user: nat, k: nat)
    requires Sound(s, clock) && clock <= e.now && Bounded(s, limit, user, k)
    requires |InFlight(Step(s, e), user)| <= k
    requires e.Begun? ==> e.id !in s.flying
    ensures Bounded(Step(s, e), limit, user, k)
  {
    if Enabled(s, e) {
      match e
      case Asked(_, _, _) => AskedKeepsBound(s, e, clock, limit, user, k);
      case Inserted(_, ok, _) =>
        if ok { InsertedKeepsBound(s, e, clock, limit, user, k); } else { FewerPending(s, Step(s, e), limit, user, k); }
      case BonusTried(_, _, _) => BonusTriedKeepsBound(s, e, limit, user, k);
      case _ => FewerPending(s, Step(s, e), limit, user, k);
    }
  }

  function Last(es: seq<Event>): int
    requires es != []
  {
    es[|es| - 1].now
  }

  lemma {:induction false} EveryInterleaving(es: seq<Event>)
    requires Timed(START, es)
    ensures es != [] ==> Sound(Run(START, es), Last(es))
    ensures AllShaped(Run(START, es).rows) && KeysOnce(Run(START, es).rows)
  {
    if es != [] {
      var front, e := es[..|es| - 1], es[|es| - 1];
      EveryInterleaving(front);
      StepKeepsSound(Run(START, front), e, if front == [] then e.now else Last(front));
    }
  }

  lemma {:induction false} EveryBound(es: seq<Event>, limit: Limit, user: nat, k: nat)
    requires Timed(START, es) && Overlap(START, es, user, k)
    ensures Bounded(Run(START, es), limit, user, k)
  {
    if es == [] {
      assert AllPending(START, limit, user) == {};
    } else {
      var front, e := es[..|es| - 1], es[|es| - 1];
      EveryInterleaving(front);
      EveryBound(front, limit, user, k);
      StepKeepsBound(Run(START, front), e, if front == [] then e.now else Last(front), limit, user, k);
    }
  }

  lemma {:induction false} PointsInPerBridge(rows: seq<Award>, user: nat, lo: int, hi: int)
    requires AllShaped(rows)
    ensures PointsIn(rows, user, lo, hi) == BRIDGE_POINTS * BridgesIn(rows, user, lo, hi)
  {
    if rows != [] { PointsInPerBridge(rows[..|rows| - 1], user, lo, hi); }
  }

  /** Rewarded bridges in the thirty minutes from a moment. */
  function CooldownBridges(rows: seq<Award>, user: nat, from: int): nat {
    BridgesIn(rows, user, from, from + COOLDOWN_MS - 1)
  }

  /** Over every interleaving in which at most `k` calls of a user are under way at once: any seven days hold at
      most 300 + 25 (k - 1) capped points of theirs, any UTC day at most k + 2 rewarded bridges, and any thirty
      minutes at most k.  With k = 1 these are the limits of the sequential runs. */
  lemma OverlapLimits(es: seq<Event>, user: nat, k: nat)
    requires Timed(START, es) && Overlap(START, es, user, k)
    ensures var rows := Run(START, es).rows;
            && (forall from: int :: WeekPoints(rows, user, from) <= WEEKLY_POINTS_CAP + BRIDGE_POINTS * (k - 1))
            && (forall day: int :: DayBridges(rows, user, day) <= MAX_BRIDGES_PER_DAY + k - 1)
            && (forall from: int :: CooldownBridges(rows, user, from) <= k)
  {
    var rows := Run(START, es).rows;
    EveryInterleaving(es);
    forall from: int ensures WeekPoints(rows, user, from) <= WEEKLY_POINTS_CAP + BRIDGE_POINTS * (k - 1) {
      EveryBound(es, Week(from), user, k);
      PointsInPerBridge(rows, user, from, from + WEEK_MS);
    }
    forall day: int ensures DayBridges(rows, user, day) <= MAX_BRIDGES_PER_DAY + k - 1 {
      EveryBound(es, Day(day), user, k);
    }
    forall from: int ensures CooldownBridges(rows, user, from) <= k {
      EveryBound(es, Cooldown(from), user, k);
    }
  }

  /** However many calls overlap, no deposit is rewarded twice and no user gets a bonus twice. */
  lemma OverlapPaysOnce(es: seq<Event>, i: nat, j: nat)
    requires Timed(START, es) && i < j < |Run(START, es).rows|
    ensures var (r, r') := (Run(START, es).rows[i], Run(START, es).rows[j]);
            r.awardType == r'.awardType ==>
              if r.awardType.BridgeComplete? then r.deposit != r'.deposit else r.user != r'.user
  {
    EveryInterleaving(es);
    var rows := Run(START, es).rows;
    assert Shaped(rows[i]) && Shaped(rows[j]);
  }

  // ------------------------------------------------------------------ one call on its own

  /** All four queries, each once, in any order. */
  predicate IsOrder(qs: seq<Query>) {
    Distinct(qs) && AskedIn(qs) == ALL_QUERIES
  }

  function AskedIn(qs: seq<Query>): set<Query> {
    set q | q in qs
  }

  function Questions(id: nat, qs: seq<Query>, now: int): seq<Event> {
    seq(|qs|, i requires 0 <= i < |qs| => Asked(id, qs[i], now))
  }

  lemma QuestionsNext(id: nat, qs: seq<Query>, now: int)
    requires qs != []
    ensures var (front, q) := (qs[..|qs| - 1], qs[|qs| - 1]);
            && Questions(id, qs, now) == Questions(id, front, now) + [Asked(id, q, now)]
            && AskedIn(qs) == AskedIn(front) + {q} && (Distinct(qs) ==> Distinct(front) && q !in AskedIn(front))
  {
    var front, q := qs[..|qs| - 1], qs[|qs| - 1];
    assert qs == front + [q];
  }

  /** A call with some of its queries answered, all at one moment. */
  function Asker(rows: seq<Award>, user: nat, d: nat, now: int, asked: set<Query>): Flight {
    var c := ContextOf(rows, user, d, now);
    Flight(user, d, now,
           Context(Existing in asked && c.hasBridgeReward, if Prior in asked then c.priorBridges else 0,
                   if Recent in asked then c.bridgesToday else 0, if Recent in asked then c.pointsToday else 0,
                   if Recent in asked then c.pointsWeek else 0, if Latest in asked then c.lastRewardAt else None),
           Asking(asked))
  }

  function Put(s: State, id: nat, f: Flight): State {
    s.(flying := s.flying[id := f])
  }

  lemma AskStep(s: State, id: nat, user: nat, d: nat, now: int, asked: set<Query>, q: Query)
    requires q !in asked
    ensures Step(Put(s, id, Asker(s.rows, user, d, now, asked)), Asked(id, q, now))
            == Put(s, id, Asker(s.rows, user, d, now, asked + {q}))
  {
  }

  lemma AllAsked(rows: seq<Award>, user: nat, d: nat, now: int)
    ensures Asker(rows, user, d, now, ALL_QUERIES)
            == Flight(user, d, now, ContextOf(rows, user, d, now), Asking(ALL_QUERIES))
  {
  }

  lemma RunMore(s: State, es: seq<Event>, e: Event)
    ensures Run(s, es + [e]) == Step(Run(s, es), e)
  {
    assert (es + [e])[..|es|] == es;
  }

  lemma {:induction false} RunQuestions(s: State, es: seq<Event>, id: nat, user: nat, d: nat, now: int, qs: seq<Query>)
    requires Run(s, es) == Put(s, id, Asker(s.rows, user, d, now, {})) && Distinct(qs)
    ensures Run(s, es + Questions(id, qs, now)) == Put(s, id, Asker(s.rows, user, d, now, AskedIn(qs)))
  {
    if qs == [] {
      assert es + Questions(id, qs, now) == es && AskedIn(qs) == {};
    } else {
      var front, q := qs[..|qs| - 1], qs[|qs| - 1];
      QuestionsNext(id, qs, now);
      RunQuestions(s, es, id, user, d, now, front);
      RunMore(s, es + Questions(id, front, now), Asked(id, q, now));
      assert es + Questions(id, qs, now) == es + Questions(id, front, now) + [Asked(id, q, now)];
      AskStep(s, id, user, d, now, AskedIn(front), q);
    }
  }

  function JudgedOf(id: nat, call: Call): Event {
    Judged(id, call.checkNow)
  }

  function InsertedOf(id: nat, call: Call): Event {
    Inserted(id, call.completeAt.Some?, if call.completeAt.Some? then call.completeAt.value else call.checkNow)
  }

  function BonusOf(id: nat, call: Call): Event {
    BonusTried(id, call.bonusAt.Some?, if call.bonusAt.Some? then call.bonusAt.value else InsertedOf(id, call).now)
  }

  /** All the steps of a considered call. */
  function Whole(id: nat, call: Call, order: seq<Query>): seq<Event>
    requires call.user.Some?
  {
    [Begun(id, call.user.value, call.deposit, call.now)] + Questions(id, order, call.now) + [JudgedOf(id, call)]
    + [InsertedOf(id, call)] + [BonusOf(id, call)]
  }

  /** A call whose steps nothing comes between does what the sequential model says, whatever the order of its
      queries. */
  lemma AloneIsAwarded(s: State, id: nat, call: Call, order: seq<Query>)
    requires Considered(call) && id !in s.flying && IsOrder(order)
    ensures Run(s, Whole(id, call, order)) == State(Awarded(s.rows, call), s.flying)
  {
    var user, d, es := call.user.value, call.deposit, [Begun(id, call.user.value, call.deposit, call.now)];
    RunMore(s, [], es[0]);
    assert [] + es == es && es[..0] == [];
    assert Run(s, es) == Put(s, id, Asker(s.rows, user, d, call.now, {}));
    RunQuestions(s, es, id, user, d, call.now, order);
    es := es + Questions(id, order, call.now);
    RunMore(s, es, JudgedOf(id, call));
    RunMore(s, es + [JudgedOf(id, call)], InsertedOf(id, call));
    RunMore(s, es + [JudgedOf(id, call)] + [InsertedOf(id, call)], BonusOf(id, call));
    AllAsked(s.rows, user, d, call.now);
    AloneSteps(s, id, call, Asker(s.rows, user, d, call.now, ALL_QUERIES));
  }

  lemma AloneSteps(s: State, id: nat, call: Call, f: Flight)
    requires Considered(call) && id !in s.flying
    requires f == Flight(call.user.value, call.deposit, call.now,
                         ContextOf(s.rows, call.user.value, call.deposit, call.now), Asking(ALL_QUERIES))
    ensures Step(Step(Step(Put(s, id, f), JudgedOf(id, call)), InsertedOf(id, call)), BonusOf(id, call))
            == State(Awarded(s.rows, call), s.flying)
  {
    assert s.flying[id := f] - {id} == s.flying;
    var s1 := Step(Put(s, id, f), JudgedOf(id, call));
    AwardedShape(s.rows, call);
    if Judge(f.context, call.checkNow).Proceed? {
      assert s1 == Put(s, id, f.(stage := Passed));
      assert s1.flying - {id} == s.flying;
      var s2 := Step(s1, InsertedOf(id, call));
      if call.completeAt.Some? {
        assert s2 == State(WithReward(s.rows, call), s.flying[id := f.(stage := Paid)]);
        assert s2.flying - {id} == s.flying;
      } else {
        assert s2 == s;
      }
    } else {
      assert s1 == s;
    }
  }

  // ------------------------------------------------------------------ the bounds are met

  /** When the user's rewards came, in the order of the table. */
  function Times(rows: seq<Award>, user: nat): seq<int> {
    if rows == [] then []
    else
      var last := rows[|rows| - 1];
      Times(rows[..|rows| - 1], user) + if last.user == user && last.awardType.BridgeComplete? then [last.at] else []
  }

  function CountIn(times: seq<int>, lo: int, hi: int): nat {
    if times == [] then 0
    else CountIn(times[..|times| - 1], lo, hi) + if lo <= times[|times| - 1] <= hi then 1 else 0
  }

  lemma CountSnoc(times: seq<int>, t: int, lo: int, hi: int)
    ensures CountIn(times + [t], lo, hi) == CountIn(times, lo, hi) + if lo <= t <= hi then 1 else 0
  {
    assert (times + [t])[..|times|] == times;
  }

  lemma {:induction false} CountsAreTimes(rows: seq<Award>, user: nat, lo: int, hi: int)
    ensures BridgesIn(rows, user, lo, hi) == CountIn(Times(rows, user), lo, hi)
  {
    if rows != [] {
      var front, last := rows[..|rows| - 1], rows[|rows| - 1];
      CountsAreTimes(front, user, lo, hi);
      CountSnoc(Times(front, user), last.at, lo, hi);
      assert Times(front, user) + [] == Times(front, user);
    }
  }

  lemma {:induction false} RewardInTimes(rows: seq<Award>, user: nat, i: nat)
    requires i < |rows| && rows[i].user == user && rows[i].awardType.BridgeComplete?
    ensures rows[i].at in Times(rows, user)
  {
    if i < |rows| - 1 { RewardInTimes(rows[..|rows| - 1], user, i); }
  }

  lemma {:induction false} InIsSince(rows: seq<Award>, user: nat, lo: int, hi: int)
    requires NotAfter(rows, hi)
    ensures BridgesIn(rows, user, lo, hi) == Bridges(rows, user, lo, None)
  {
    if rows != [] { InIsSince(rows[..|rows| - 1], user, lo, hi); }
  }

  /** The user's rewards are for the deposits 0, 1, 2, ... and came at `times`, none after `t`. */
  ghost predicate Ledger(rows: seq<Award>, user: nat, times: seq<int>, t: int) {
    && AllShaped(rows) && NotAfter(rows, t) && Times(rows, user) == times
    && (forall d: nat :: d >= |times| ==> !Rewarded(rows, d))
  }

  /** The limits let another reward through. */
  predicate Open(times: seq<int>, t: int) {
    && CountIn(times, DayStart(t), t) < MAX_BRIDGES_PER_DAY
    && BRIDGE_POINTS * CountIn(times, t - WEEK_MS, t) + BRIDGE_POINTS <= WEEKLY_POINTS_CAP
    && (forall i :: 0 <= i < |times| ==> t - times[i] >= COOLDOWN_MS)
  }

  lemma OpenPasses(rows: seq<Award>, user: nat, times: seq<int>, d: nat, t: int)
    requires Ledger(rows, user, times, t) && Open(times, t) && d >= |times|
    ensures Judge(ContextOf(rows, user, d, t), t).Proceed?
  {
    CountsAreTimes(rows, user, DayStart(t), t);
    CountsAreTimes(rows, user, t - WEEK_MS, t);
    InIsSince(rows, user, DayStart(t), t);
    InIsSince(rows, user, t - WEEK_MS, t);
    ExclusionIsEmpty(rows, user, DayStart(t), d);
    ExclusionIsEmpty(rows, user, t - WEEK_MS, d);
    PointsPerBridge(rows, user, DayStart(t), Some(d));
    PointsPerBridge(rows, user, t - WEEK_MS, Some(d));
    LastRewardIsLatest(rows, user, d);
    if LastReward(rows, user, d).Some? {
      var i :| 0 <= i < |rows| && IsOtherReward(rows[i], user, d) && rows[i].at == LastReward(rows, user, d).value;
      RewardInTimes(rows, user, i);
    }
  }

  lemma RewardKeepsLedger(rows: seq<Award>, user: nat, times: seq<int>, t: int)
    requires Ledger(rows, user, times, t)
    ensures Ledger(Insert(rows, CompleteAward(user, |times|, t)), user, times + [t], t)
  {
    var r := CompleteAward(user, |times|, t);
    FreshDeposit(rows, |times|);
    assert Insert(rows, r) == rows + [r] && (rows + [r])[..|rows|] == rows;
    forall d: nat | d >= |times + [t]| ensures !Rewarded(rows + [r], d) { RewardedSnoc(rows, r, d); }
  }

  lemma BonusRowKeepsLedger(rows: seq<Award>, r: Award, user: nat, times: seq<int>, t: int)
    requires Ledger(rows, user, times, t) && Shaped(r) && !r.awardType.BridgeComplete? && r.at <= t
    ensures Ledger(rows + [r], user, times, t)
  {
    assert Times(rows + [r], user) == times by { assert (rows + [r])[..|rows|] == rows && times + [] == times; }
    forall d: nat | d >= |times| ensures !Rewarded(rows + [r], d) { RewardedSnoc(rows, r, d); }
  }

  lemma BonusKeepsLedger(rows: seq<Award>, f: Flight, user: nat, times: seq<int>, t: int)
    requires Ledger(rows, user, times, t)
    ensures Ledger(WithBonus(rows, f, t), user, times, t)
  {
    var bonus := BonusAward(f.user, f.deposit, f.context.priorBridges + 1, t);
    if bonus.Some? { BonusRowKeepsLedger(rows, bonus.value, user, times, t); }
  }

  /** `es` is an interleaving within the rules of the bounds that leads to `s` by the time `t`. */
  ghost predicate Reaches(es: seq<Event>, s: State, user: nat, k: nat, t: int) {
    Run(START, es) == s && Timed(START, es) && Overlap(START, es, user, k) && (es != [] ==> Last(es) <= t)
  }

  lemma OneMore(es: seq<Event>, s: State, e: Event, s': State, user: nat, k: nat, t: int)
    requires Reaches(es, s, user, k, t) && t <= e.now && s' == Step(s, e) && |InFlight(s', user)| <= k
    requires e.Begun? ==> e.id !in s.flying
    ensures Reaches(es + [e], s', user, k, e.now)
  {
    assert (es + [e])[..|es|] == es;
  }

  lemma PutSize(s: State, id: nat, f: Flight, user: nat)
    requires f.user == user
    ensures |InFlight(Put(s, id, f), user)| <= |InFlight(s, user)| + 1
  {
    assert InFlight(Put(s, id, f), user) == InFlight(s, user) + {id};
  }

  function Passer(rows: seq<Award>, user: nat, d: nat, now: int): Flight {
    Flight(user, d, now, ContextOf(rows, user, d, now), Passed)
  }

  lemma AskMore(es: seq<Event>, s: State, id: nat, user: nat, d: nat, k: nat, now: int, asked: set<Query>, q: Query)
    requires Reaches(es, Put(s, id, Asker(s.rows, user, d, now, asked)), user, k, now)
    requires |InFlight(s, user)| < k && q !in asked
    ensures Reaches(es + [Asked(id, q, now)], Put(s, id, Asker(s.rows, user, d, now, asked + {q})), user, k, now)
  {
    var s0, s1 := Put(s, id, Asker(s.rows, user, d, now, asked)), Put(s, id, Asker(s.rows, user, d, now, asked + {q}));
    assert |InFlight(s1, user)| <= k by { PutSize(s, id, Asker(s.rows, user, d, now, asked + {q}), user); }
    assert Step(s0, Asked(id, q, now)) == s1 by { AskStep(s, id, user, d, now, asked, q); }
    OneMore(es, s0, Asked(id, q, now), s1, user, k, now);
  }

  lemma {:induction false} AskMany(es: seq<Event>, s: State, id: nat, user: nat, d: nat, k: nat, now: int,
                                   qs: seq<Query>)
    requires Reaches(es, Put(s, id, Asker(s.rows, user, d, now, {})), user, k, now)
    requires |InFlight(s, user)| < k && Distinct(qs)
    ensures Reaches(es + Questions(id, qs, now), Put(s, id, Asker(s.rows, user, d, now, AskedIn(qs))), user, k, now)
  {
    if qs == [] {
      assert es + Questions(id, qs, now) == es && AskedIn(qs) == {};
    } else {
      var front, q := qs[..|qs| - 1], qs[|qs| - 1];
      QuestionsNext(id, qs, now);
      AskMany(es, s, id, user, d, k, now, front);
      AskMore(es + Questions(id, front, now), s, id, user, d, k, now, AskedIn(front), q);
      assert es + Questions(id, qs, now) == es + Questions(id, front, now) + [Asked(id, q, now)];
    }
  }

  lemma EnterOne(es: seq<Event>, s: State, user: nat, k: nat, t: int, now: int, id: nat, d: nat)
      returns (es': seq<Event>)
    requires Reaches(es, s, user, k, t) && t <= now && id !in s.flying && |InFlight(s, user)| < k
    requires Judge(ContextOf(s.rows, user, d, now), now).Proceed?
    ensures Reaches(es', Put(s, id, Passer(s.rows, user, d, now)), user, k, now)
  {
    var order := [Existing, Prior, Recent, Latest];
    var s0, s1 := Put(s, id, Asker(s.rows, user, d, now, {})), Put(s, id, Asker(s.rows, user, d, now, ALL_QUERIES));
    assert |InFlight(s0, user)| <= k by { PutSize(s, id, Asker(s.rows, user, d, now, {}), user); }
    assert Step(s, Begun(id, user, d, now)) == s0;
    OneMore(es, s, Begun(id, user, d, now), s0, user, k, t);
    es' := es + [Begun(id, user, d, now)];
    assert AskedIn(order) == ALL_QUERIES;
    AskMany(es', s, id, user, d, k, now, order);
    es' := PassOne(es' + Questions(id, order, now), s, user, k, now, id, d);
  }

  lemma PassOne(es: seq<Event>, s: State, user: nat, k: nat, now: int, id: nat, d: nat) returns (es': seq<Event>)
    requires Reaches(es, Put(s, id, Asker(s.rows, user, d, now, ALL_QUERIES)), user, k, now)
    requires |InFlight(s, user)| < k && Judge(ContextOf(s.rows, user, d, now), now).Proceed?
    ensures Reaches(es', Put(s, id, Passer(s.rows, user, d, now)), user, k, now)
  {
    var f, f' := Asker(s.rows, user, d, now, ALL_QUERIES), Passer(s.rows, user, d, now);
    AllAsked(s.rows, user, d, now);
    assert |InFlight(Put(s, id, f'), user)| <= k by { PutSize(s, id, f', user); }
    OneMore(es, Put(s, id, f), Judged(id, now), Put(s, id, f'), user, k, now);
    es' := es + [Judged(id, now)];
  }

  /** The calls `from` up to `to` for the deposits from `n` on, all past their judgement on the same rows. */
  function Passers(rows: seq<Award>, user: nat, n: nat, now: int, from: nat, to: nat): map<nat, Flight> {
    map id | id in Interval(from, to) :: Passer(rows, user, n + id, now)
  }

  lemma PassersSize(rows: seq<Award>, rows': seq<Award>, user: nat, n: nat, now: int, from: nat, to: nat)
    requires from <= to
    ensures |InFlight(State(rows', Passers(rows, user, n, now, from, to)), user)| == to - from
  {
    assert InFlight(State(rows', Passers(rows, user, n, now, from, to)), user) == Interval(from, to);
    IntervalSize(from, to);
  }

  /** Every later deposit passes on these rows. */
  ghost predicate Admits(rows: seq<Award>, user: nat, n: nat, now: int) {
    forall d: nat :: d >= n ==> Judge(ContextOf(rows, user, d, now), now).Proceed?
  }

  lemma PassersMore(rows: seq<Award>, user: nat, n: nat, now: int, j: nat)
    ensures var before := Passers(rows, user, n, now, 0, j);
            && j !in before
            && before[j := Passer(rows, user, n + j, now)] == Passers(rows, user, n, now, 0, j + 1)
  {
  }

  lemma EnterNext(es: seq<Event>, rows: seq<Award>, user: nat, n: nat, k: nat, now: int, j: nat)
      returns (es': seq<Event>)
    requires Reaches(es, State(rows, Passers(rows, user, n, now, 0, j)), user, k, now) && j < k
    requires Judge(ContextOf(rows, user, n + j, now), now).Proceed?
    ensures Reaches(es', State(rows, Passers(rows, user, n, now, 0, j + 1)), user, k, now)
  {
    var s := State(rows, Passers(rows, user, n, now, 0, j));
    assert |InFlight(s, user)| < k by { PassersSize(rows, rows, user, n, now, 0, j); }
    PassersMore(rows, user, n, now, j);
    es' := EnterOne(es, s, user, k, now, now, j, n + j);
  }

  lemma {:induction false} EnterAll(es: seq<Event>, rows: seq<Award>, user: nat, n: nat, k: nat, t: int, now: int,
                                    j: nat)
      returns (es': seq<Event>)
    requires Reaches(es, State(rows, map[]), user, k, t) && t <= now && j <= k && Admits(rows, user, n, now)
    ensures Reaches(es', State(rows, Passers(rows, user, n, now, 0, j)), user, k, now)
  {
    if j == 0 {
      es' := es;
      assert Passers(rows, user, n, now, 0, 0) == map[];
    } else {
      es' := EnterAll(es, rows, user, n, k, t, now, j - 1);
      es' := EnterNext(es', rows, user, n, k, now, j - 1);
    }
  }

  lemma LeaveOne(es: seq<Event>, s: State, user: nat, k: nat, now: int, id: nat, times: seq<int>)
      returns (es': seq<Event>, rows': seq<Award>)
    requires Reaches(es, s, user, k, now) && |InFlight(s, user)| <= k && id in s.flying
    requires s.flying[id].user == user && s.flying[id].stage.Passed? && s.flying[id].deposit == |times|
    requires Ledger(s.rows, user, times, now)
    ensures Reaches(es', State(rows', s.flying - {id}), user, k, now) && Ledger(rows', user, times + [now], now)
  {
    var f := s.flying[id];
    var paid := State(Insert(s.rows, CompleteAward(user, |times|, now)), s.flying[id := f.(stage := Paid)]);
    assert InFlight(paid, user) == InFlight(s, user);
    OneMore(es, s, Inserted(id, true, now), paid, user, k, now);
    RewardKeepsLedger(s.rows, user, times, now);
    rows' := WithBonus(paid.rows, f, now);
    BonusKeepsLedger(paid.rows, f, user, times + [now], now);
    var gone := State(rows', s.flying - {id});
    assert paid.flying - {id} == s.flying - {id};
    SubsetSize(InFlight(gone, user), InFlight(s, user));
    OneMore(es + [Inserted(id, true, now)], paid, BonusTried(id, true, now), gone, user, k, now);
    es' := es + [Inserted(id, true, now)] + [BonusTried(id, true, now)];
  }

  function Copies(t: int, j: nat): seq<int> {
    seq(j, _ => t)
  }

  lemma PassersLess(rows: seq<Award>, user: nat, n: nat, now: int, j: nat, m: nat)
    requires j < m
    ensures var all := Passers(rows, user, n, now, j, m);
            && all - {j} == Passers(rows, user, n, now, j + 1, m)
            && j in all && all[j] == Passer(rows, user, n + j, now)
  {
  }

  lemma LeaveNext(es: seq<Event>, rows: seq<Award>, rows': seq<Award>, user: nat, times: seq<int>, n: nat, k: nat,
                  now: int, j: nat, m: nat)
      returns (es': seq<Event>, rows'': seq<Award>)
    requires Reaches(es, State(rows', Passers(rows, user, n, now, j, m)), user, k, now) && j < m <= k
    requires Ledger(rows', user, times, now) && |times| == n + j
    ensures Reaches(es', State(rows'', Passers(rows, user, n, now, j + 1, m)), user, k, now)
    ensures Ledger(rows'', user, times + [now], now)
  {
    var s := State(rows', Passers(rows, user, n, now, j, m));
    assert |InFlight(s, user)| <= k by { PassersSize(rows, rows', user, n, now, j, m); }
    PassersLess(rows, user, n, now, j, m);
    es', rows'' := LeaveOne(es, s, user, k, now, j, times);
  }

  lemma {:induction false} LeaveAll(es: seq<Event>, rows: seq<Award>, user: nat, times: seq<int>, k: nat, now: int,
                                    j: nat, m: nat)
      returns (es': seq<Event>, rows': seq<Award>)
    requires Reaches(es, State(rows, Passers(rows, user, |times|, now, 0, m)), user, k, now) && j <= m <= k
    requires Ledger(rows, user, times, now)
    ensures Reaches(es', State(rows', Passers(rows, user, |times|, now, j, m)), user, k, now)
    ensures Ledger(rows', user, times + Copies(now, j), now)
  {
    if j == 0 {
      es', rows' := es, rows;
      assert times + Copies(now, 0) == times;
    } else {
      es', rows' := LeaveAll(es, rows, user, times, k, now, j - 1, m);
      es', rows' := LeaveNext(es', rows, rows', user, times + Copies(now, j - 1), |times|, k, now, j - 1, m);
      assert times + Copies(now, j - 1) + [now] == times + Copies(now, j);
    }
  }

  /** `j` calls are judged together, then all insert. */
  lemma Burst(es: seq<Event>, rows: seq<Award>, user: nat, times: seq<int>, k: nat, t: int, now: int, j: nat)
      returns (es': seq<Event>, rows': seq<Award>)
    requires Reaches(es, State(rows, map[]), user, k, t) && t <= now && j <= k
    requires Ledger(rows, user, times, now) && Open(times, now)
    ensures Reaches(es', State(rows', map[]), user, k, now) && Ledger(rows', user, times + Copies(now, j), now)
  {
    forall d: nat | d >= |times| ensures Judge(ContextOf(rows, user, d, now), now).Proceed? {
      OpenPasses(rows, user, times, d, now);
    }
    es' := EnterAll(es, rows, user, |times|, k, t, now, j);
    es', rows' := LeaveAll(es', rows, user, times, k, now, j, j);
    assert Passers(rows, user, |times|, now, j, j) == map[];
  }

  /** It happens: two calls of a user judged together are both rewarded at the same moment. */
  lemma OverlapBreaksCooldown(user: nat, t: int) returns (es: seq<Event>)
    ensures Timed(START, es) && Overlap(START, es, user, 2)
    ensures Times(Run(START, es).rows, user) == [t, t]
  {
    assert InFlight(START, user) == {};
    var rows;
    es, rows := Burst([], [], user, [], 2, t, t, 2);
    assert [] + Copies(t, 2) == [t, t];
  }

  /** Three rewards a day, thirty minutes apart. */
  function SpreadTime(i: nat): nat {
    i / 3 * DAY_MS + i % 3 * COOLDOWN_MS
  }

  function Spread(j: nat): seq<int> {
    seq(j, i requires 0 <= i < j => SpreadTime(i))
  }

  lemma SpreadNext(j: nat)
    ensures Spread(j + 1) == Spread(j) + [SpreadTime(j)] && SpreadTime(j) + COOLDOWN_MS <= SpreadTime(j + 1)
  {
  }

  lemma {:induction false} SpreadEarlier(i: nat, j: nat)
    requires i < j
    ensures SpreadTime(i) + COOLDOWN_MS <= SpreadTime(j)
  {
    SpreadNext(j - 1);
    if i < j - 1 { SpreadEarlier(i, j - 1); }
  }

  lemma InDay(i: nat, day: nat)
    ensures day * DAY_MS <= SpreadTime(i) <==> 3 * day <= i
  {
  }

  /** From the start of a day on, the rewards of that day and later ones. */
  lemma {:induction false} SpreadCounts(j: nat, day: nat, hi: int)
    requires SpreadTime(j) <= hi
    ensures CountIn(Spread(j), day * DAY_MS, hi) == if j <= 3 * day then 0 else j - 3 * day
  {
    if j > 0 {
      SpreadNext(j - 1);
      SpreadCounts(j - 1, day, hi);
      CountSnoc(Spread(j - 1), SpreadTime(j - 1), day * DAY_MS, hi);
      InDay(j - 1, day);
    }
  }

  lemma {:induction false} NoneCounted(times: seq<int>, lo: int, hi: int)
    requires forall i :: 0 <= i < |times| ==> times[i] < lo
    ensures CountIn(times, lo, hi) == 0
  {
    if times != [] { NoneCounted(times[..|times| - 1], lo, hi); }
  }

  lemma {:induction false} CountAtMost(times: seq<int>, lo: int, hi: int)
    ensures CountIn(times, lo, hi) <= |times|
  {
    if times != [] { CountAtMost(times[..|times| - 1], lo, hi); }
  }

  lemma {:induction false} CountCopies(times: seq<int>, t: int, j: nat, lo: int, hi: int)
    requires lo <= t <= hi
    ensures CountIn(times + Copies(t, j), lo, hi) == CountIn(times, lo, hi) + j
  {
    if j == 0 {
      assert times + Copies(t, 0) == times;
    } else {
      CountCopies(times, t, j - 1, lo, hi);
      CountSnoc(times + Copies(t, j - 1), t, lo, hi);
      assert times + Copies(t, j) == times + Copies(t, j - 1) + [t];
    }
  }

  lemma SpreadDayStart(j: nat)
    ensures DayStart(SpreadTime(j)) == j / 3 * DAY_MS
  {
    DayStartOf(j / 3, SpreadTime(j));
  }

  lemma SpreadIsOpen(j: nat)
    requires j <= 11
    ensures Open(Spread(j), SpreadTime(j))
  {
    var t := SpreadTime(j);
    SpreadDayStart(j);
    SpreadCounts(j, j / 3, t);
    CountAtMost(Spread(j), t - WEEK_MS, t);
    forall i | 0 <= i < j ensures t - Spread(j)[i] >= COOLDOWN_MS { SpreadEarlier(i, j); }
  }

  lemma {:induction false} SpreadRuns(user: nat, k: nat, j: nat) returns (es: seq<Event>, rows: seq<Award>)
    requires k >= 1 && j <= 11
    ensures Reaches(es, State(rows, map[]), user, k, SpreadTime(j)) && Ledger(rows, user, Spread(j), SpreadTime(j))
  {
    if j == 0 {
      es, rows := [], [];
      assert InFlight(START, user) == {};
    } else {
      es, rows := SpreadRuns(user, k, j - 1);
      var t := SpreadTime(j - 1);
      SpreadIsOpen(j - 1);
      es, rows := Burst(es, rows, user, Spread(j - 1), k, t, t, 1);
      SpreadNext(j - 1);
      assert Spread(j - 1) + Copies(t, 1) == Spread(j);
    }
  }

  /** The bounds are met, all three in one interleaving, for every number of overlapping calls: eleven rewards one
      at a time, three a day, and then `k` judged together. */
  lemma BoundsAreMet(user: nat, k: nat) returns (es: seq<Event>)
    requires k >= 1
    ensures Timed(START, es) && Overlap(START, es, user, k)
    ensures var rows := Run(START, es).rows;
            && WeekPoints(rows, user, 0) == WEEKLY_POINTS_CAP + BRIDGE_POINTS * (k - 1)
            && DayBridges(rows, user, 3) == MAX_BRIDGES_PER_DAY + k - 1
            && CooldownBridges(rows, user, SpreadTime(11)) == k
  {
    var rows, times, t := [], Spread(11), SpreadTime(11);
    es, rows := SpreadRuns(user, k, 11);
    SpreadIsOpen(11);
    es, rows := Burst(es, rows, user, times, k, t, t, k);
    MetCounts(rows, user, k);
  }

  lemma MetCounts(rows: seq<Award>, user: nat, k: nat)
    requires AllShaped(rows) && Times(rows, user) == Spread(11) + Copies(SpreadTime(11), k)
    ensures WeekPoints(rows, user, 0) == BRIDGE_POINTS * (11 + k) && DayBridges(rows, user, 3) == 2 + k
    ensures CooldownBridges(rows, user, SpreadTime(11)) == k
  {
    var t := SpreadTime(11);
    PointsInPerBridge(rows, user, 0, WEEK_MS);
    StretchCount(rows, user, k, 0, WEEK_MS);
    SpreadCounts(11, 0, WEEK_MS);
    StretchCount(rows, user, k, 3 * DAY_MS, 4 * DAY_MS - 1);
    SpreadCounts(11, 3, 4 * DAY_MS - 1);
    StretchCount(rows, user, k, t, t + COOLDOWN_MS - 1);
    forall i | 0 <= i < 11 ensures Spread(11)[i] < t { SpreadEarlier(i, 11); }
    NoneCounted(Spread(11), t, t + COOLDOWN_MS - 1);
  }

  lemma StretchCount(rows: seq<Award>, user: nat, k: nat, lo: int, hi: int)
    requires Times(rows, user) == Spread(11) + Copies(SpreadTime(11), k) && lo <= SpreadTime(11) <= hi
    ensures BridgesIn(rows, user, lo, hi) == CountIn(Spread(11), lo, hi) + k
  {
    CountsAreTimes(rows, user, lo, hi);
    CountCopies(Spread(11), SpreadTime(11), k, lo, hi);
  }
}
