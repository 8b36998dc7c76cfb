/** Bridge points (bridge-relayer/src/rewards.ts): the award table, the context read before an award and
    the limits it enforces.  Times are milliseconds.  One call reads the clock three times or more: for
    the context, for the cooldown test, and in the database when a row is inserted.  The table's
    idempotency key is unique, which is what the source's duplicate-key branch relies on. */
module Rewards {
  import opened Bytes

  const MIN_AMOUNT_RAW: nat := 25_000_000_000_000_000_000
  const TOKEN: nat := 1_000_000_000_000_000_000
  const BRIDGE_POINTS: nat := 25
  const COOLDOWN_MS: nat := 1_800_000
  const MAX_BRIDGES_PER_DAY: nat := 3
  const DAILY_POINTS_CAP: nat := 100
  const WEEKLY_POINTS_CAP: nat := 300
  const DAY_MS: nat := 24 * 60 * 60 * 1000
  const WEEK_MS: nat := 7 * DAY_MS

  datatype AwardType = BridgeComplete | FirstBonus | FifthBonus | TenthBonus

  datatype Key = DepositKey(deposit: nat) | UserKey(awardType: AwardType, user: nat)

  datatype Award = Award(user: nat, deposit: nat, awardType: AwardType, points: nat, capped: bool, at: int, key: Key)

  datatype Context = Context(hasBridgeReward: bool, priorBridges: nat, bridgesToday: nat, pointsToday: nat,
                             pointsWeek: nat, lastRewardAt: Option<int>)

  function DayStart(t: int): int {
    t / DAY_MS * DAY_MS
  }

  // ------------------------------------------------------------------ what the queries count

  predicate IsBridge(r: Award, user: nat, lo: int, excluded: Option<nat>) {
    r.user == user && r.awardType.BridgeComplete? && r.at >= lo && Some(r.deposit) != excluded
  }

  predicate IsCapped(r: Award, user: nat, lo: int, excluded: Option<nat>) {
    r.user == user && r.capped && r.at >= lo && Some(r.deposit) != excluded
  }

  /** Rewarded bridges of a user since `lo`, one deposit left out. */
  function Bridges(rows: seq<Award>, user: nat, lo: int, excluded: Option<nat>): nat {
    if rows == [] then 0
    else Bridges(rows[..|rows| - 1], user, lo, excluded)
         + if IsBridge(rows[|rows| - 1], user, lo, excluded) then 1 else 0
  }

  /** Points of a user under the cap since `lo`, one deposit left out. */
  function Points(rows: seq<Award>, user: nat, lo: int, excluded: Option<nat>): nat {
    if rows == [] then 0
    else Points(rows[..|rows| - 1], user, lo, excluded)
         + if IsCapped(rows[|rows| - 1], user, lo, excluded) then rows[|rows| - 1].points else 0
  }

  predicate Rewarded(rows: seq<Award>, deposit: nat) {
    exists i :: 0 <= i < |rows| && rows[i].deposit == deposit && rows[i].awardType.BridgeComplete?
  }

  /** `t` is the latest bridge reward of the user for another deposit; `None` if there is none. */
  predicate IsLastReward(rows: seq<Award>, user: nat, deposit: nat, t: Option<int>) {
    && (t.Some? ==> exists i :: 0 <= i < |rows| && IsOtherReward(rows[i], user, deposit) && rows[i].at == t.value)
    && (forall i :: 0 <= i < |rows| && IsOtherReward(rows[i], user, deposit) ==> t.Some? && rows[i].at <= t.value)
  }

  predicate IsOtherReward(r: Award, user: nat, deposit: nat) {
    r.user == user && r.deposit != deposit && r.awardType.BridgeComplete?
  }

  function LastReward(rows: seq<Award>, user: nat, deposit: nat): Option<int> {
    if rows == [] then None
    else
      var before, last := LastReward(rows[..|rows| - 1], user, deposit), rows[|rows| - 1];
      if IsOtherReward(last, user, deposit) && (before.None? || before.value <= last.at) then Some(last.at) else before
  }

  /** Rewarded bridges of a user at any time, one deposit left out. */
  function RewardCount(rows: seq<Award>, user: nat, excluded: Option<nat>): nat {
    if rows == [] then 0
    else
      var last := rows[|rows| - 1];
      RewardCount(rows[..|rows| - 1], user, excluded)
      + if last.user == user && last.awardType.BridgeComplete? && Some(last.deposit) != excluded then 1 else 0
  }

  function ContextOf(rows: seq<Award>, user: nat, deposit: nat, now: int): Context {
    Context(Rewarded(rows, deposit), RewardCount(rows, user, Some(deposit)),
            Bridges(rows, user, DayStart(now), Some(deposit)), Points(rows, user, DayStart(now), Some(deposit)),
            Points(rows, user, now - WEEK_MS, Some(deposit)), LastReward(rows, user, deposit))
  }

  // ------------------------------------------------------------------ one award

  datatype Verdict = Proceed | CooldownActive | DailyBridgesReached | DailyPointsReached | WeeklyPointsReached

  function Judge(c: Context, checkNow: int): Verdict {
    if c.hasBridgeReward then Proceed
    else if c.lastRewardAt.Some? && checkNow - c.lastRewardAt.value < COOLDOWN_MS then CooldownActive
    else if c.bridgesToday >= MAX_BRIDGES_PER_DAY then DailyBridgesReached
    else if c.pointsToday + BRIDGE_POINTS > DAILY_POINTS_CAP then DailyPointsReached
    else if c.pointsWeek + BRIDGE_POINTS > WEEKLY_POINTS_CAP then WeeklyPointsReached
    else Proceed
  }

  /** One call: the deposit, the clock readings, and which inserts the database lets through
      (`None` for an insert that throws). */
  datatype Call = Call(deposit: nat, user: Option<nat>, quantosToBase: bool, amountRaw: nat,
                       now: int, checkNow: int, completeAt: Option<int>, bonusAt: Option<int>)

  function Insert(rows: seq<Award>, r: Award): seq<Award> {
    if exists i :: 0 <= i < |rows| && rows[i].key == r.key then rows else rows + [r]
  }

  function CompleteAward(user: nat, deposit: nat, at: int): Award {
    Award(user, deposit, BridgeComplete, BRIDGE_POINTS, true, at, DepositKey(deposit))
  }

  function BonusPoints(t: AwardType): nat {
    match t
    case BridgeComplete => 0
    case FirstBonus => 200
    case FifthBonus => 100
    case TenthBonus => 150
  }

  function BonusAward(user: nat, deposit: nat, bridgeIndex: nat, at: int): Option<Award> {
    match bridgeIndex
    case 1 => Some(Award(user, deposit, FirstBonus, 200, false, at, UserKey(FirstBonus, user)))
    case 5 => Some(Award(user, deposit, FifthBonus, 100, false, at, UserKey(FifthBonus, user)))
    case 10 => Some(Award(user, deposit, TenthBonus, 150, false, at, UserKey(TenthBonus, user)))
    case _ => None
  }

  predicate Considered(call: Call) {
    call.quantosToBase && call.user.Some? && call.amountRaw >= MIN_AMOUNT_RAW
  }

  /** `awardBridgePoints` on the table's rows. */
  function Awarded(rows: seq<Award>, call: Call): seq<Award> {
    if !Considered(call) then rows
    else
      var c := ContextOf(rows, call.user.value, call.deposit, call.now);
      if !Judge(c, call.checkNow).Proceed? || call.completeAt.None? then rows
      else
        var rows' := Insert(rows, CompleteAward(call.user.value, call.deposit, call.completeAt.value));
        if call.bonusAt.None? then rows'
        else
          var bonus := BonusAward(call.user.value, call.deposit, c.priorBridges + 1, call.bonusAt.value);
          if bonus.None? then rows' else Insert(rows', bonus.value)
  }

  class AwardTable {
    var rows: seq<Award>

    constructor ()
      ensures rows == []
    {
      rows := [];
    }

    /** The four queries and the accumulation loop over the recent rows. */
    method GetRewardContext(user: nat, deposit: nat, now: int) returns (c: Context)
      ensures c == ContextOf(rows, user, deposit, now)
    {
      var has, prior, today, pointsToday, pointsWeek, last := false, 0, 0, 0, 0, None;
      var dayStart, weekAgo := DayStart(now), now - WEEK_MS;
      for i := 0 to |rows|
        invariant has <==> Rewarded(rows[..i], deposit)
        invariant prior == RewardCount(rows[..i], user, Some(deposit)) && last == LastReward(rows[..i], user, deposit)
        invariant today == Bridges(rows[..i], user, dayStart, Some(deposit))
        invariant pointsToday == Points(rows[..i], user, dayStart, Some(deposit))
        invariant pointsWeek == Points(rows[..i], user, weekAgo, Some(deposit))
      {
        var r := rows[i];
        assert rows[..i + 1][..i] == rows[..i] && rows[..i + 1][i] == r;
        RewardedSnoc(rows[..i], r, deposit);
        assert rows[..i + 1] == rows[..i] + [r];
        if r.deposit == deposit {
          if r.awardType.BridgeComplete? { has := true; }
        } else if r.user == user {
          if r.awardType.BridgeComplete? {
            prior := prior + 1;
            if last.None? || last.value <= r.at { last := Some(r.at); }
            if r.at >= weekAgo && r.at >= dayStart { today := today + 1; }
          }
          if r.capped && r.at >= weekAgo {
            pointsWeek := pointsWeek + r.points;
            if r.at >= dayStart { pointsToday := pointsToday + r.points; }
          }
        }
      }
      assert rows[..|rows|] == rows;
      c := Context(has, prior, today, pointsToday, pointsWeek, last);
    }

    method InsertAward(r: Award) returns (inserted: bool)
      modifies this
      ensures rows == Insert(old(rows), r)
      ensures inserted <==> rows != old(rows)
    {
      inserted := !exists i :: 0 <= i < |rows| && rows[i].key == r.key;
      if inserted { rows := rows + [r]; }
    }

    method AwardBridgePoints(call: Call)
      modifies this
      ensures rows == Awarded(old(rows), call)
    {
      if !call.quantosToBase { return; }
      if call.user.None? { return; }
      if call.amountRaw < MIN_AMOUNT_RAW { return; }
      var user := call.user.value;
      var c := GetRewardContext(user, call.deposit, call.now);
      if !c.hasBridgeReward {
        if c.lastRewardAt.Some? && call.checkNow - c.lastRewardAt.value < COOLDOWN_MS { return; }
        if c.bridgesToday >= MAX_BRIDGES_PER_DAY { return; }
        if c.pointsToday + BRIDGE_POINTS > DAILY_POINTS_CAP { return; }
        if c.pointsWeek + BRIDGE_POINTS > WEEKLY_POINTS_CAP { return; }
      }
      var bridgeIndex := c.priorBridges + 1;
      if call.completeAt.None? { return; }
      var _ := InsertAward(CompleteAward(user, call.deposit, call.completeAt.value));
      if call.bonusAt.None? { return; }
      var at := call.bonusAt.value;
      if bridgeIndex == 1 {
        var _ := InsertAward(Award(user, call.deposit, FirstBonus, 200, false, at, UserKey(FirstBonus, user)));
      }
      if bridgeIndex == 5 {
        var _ := InsertAward(Award(user, call.deposit, FifthBonus, 100, false, at, UserKey(FifthBonus, user)));
      }
      if bridgeIndex == 10 {
        var _ := InsertAward(Award(user, call.deposit, TenthBonus, 150, false, at, UserKey(TenthBonus, user)));
      }
    }
  }

  lemma RewardedSnoc(rows: seq<Award>, r: Award, deposit: nat)
    ensures Rewarded(rows + [r], deposit) <==>
            Rewarded(rows, deposit) || (r.deposit == deposit && r.awardType.BridgeComplete?)
  {
    var all := rows + [r];
    if Rewarded(rows, deposit) {
      var i :| 0 <= i < |rows| && rows[i].deposit == deposit && rows[i].awardType.BridgeComplete?;
      assert all[i] == rows[i];
    }
    assert all[|rows|] == r;
  }

  // ------------------------------------------------------------------ what every run keeps

  /** The fields of a row agree with its type. */
  predicate Shaped(r: Award) {
    if r.awardType.BridgeComplete? then r.points == BRIDGE_POINTS && r.capped && r.key == DepositKey(r.deposit)
    else !r.capped && r.key == UserKey(r.awardType, r.user) && r.points == BonusPoints(r.awardType)
  }

  predicate AllShaped(rows: seq<Award>) {
    forall i :: 0 <= i < |rows| ==> Shaped(rows[i])
  }

  /** A row was legal for the rows before it. */
  ghost predicate Legal(before: seq<Award>, r: Award) {
    && (forall i :: 0 <= i < |before| ==> before[i].at <= r.at && before[i].key != r.key)
    && Shaped(r)
    && (r.awardType.BridgeComplete? ==>
          && Points(before, r.user, r.at - WEEK_MS, None) + BRIDGE_POINTS <= WEEKLY_POINTS_CAP
          && Bridges(before, r.user, DayStart(r.at), None) < MAX_BRIDGES_PER_DAY
          && (forall i :: 0 <= i < |before| && before[i].user == r.user && before[i].awardType.BridgeComplete? ==>
                r.at - before[i].at >= COOLDOWN_MS))
  }

  ghost predicate Inv(rows: seq<Award>) {
    forall j :: 0 <= j < |rows| ==> Legal(rows[..j], rows[j])
  }

  lemma InvShaped(rows: seq<Award>)
    requires Inv(rows)
    ensures AllShaped(rows)
  {
    forall i | 0 <= i < |rows| ensures Shaped(rows[i]) {
      assert Legal(rows[..i], rows[i]);
    }
  }

  lemma InvSnoc(rows: seq<Award>, r: Award)
    requires Inv(rows) && Legal(rows, r)
    ensures Inv(rows + [r])
  {
    var all := rows + [r];
    forall j | 0 <= j < |all| ensures Legal(all[..j], all[j]) {
      assert all[..j] == rows[..j];
      assert j == |rows| ==> rows[..j] == rows;
    }
  }

  ghost predicate NotAfter(rows: seq<Award>, t: int) {
    forall i :: 0 <= i < |rows| ==> rows[i].at <= t
  }

  /** The clock readings of a call do not go back. */
  predicate Ordered(call: Call) {
    && call.now <= call.checkNow
    && (call.completeAt.Some? ==> call.checkNow <= call.completeAt.value)
    && (call.completeAt.Some? && call.bonusAt.Some? ==> call.completeAt.value <= call.bonusAt.value)
  }

  function End(call: Call): int {
    if call.completeAt.None? then call.checkNow
    else if call.bonusAt.None? then call.completeAt.value
    else call.bonusAt.value
  }

  lemma {:induction false} LaterCountsFewer(rows: seq<Award>, user: nat, lo: int, lo': int, excluded: Option<nat>)
    requires lo <= lo'
    ensures Points(rows, user, lo', excluded) <= Points(rows, user, lo, excluded)
    ensures Bridges(rows, user, lo', excluded) <= Bridges(rows, user, lo, excluded)
  {
    if rows != [] { LaterCountsFewer(rows[..|rows| - 1], user, lo, lo', excluded); }
  }

  lemma InvPrefix(rows: seq<Award>)
    requires Inv(rows) && rows != []
    ensures Inv(rows[..|rows| - 1]) && Legal(rows[..|rows| - 1], rows[|rows| - 1])
  {
    var front := rows[..|rows| - 1];
    forall j | 0 <= j < |front| ensures Legal(front[..j], front[j]) {
      assert front[..j] == rows[..j];
    }
  }

  /** Leaving out a deposit without a reward leaves out nothing. */
  lemma {:induction false} ExclusionIsEmpty(rows: seq<Award>, user: nat, lo: int, deposit: nat)
    requires AllShaped(rows) && !Rewarded(rows, deposit)
    ensures Points(rows, user, lo, Some(deposit)) == Points(rows, user, lo, None)
    ensures Bridges(rows, user, lo, Some(deposit)) == Bridges(rows, user, lo, None)
  {
    if rows != [] {
      assert rows == rows[..|rows| - 1] + [rows[|rows| - 1]];
      RewardedSnoc(rows[..|rows| - 1], rows[|rows| - 1], deposit);
      ExclusionIsEmpty(rows[..|rows| - 1], user, lo, deposit);
    }
  }

  /** Points under the cap are twenty-five for each rewarded bridge. */
  lemma {:induction false} PointsPerBridge(rows: seq<Award>, user: nat, lo: int, excluded: Option<nat>)
    requires AllShaped(rows)
    ensures Points(rows, user, lo, excluded) == BRIDGE_POINTS * Bridges(rows, user, lo, excluded)
  {
    if rows != [] { PointsPerBridge(rows[..|rows| - 1], user, lo, excluded); }
  }

  lemma {:induction false} LastRewardIsLatest(rows: seq<Award>, user: nat, deposit: nat)
    ensures IsLastReward(rows, user, deposit, LastReward(rows, user, deposit))
  {
    if rows != [] {
      LastRewardIsLatest(rows[..|rows| - 1], user, deposit);
      if LastReward(rows[..|rows| - 1], user, deposit).Some? {
        var i :| 0 <= i < |rows| - 1 && IsOtherReward(rows[i], user, deposit)
                 && rows[i].at == LastReward(rows[..|rows| - 1], user, deposit).value;
      }
    }
  }

  /** A judged reward is legal even though the clock moved on between the reading and the insert, and
      the day may have changed. */
  lemma CompleteIsLegal(rows: seq<Award>, call: Call)
    requires Inv(rows) && NotAfter(rows, call.now) && Ordered(call) && Considered(call) && call.completeAt.Some?
    requires !Rewarded(rows, call.deposit)
    requires Judge(ContextOf(rows, call.user.value, call.deposit, call.now), call.checkNow).Proceed?
    ensures Legal(rows, CompleteAward(call.user.value, call.deposit, call.completeAt.value))
  {
    var user, d, at := call.user.value, call.deposit, call.completeAt.value;
    InvShaped(rows);
    ExclusionIsEmpty(rows, user, call.now - WEEK_MS, d);
    ExclusionIsEmpty(rows, user, DayStart(call.now), d);
    LaterCountsFewer(rows, user, call.now - WEEK_MS, at - WEEK_MS, None);
    LaterCountsFewer(rows, user, DayStart(call.now), DayStart(at), None);
    LastRewardIsLatest(rows, user, d);
    forall i | 0 <= i < |rows| && rows[i].user == user && rows[i].awardType.BridgeComplete?
      ensures at - rows[i].at >= COOLDOWN_MS
    {
      assert IsOtherReward(rows[i], user, d);
    }
    FreshDeposit(rows, d);
  }

  lemma FreshDeposit(rows: seq<Award>, d: nat)
    requires AllShaped(rows)
    ensures !Rewarded(rows, d) <==> forall i :: 0 <= i < |rows| ==> rows[i].key != DepositKey(d)
  {
    if Rewarded(rows, d) {
      var i :| 0 <= i < |rows| && rows[i].deposit == d && rows[i].awardType.BridgeComplete?;
      assert Shaped(rows[i]);
    } else {
      assert forall i :: 0 <= i < |rows| ==> Shaped(rows[i]);
    }
  }

  lemma InsertKeeps(rows: seq<Award>, r: Award)
    requires Inv(rows) && NotAfter(rows, r.at)
    requires (forall i :: 0 <= i < |rows| ==> rows[i].key != r.key) ==> Legal(rows, r)
    ensures Inv(Insert(rows, r)) && NotAfter(Insert(rows, r), r.at)
  {
    if forall i :: 0 <= i < |rows| ==> rows[i].key != r.key {
      InvSnoc(rows, r);
    }
  }

  lemma CompleteKeepsInv(rows: seq<Award>, call: Call)
    requires Inv(rows) && NotAfter(rows, call.now) && Ordered(call) && Considered(call) && call.completeAt.Some?
    requires Judge(ContextOf(rows, call.user.value, call.deposit, call.now), call.checkNow).Proceed?
    ensures var r := CompleteAward(call.user.value, call.deposit, call.completeAt.value);
            Inv(Insert(rows, r)) && NotAfter(Insert(rows, r), r.at)
  {
    InvShaped(rows);
    FreshDeposit(rows, call.deposit);
    if !Rewarded(rows, call.deposit) { CompleteIsLegal(rows, call); }
    InsertKeeps(rows, CompleteAward(call.user.value, call.deposit, call.completeAt.value));
  }

  lemma BonusKeepsInv(rows: seq<Award>, user: nat, deposit: nat, bridgeIndex: nat, at: int)
    requires Inv(rows) && NotAfter(rows, at) && BonusAward(user, deposit, bridgeIndex, at).Some?
    ensures var r := BonusAward(user, deposit, bridgeIndex, at).value;
            Inv(Insert(rows, r)) && NotAfter(Insert(rows, r), at)
  {
    InsertKeeps(rows, BonusAward(user, deposit, bridgeIndex, at).value);
  }

  lemma AwardKeepsInv(rows: seq<Award>, call: Call)
    requires Inv(rows) && NotAfter(rows, call.now) && Ordered(call)
    ensures Inv(Awarded(rows, call)) && NotAfter(Awarded(rows, call), End(call))
  {
    if Considered(call) && call.completeAt.Some? {
      var user, d := call.user.value, call.deposit;
      var c := ContextOf(rows, user, d, call.now);
      if Judge(c, call.checkNow).Proceed? {
        CompleteKeepsInv(rows, call);
        if call.bonusAt.Some? && BonusAward(user, d, c.priorBridges + 1, call.bonusAt.value).Some? {
          var rows' := Insert(rows, CompleteAward(user, d, call.completeAt.value));
          BonusKeepsInv(rows', user, d, c.priorBridges + 1, call.bonusAt.value);
        }
      }
    }
  }

  function Run(calls: seq<Call>): seq<Award> {
    if calls == [] then [] else Awarded(Run(calls[..|calls| - 1]), calls[|calls| - 1])
  }

  /** A sequential run on a clock that does not go back. */
  predicate Sequential(calls: seq<Call>) {
    && (forall i :: 0 <= i < |calls| ==> Ordered(calls[i]))
    && (forall i, j :: 0 <= i < j < |calls| ==> End(calls[i]) <= calls[j].now)
  }

  lemma {:induction false} EveryRun(calls: seq<Call>)
    requires Sequential(calls)
    ensures Inv(Run(calls))
    ensures calls != [] ==> NotAfter(Run(calls), End(calls[|calls| - 1]))
  {
    if calls != [] {
      var before, call := calls[..|calls| - 1], calls[|calls| - 1];
      EveryRun(before);
      assert before != [] ==> before[|before| - 1] == calls[|calls| - 2];
      AwardKeepsInv(Run(before), call);
    }
  }

  // ------------------------------------------------------------------ the limits

  function PointsIn(rows: seq<Award>, user: nat, lo: int, hi: int): nat {
    if rows == [] then 0
    else
      var last := rows[|rows| - 1];
      PointsIn(rows[..|rows| - 1], user, lo, hi)
      + if IsCapped(last, user, lo, None) && last.at <= hi then last.points else 0
  }

  function BridgesIn(rows: seq<Award>, user: nat, lo: int, hi: int): nat {
    if rows == [] then 0
    else BridgesIn(rows[..|rows| - 1], user, lo, hi)
         + if IsBridge(rows[|rows| - 1], user, lo, None) && rows[|rows| - 1].at <= hi then 1 else 0
  }

  /** Capped points in the seven days from `lo`, both ends included. */
  function WeekPoints(rows: seq<Award>, user: nat, lo: int): nat {
    PointsIn(rows, user, lo, lo + WEEK_MS)
  }

  function DayBridges(rows: seq<Award>, user: nat, day: int): nat {
    BridgesIn(rows, user, day * DAY_MS, (day + 1) * DAY_MS - 1)
  }

  lemma {:induction false} InAtMostSince(rows: seq<Award>, user: nat, lo: int, hi: int)
    ensures PointsIn(rows, user, lo, hi) <= Points(rows, user, lo, None)
    ensures BridgesIn(rows, user, lo, hi) <= Bridges(rows, user, lo, None)
  {
    if rows != [] { InAtMostSince(rows[..|rows| - 1], user, lo, hi); }
  }

  lemma {:induction false} WeekHolds(rows: seq<Award>, user: nat, lo: int)
    requires Inv(rows)
    ensures WeekPoints(rows, user, lo) <= WEEKLY_POINTS_CAP
  {
    if rows != [] {
      var front, last := rows[..|rows| - 1], rows[|rows| - 1];
      InvPrefix(rows);
      WeekHolds(front, user, lo);
      InAtMostSince(front, user, lo, lo + WEEK_MS);
      if last.at <= lo + WEEK_MS { LaterCountsFewer(front, user, last.at - WEEK_MS, lo, None); }
    }
  }

  lemma DayStartOf(day: int, t: int)
    requires day * DAY_MS <= t < (day + 1) * DAY_MS
    ensures DayStart(t) == day * DAY_MS
  {
  }

  lemma {:induction false} DayHolds(rows: seq<Award>, user: nat, day: int)
    requires Inv(rows)
    ensures DayBridges(rows, user, day) <= MAX_BRIDGES_PER_DAY
  {
    if rows != [] {
      var front, last := rows[..|rows| - 1], rows[|rows| - 1];
      InvPrefix(rows);
      DayHolds(front, user, day);
      InAtMostSince(front, user, day * DAY_MS, (day + 1) * DAY_MS - 1);
      if day * DAY_MS <= last.at < (day + 1) * DAY_MS { DayStartOf(day, last.at); }
    }
  }

  lemma KeysOnce(rows: seq<Award>, i: nat, j: nat)
    requires Inv(rows) && i < j < |rows|
    ensures rows[i].key != rows[j].key
    ensures rows[i].awardType.BridgeComplete? && rows[j].awardType.BridgeComplete? && rows[i].user == rows[j].user ==>
              rows[j].at - rows[i].at >= COOLDOWN_MS
    ensures rows[i].awardType.BridgeComplete? && rows[j].awardType.BridgeComplete? ==>
              rows[i].deposit != rows[j].deposit
    ensures rows[i].awardType == rows[j].awardType && !rows[i].awardType.BridgeComplete? ==>
              rows[i].user != rows[j].user
  {
    assert Legal(rows[..j], rows[j]) && Legal(rows[..i], rows[i]);
    assert rows[..j][i] == rows[i];
  }

  /** Over every sequential run: any seven days, wherever they start, hold at most 300 capped points of a
      user; any UTC day at most three rewarded bridges; rewarded bridges of a user are at least thirty
      minutes apart; no deposit is rewarded twice and no user gets a bonus twice. */
  lemma RewardLimits(calls: seq<Call>)
    requires Sequential(calls)
    ensures var rows := Run(calls);
            && (forall user: nat, lo: int :: WeekPoints(rows, user, lo) <= 300)
            && (forall user: nat, day: int :: DayBridges(rows, user, day) <= 3)
            && (forall i, j :: 0 <= i < j < |rows|
                               && rows[i].awardType.BridgeComplete? && rows[j].awardType.BridgeComplete? ==>
                  && rows[i].deposit != rows[j].deposit
                  && (rows[i].user == rows[j].user ==> rows[j].at - rows[i].at >= 30 * 60 * 1000))
            && (forall i, j :: 0 <= i < j < |rows| && rows[i].awardType == rows[j].awardType ==>
                  rows[i].awardType.BridgeComplete? || rows[i].user != rows[j].user)
  {
    EveryRun(calls);
    var rows := Run(calls);
    forall user: nat, lo: int ensures WeekPoints(rows, user, lo) <= 300 {
      WeekHolds(rows, user, lo);
    }
    forall user: nat, day: int ensures DayBridges(rows, user, day) <= 3 {
      DayHolds(rows, user, day);
    }
    forall i, j | 0 <= i < j < |rows|
      ensures rows[i].awardType.BridgeComplete? && rows[j].awardType.BridgeComplete? ==>
                rows[i].deposit != rows[j].deposit
                && (rows[i].user == rows[j].user ==> rows[j].at - rows[i].at >= 30 * 60 * 1000)
      ensures rows[i].awardType == rows[j].awardType ==>
                rows[i].awardType.BridgeComplete? || rows[i].user != rows[j].user
    {
      KeysOnce(rows, i, j);
    }
  }

  /** What a row is worth: twenty-five capped points for a bridge, and 200, 100 and 150 besides the cap for the first,
      fifth and tenth. */
  lemma RowPoints(calls: seq<Call>, i: nat)
    requires Sequential(calls) && i < |Run(calls)|
    ensures var r := Run(calls)[i];
            match r.awardType
            case BridgeComplete => r.points == 25 && r.capped
            case FirstBonus => r.points == 200 && !r.capped
            case FifthBonus => r.points == 100 && !r.capped
            case TenthBonus => r.points == 150 && !r.capped
  {
    EveryRun(calls);
    InvShaped(Run(calls));
    assert Shaped(Run(calls)[i]);
  }

  /** The daily points cap is dead code: the daily bridge limit always answers first. */
  lemma DailyPointsNeverReached(calls: seq<Call>, user: nat, deposit: nat, now: int, checkNow: int)
    requires Sequential(calls)
    ensures !Judge(ContextOf(Run(calls), user, deposit, now), checkNow).DailyPointsReached?
  {
    EveryRun(calls);
    InvShaped(Run(calls));
    PointsPerBridge(Run(calls), user, DayStart(now), Some(deposit));
  }

  /** Thirty minutes have passed since every reward of the user. */
  predicate Cooled(rows: seq<Award>, user: nat, t: int) {
    forall i :: 0 <= i < |rows| && rows[i].user == user && rows[i].awardType.BridgeComplete? ==>
      t - rows[i].at >= COOLDOWN_MS
  }

  lemma CooledIff(rows: seq<Award>, user: nat, deposit: nat, t: int)
    requires !Rewarded(rows, deposit)
    ensures var last := LastReward(rows, user, deposit);
            Cooled(rows, user, t) <==> last.None? || t - last.value >= COOLDOWN_MS
  {
    LastRewardIsLatest(rows, user, deposit);
    assert forall i :: 0 <= i < |rows| && rows[i].user == user && rows[i].awardType.BridgeComplete? ==>
        IsOtherReward(rows[i], user, deposit);
  }

  lemma InsertKeepsRewarded(rows: seq<Award>, d: nat)
    requires Rewarded(rows, d)
    ensures forall r :: Rewarded(Insert(rows, r), d)
  {
    forall r ensures Rewarded(Insert(rows, r), d) {
      RewardedSnoc(rows, r, d);
    }
  }

  lemma ProceedIff(rows: seq<Award>, call: Call)
    requires Inv(rows) && Considered(call) && !Rewarded(rows, call.deposit)
    ensures var user := call.user.value;
            Judge(ContextOf(rows, user, call.deposit, call.now), call.checkNow).Proceed? <==>
              && Cooled(rows, user, call.checkNow)
              && Bridges(rows, user, DayStart(call.now), None) < MAX_BRIDGES_PER_DAY
              && Points(rows, user, call.now - WEEK_MS, None) + BRIDGE_POINTS <= WEEKLY_POINTS_CAP
  {
    var user, d := call.user.value, call.deposit;
    InvShaped(rows);
    ExclusionIsEmpty(rows, user, call.now - WEEK_MS, d);
    ExclusionIsEmpty(rows, user, DayStart(call.now), d);
    PointsPerBridge(rows, user, DayStart(call.now), Some(d));
    CooledIff(rows, user, d, call.checkNow);
  }

  lemma AwardedRewards(rows: seq<Award>, call: Call)
    requires Inv(rows)
    ensures Rewarded(Awarded(rows, call), call.deposit) <==>
              || Rewarded(rows, call.deposit)
              || (&& Considered(call) && call.completeAt.Some?
                  && Judge(ContextOf(rows, call.user.value, call.deposit, call.now), call.checkNow).Proceed?)
  {
    var d := call.deposit;
    if Considered(call) && call.completeAt.Some? {
      var complete := CompleteAward(call.user.value, d, call.completeAt.value);
      InvShaped(rows);
      FreshDeposit(rows, d);
      if Rewarded(rows, d) { InsertKeepsRewarded(rows, d); }
      RewardedSnoc(rows, complete, d);
      InsertKeepsRewarded(Insert(rows, complete), d);
    }
  }

  /** When a deposit gets its reward, in terms of the table alone: never too early and never withheld. */
  lemma RewardedIff(calls: seq<Call>, call: Call)
    requires Sequential(calls + [call])
    ensures var rows := Run(calls);
            Rewarded(Awarded(rows, call), call.deposit) <==>
              || Rewarded(rows, call.deposit)
              || (&& call.quantosToBase && call.user.Some? && call.amountRaw >= 25 * TOKEN && call.completeAt.Some?
                  && Cooled(rows, call.user.value, call.checkNow)
                  && Bridges(rows, call.user.value, DayStart(call.now), None) < MAX_BRIDGES_PER_DAY
                  && Points(rows, call.user.value, call.now - WEEK_MS, None) + BRIDGE_POINTS <= WEEKLY_POINTS_CAP)
  {
    var all := calls + [call];
    assert forall i :: 0 <= i < |calls| ==> calls[i] == all[i];
    EveryRun(calls);
    AwardedRewards(Run(calls), call);
    if Considered(call) && !Rewarded(Run(calls), call.deposit) {
      ProceedIff(Run(calls), call);
    }
  }

  /** A deposit in the other direction, without a user or of less than twenty-five tokens changes nothing. */
  lemma OthersEarnNothing(rows: seq<Award>, call: Call)
    requires !call.quantosToBase || call.user.None? || call.amountRaw < 25 * TOKEN
    ensures Awarded(rows, call) == rows
  {
  }

  // ------------------------------------------------------------------ the bonuses

  function Threshold(t: AwardType): nat {
    match t
    case BridgeComplete => 0
    case FirstBonus => 1
    case FifthBonus => 5
    case TenthBonus => 10
  }

  predicate HasBonus(rows: seq<Award>, user: nat, t: AwardType) {
    exists i :: 0 <= i < |rows| && rows[i].user == user && rows[i].awardType == t
  }

  ghost predicate BonusesMatch(rows: seq<Award>, user: nat) {
    forall t: AwardType :: !t.BridgeComplete? ==>
      (HasBonus(rows, user, t) <==> RewardCount(rows, user, None) >= Threshold(t))
  }

  /** No reward for the deposit belongs to another user. */
  ghost predicate OwnDeposit(rows: seq<Award>, d: nat, user: nat) {
    forall i :: 0 <= i < |rows| && rows[i].deposit == d && rows[i].awardType.BridgeComplete? ==> rows[i].user == user
  }

  /** Leaving out a rewarded deposit of the user leaves out one reward. */
  lemma {:induction false} CountWithout(rows: seq<Award>, d: nat, user: nat)
    requires Inv(rows) && OwnDeposit(rows, d, user)
    ensures RewardCount(rows, user, None) == RewardCount(rows, user, Some(d)) + if Rewarded(rows, d) then 1 else 0
  {
    if rows != [] {
      var front, last := rows[..|rows| - 1], rows[|rows| - 1];
      InvPrefix(rows);
      assert rows == front + [last];
      RewardedSnoc(front, last, d);
      CountWithout(front, d, user);
      InvShaped(front);
      FreshDeposit(front, d);
    }
  }

  lemma HasBonusSnoc(rows: seq<Award>, r: Award, user: nat, t: AwardType)
    ensures HasBonus(rows + [r], user, t) <==> HasBonus(rows, user, t) || (r.user == user && r.awardType == t)
  {
    var all := rows + [r];
    if HasBonus(rows, user, t) {
      var i :| 0 <= i < |rows| && rows[i].user == user && rows[i].awardType == t;
      assert all[i] == rows[i];
    }
    assert all[|rows|] == r;
  }

  lemma KeyMeansBonus(rows: seq<Award>, t: AwardType, user: nat)
    requires Inv(rows)
    requires exists i :: 0 <= i < |rows| && rows[i].key == UserKey(t, user)
    ensures HasBonus(rows, user, t)
  {
    var i :| 0 <= i < |rows| && rows[i].key == UserKey(t, user);
    assert Legal(rows[..i], rows[i]);
  }

  /** A new reward raises its user's count by one, and no bonus comes or goes. */
  lemma CompleteCounts(rows: seq<Award>, r: Award, user: nat)
    requires r.awardType.BridgeComplete?
    ensures RewardCount(rows + [r], user, None) == RewardCount(rows, user, None) + if r.user == user then 1 else 0
    ensures forall t: AwardType :: !t.BridgeComplete? ==> (HasBonus(rows + [r], user, t) <==> HasBonus(rows, user, t))
  {
    assert (rows + [r])[..|rows|] == rows;
    forall t: AwardType | !t.BridgeComplete?
      ensures HasBonus(rows + [r], user, t) <==> HasBonus(rows, user, t)
    {
      HasBonusSnoc(rows, r, user, t);
    }
  }

  lemma BonusCounts(rows: seq<Award>, r: Award, user: nat, t: AwardType)
    requires Inv(rows) && !r.awardType.BridgeComplete? && r.key == UserKey(r.awardType, r.user)
    ensures RewardCount(Insert(rows, r), user, None) == RewardCount(rows, user, None)
    ensures HasBonus(Insert(rows, r), user, t) <==> HasBonus(rows, user, t) || (r.user == user && r.awardType == t)
  {
    if exists i :: 0 <= i < |rows| && rows[i].key == r.key {
      KeyMeansBonus(rows, r.awardType, r.user);
    } else {
      assert (rows + [r])[..|rows|] == rows;
      HasBonusSnoc(rows, r, user, t);
    }
  }

  /** The call passes the checks on these rows and its reward insert does not throw. */
  predicate Rewards(rows: seq<Award>, call: Call) {
    && Considered(call) && call.completeAt.Some?
    && Judge(ContextOf(rows, call.user.value, call.deposit, call.now), call.checkNow).Proceed?
  }

  /** The rows once the reward is in. */
  function WithReward(rows: seq<Award>, call: Call): seq<Award>
    requires Rewards(rows, call)
  {
    Insert(rows, CompleteAward(call.user.value, call.deposit, call.completeAt.value))
  }

  /** The bridge index the bonuses go by. */
  function Index(rows: seq<Award>, call: Call): nat
    requires Rewards(rows, call)
  {
    RewardCount(rows, call.user.value, Some(call.deposit)) + 1
  }

  /** The call gives the user the bonus, or finds it given: both inserts go through at its index. */
  predicate GrantsNow(rows: seq<Award>, call: Call, user: nat, t: AwardType) {
    Rewards(rows, call) && call.bonusAt.Some? && call.user == Some(user) && Index(rows, call) == Threshold(t)
  }

  lemma AwardedShape(rows: seq<Award>, call: Call)
    ensures !Rewards(rows, call) ==> Awarded(rows, call) == rows
    ensures Rewards(rows, call) ==>
              var bonus := BonusAward(call.user.value, call.deposit, Index(rows, call),
                                      if call.bonusAt.Some? then call.bonusAt.value else 0);
              Awarded(rows, call) == if call.bonusAt.None? || bonus.None? then WithReward(rows, call)
                                     else Insert(WithReward(rows, call), bonus.value)
  {
  }

  /** A reward, new or repeated, leaves every bonus as it was; a new one counts for its user. */
  lemma RewardStep(rows: seq<Award>, call: Call, user: nat)
    requires Inv(rows) && Rewards(rows, call)
    ensures RewardCount(WithReward(rows, call), user, None) - RewardCount(rows, user, None)
            == if call.user == Some(user) && !Rewarded(rows, call.deposit) then 1 else 0
    ensures forall t: AwardType :: !t.BridgeComplete? ==>
              (HasBonus(WithReward(rows, call), user, t) <==> HasBonus(rows, user, t))
  {
    CompleteCounts(rows, CompleteAward(call.user.value, call.deposit, call.completeAt.value), user);
    InvShaped(rows);
    FreshDeposit(rows, call.deposit);
  }

  /** After the reward the index is the number of the user's rewarded bridges, whether the reward is new or
      was there before. */
  lemma IndexIsCount(rows: seq<Award>, call: Call)
    requires Inv(rows) && Rewards(rows, call) && OwnDeposit(rows, call.deposit, call.user.value)
    ensures Index(rows, call) == RewardCount(WithReward(rows, call), call.user.value, None)
  {
    CountWithout(rows, call.deposit, call.user.value);
    RewardStep(rows, call, call.user.value);
  }

  /** What one call does to a user's bonuses and count. */
  lemma BonusStep(rows: seq<Award>, call: Call, user: nat, t: AwardType)
    requires Inv(rows) && NotAfter(rows, call.now) && Ordered(call) && !t.BridgeComplete?
    ensures HasBonus(Awarded(rows, call), user, t) <==> HasBonus(rows, user, t) || GrantsNow(rows, call, user, t)
    ensures Rewards(rows, call) ==>
              RewardCount(Awarded(rows, call), user, None) == RewardCount(WithReward(rows, call), user, None)
  {
    AwardedShape(rows, call);
    if Rewards(rows, call) {
      RewardStep(rows, call, user);
      CompleteKeepsInv(rows, call);
      if call.bonusAt.Some? {
        var rows', index := WithReward(rows, call), Index(rows, call);
        BonusInsert(rows', call.user.value, call.deposit, index, call.bonusAt.value, user, t);
      }
    }
  }

  /** The bonus of an index is the one whose threshold the index is. */
  lemma BonusInsert(rows: seq<Award>, u: nat, d: nat, index: nat, at: int, user: nat, t: AwardType)
    requires Inv(rows) && !t.BridgeComplete?
    ensures var bonus := BonusAward(u, d, index, at);
            var rows' := if bonus.None? then rows else Insert(rows, bonus.value);
            && (HasBonus(rows', user, t) <==> HasBonus(rows, user, t) || (u == user && index == Threshold(t)))
            && RewardCount(rows', user, None) == RewardCount(rows, user, None)
  {
    BonusOfIndex(u, d, index, at, t);
    var bonus := BonusAward(u, d, index, at);
    if bonus.Some? { BonusCounts(rows, bonus.value, user, t); }
  }

  lemma BonusOfIndex(u: nat, d: nat, index: nat, at: int, t: AwardType)
    requires !t.BridgeComplete?
    ensures var bonus := BonusAward(u, d, index, at);
            && (bonus.Some? ==> !bonus.value.awardType.BridgeComplete? && bonus.value.user == u
                                && bonus.value.key == UserKey(bonus.value.awardType, u))
            && (index == Threshold(t) <==> bonus.Some? && bonus.value.awardType == t)
  {
  }

  ghost predicate Grants(calls: seq<Call>, i: nat, user: nat, t: AwardType) {
    i < |calls| && GrantsNow(Run(calls[..i]), calls[i], user, t)
  }

  lemma RunNext(calls: seq<Call>, n: nat)
    requires n < |calls| && Sequential(calls)
    ensures Run(calls[..n + 1]) == Awarded(Run(calls[..n]), calls[n])
    ensures Inv(Run(calls[..n])) && NotAfter(Run(calls[..n]), calls[n].now) && Ordered(calls[n])
  {
    assert calls[..n + 1][..n] == calls[..n];
    EveryRun(calls[..n]);
  }

  lemma HasBonusNext(calls: seq<Call>, n: nat, user: nat, t: AwardType)
    requires Sequential(calls) && n < |calls| && !t.BridgeComplete?
    ensures HasBonus(Run(calls[..n + 1]), user, t) <==> HasBonus(Run(calls[..n]), user, t) || Grants(calls, n, user, t)
  {
    RunNext(calls, n);
    BonusStep(Run(calls[..n]), calls[n], user, t);
  }

  ghost predicate GrantedBefore(calls: seq<Call>, n: nat, user: nat, t: AwardType) {
    exists i :: 0 <= i < n && Grants(calls, i, user, t)
  }

  /** Over every run, inserts thrown or not: a user has a bonus exactly if some call for them was considered
      and judged to proceed, both its inserts went through, and its index was the bonus's threshold. */
  lemma {:induction false} HasBonusIff(calls: seq<Call>, n: nat, user: nat, t: AwardType)
    requires Sequential(calls) && n <= |calls| && !t.BridgeComplete?
    ensures HasBonus(Run(calls[..n]), user, t) <==> GrantedBefore(calls, n, user, t)
  {
    if n > 0 {
      HasBonusIff(calls, n - 1, user, t);
      HasBonusNext(calls, n - 1, user, t);
    }
  }

  /** The deposits handed in for the user are handed in for nobody else. */
  ghost predicate KeepsDeposits(calls: seq<Call>, user: nat) {
    forall i, j :: 0 <= i < |calls| && 0 <= j < |calls| && Considered(calls[i]) && Considered(calls[j])
                   && calls[i].user == Some(user) && calls[j].deposit == calls[i].deposit ==>
      calls[j].user == Some(user)
  }

  /** A row for the deposit and user of some considered call. */
  ghost predicate FromCall(calls: seq<Call>, n: nat, r: Award) {
    exists i :: 0 <= i < n <= |calls| && Considered(calls[i])
                && calls[i].deposit == r.deposit && calls[i].user == Some(r.user)
  }

  lemma AwardedRow(rows: seq<Award>, call: Call, k: nat)
    requires k < |Awarded(rows, call)|
    ensures || (k < |rows| && Awarded(rows, call)[k] == rows[k])
            || (Considered(call) && Awarded(rows, call)[k].deposit == call.deposit
                && call.user == Some(Awarded(rows, call)[k].user))
  {
  }

  lemma {:induction false} RowsComeFromCalls(calls: seq<Call>, n: nat, k: nat)
    requires n <= |calls| && k < |Run(calls[..n])|
    ensures FromCall(calls, n, Run(calls[..n])[k])
  {
    if n > 0 {
      assert calls[..n][..n - 1] == calls[..n - 1];
      var rows, call := Run(calls[..n - 1]), calls[n - 1];
      AwardedRow(rows, call, k);
      if k < |rows| && Awarded(rows, call)[k] == rows[k] {
        RowsComeFromCalls(calls, n - 1, k);
        var i :| 0 <= i < n - 1 && Considered(calls[i]) && calls[i].deposit == rows[k].deposit
                 && calls[i].user == Some(rows[k].user);
      }
    }
  }

  lemma OwnDepositInRun(calls: seq<Call>, n: nat, user: nat)
    requires KeepsDeposits(calls, user) && n < |calls| && Considered(calls[n]) && calls[n].user == Some(user)
    ensures OwnDeposit(Run(calls[..n]), calls[n].deposit, user)
  {
    var rows := Run(calls[..n]);
    forall k | 0 <= k < |rows| && rows[k].deposit == calls[n].deposit ensures rows[k].user == user {
      RowsComeFromCalls(calls, n, k);
    }
  }

  /** No bonus insert of the user's is thrown after a reward insert that went through. */
  ghost predicate BonusesGoThrough(calls: seq<Call>, user: nat) {
    forall i :: 0 <= i < |calls| && Considered(calls[i]) && calls[i].user == Some(user) && calls[i].completeAt.Some? ==>
      calls[i].bonusAt.Some?
  }

  /** Whatever happens to other users' calls: a user whose bonus inserts go through has the first, fifth and
      tenth bonus exactly from their first, fifth and tenth rewarded bridge on, however often deposits are
      handed in again. */
  lemma {:induction false} BonusesAreDue(calls: seq<Call>, n: nat, user: nat)
    requires Sequential(calls) && n <= |calls| && KeepsDeposits(calls, user) && BonusesGoThrough(calls, user)
    ensures BonusesMatch(Run(calls[..n]), user)
  {
    if n > 0 {
      var rows, call := Run(calls[..n - 1]), calls[n - 1];
      BonusesAreDue(calls, n - 1, user);
      RunNext(calls, n - 1);
      CountInRun(calls, n - 1, user);
      forall t: AwardType | !t.BridgeComplete?
        ensures HasBonus(Awarded(rows, call), user, t) <==> RewardCount(Awarded(rows, call), user, None) >= Threshold(t)
      {
        BonusStep(rows, call, user, t);
      }
    }
  }

  /** The user's count never falls; their own rewarding call leaves it at its index, at most one higher. */
  lemma CountInRun(calls: seq<Call>, n: nat, user: nat)
    requires Sequential(calls) && n < |calls| && KeepsDeposits(calls, user)
    ensures var (rows, call) := (Run(calls[..n]), calls[n]);
            var (c, c') := (RewardCount(rows, user, None), RewardCount(Awarded(rows, call), user, None));
            && c <= c' <= c + 1
            && (if Rewards(rows, call) && call.user == Some(user) then c' == Index(rows, call) else c' == c)
  {
    var rows, call := Run(calls[..n]), calls[n];
    RunNext(calls, n);
    BonusStep(rows, call, user, FirstBonus);
    AwardedShape(rows, call);
    if Rewards(rows, call) {
      RewardStep(rows, call, user);
      if call.user == Some(user) {
        OwnDepositInRun(calls, n, user);
        IndexIsCount(rows, call);
      }
    }
  }

  /** With inserts thrown or not, no bonus comes before its bridge. */
  lemma {:induction false} BonusNeverEarly(calls: seq<Call>, n: nat, user: nat, t: AwardType)
    requires Sequential(calls) && n <= |calls| && KeepsDeposits(calls, user) && !t.BridgeComplete?
    ensures HasBonus(Run(calls[..n]), user, t) ==> RewardCount(Run(calls[..n]), user, None) >= Threshold(t)
  {
    if n > 0 {
      BonusNeverEarly(calls, n - 1, user, t);
      RunNext(calls, n - 1);
      CountInRun(calls, n - 1, user);
      BonusStep(Run(calls[..n - 1]), calls[n - 1], user, t);
    } else {
      assert Run(calls[..0]) == [];
    }
  }

  ghost predicate Missed(calls: seq<Call>, n: nat, user: nat, t: AwardType) {
    n <= |calls| && RewardCount(Run(calls[..n]), user, None) > Threshold(t) && !HasBonus(Run(calls[..n]), user, t)
  }

  lemma StaysMissed(calls: seq<Call>, n: nat, user: nat, t: AwardType)
    requires Sequential(calls) && n < |calls| && KeepsDeposits(calls, user) && !t.BridgeComplete?
    requires Missed(calls, n, user, t)
    ensures Missed(calls, n + 1, user, t)
  {
    RunNext(calls, n);
    CountInRun(calls, n, user);
    BonusStep(Run(calls[..n]), calls[n], user, t);
  }

  /** A bonus missed is missed for good: once the count is past its threshold no later call gives it. */
  lemma {:induction false} MissedForGood(calls: seq<Call>, m: nat, n: nat, user: nat, t: AwardType)
    requires Sequential(calls) && m <= n <= |calls| && KeepsDeposits(calls, user) && !t.BridgeComplete?
    requires Missed(calls, m, user, t)
    ensures Missed(calls, n, user, t)
    decreases n - m
  {
    if m < n {
      MissedForGood(calls, m, n - 1, user, t);
      StaysMissed(calls, n - 1, user, t);
    }
  }

  function Handed(user: nat, deposit: nat, at: int, bonusAt: Option<int>): Call {
    Call(deposit, Some(user), true, MIN_AMOUNT_RAW, at, at, Some(at), bonusAt)
  }

  /** It happens: one thrown bonus insert on the first bridge, everything else going through, and the second
      bridge finds the user without a first bonus. */
  lemma ThrownInsertLosesBonus(user: nat, d: nat, d': nat, at: int)
    requires d != d'
    ensures Sequential(ThrownThenNext(user, d, d', at)) && KeepsDeposits(ThrownThenNext(user, d, d', at), user)
    ensures var rows := Run(ThrownThenNext(user, d, d', at));
            RewardCount(rows, user, None) == 2 && !HasBonus(rows, user, FirstBonus)
  {
    ThrownRun(user, d, d', at);
    CountRewards(CompleteAward(user, d, at), CompleteAward(user, d', at + COOLDOWN_MS));
  }

  lemma ThrownRun(user: nat, d: nat, d': nat, at: int)
    requires d != d'
    ensures Run(ThrownThenNext(user, d, d', at))
            == [CompleteAward(user, d, at), CompleteAward(user, d', at + COOLDOWN_MS)]
  {
    RunTwo(Handed(user, d, at, None), Handed(user, d', at + COOLDOWN_MS, Some(at + COOLDOWN_MS)));
    FirstAwards(user, d, at);
    SecondAwards(CompleteAward(user, d, at), d');
  }

  lemma CountRewards(r: Award, r': Award)
    requires r.awardType.BridgeComplete? && r'.awardType.BridgeComplete? && r'.user == r.user
    ensures RewardCount([r, r'], r.user, None) == 2 && !HasBonus([r, r'], r.user, FirstBonus)
  {
    assert [r, r'][..1] == [r] && [r][..0] == [];
    assert RewardCount([r], r.user, None) == 1;
  }

  /** Two bridges half an hour apart, the bonus insert of the first thrown. */
  function ThrownThenNext(user: nat, d: nat, d': nat, at: int): seq<Call> {
    [Handed(user, d, at, None), Handed(user, d', at + COOLDOWN_MS, Some(at + COOLDOWN_MS))]
  }

  lemma SecondAwards(r: Award, d: nat)
    requires r == CompleteAward(r.user, r.deposit, r.at) && d != r.deposit
    ensures var t := r.at + COOLDOWN_MS;
            Awarded([r], Handed(r.user, d, t, Some(t))) == [r, CompleteAward(r.user, d, t)]
  {
    var t := r.at + COOLDOWN_MS;
    OneRow(r);
    AwardedShape([r], Handed(r.user, d, t, Some(t)));
    assert [r] + [CompleteAward(r.user, d, t)] == [r, CompleteAward(r.user, d, t)];
  }

  /** What a single reward counts for. */
  lemma OneRow(r: Award)
    requires r.awardType.BridgeComplete? && r.capped && r.points == BRIDGE_POINTS
    ensures forall lo: int, e: Option<nat> ::
              Bridges([r], r.user, lo, e) <= 1 && Points([r], r.user, lo, e) <= BRIDGE_POINTS
    ensures forall d: nat :: d != r.deposit ==>
              LastReward([r], r.user, d) == Some(r.at) && RewardCount([r], r.user, Some(d)) == 1
    ensures RewardCount([r], r.user, None) == 1
  {
    forall lo: int, e: Option<nat>
      ensures Bridges([r], r.user, lo, e) <= 1 && Points([r], r.user, lo, e) <= BRIDGE_POINTS
    {
      OneRowSince(r, lo, e);
    }
    forall d: nat | d != r.deposit
      ensures LastReward([r], r.user, d) == Some(r.at) && RewardCount([r], r.user, Some(d)) == 1
    {
      OneRowOf(r, d);
    }
    assert [r][..0] == [];
  }

  lemma OneRowSince(r: Award, lo: int, e: Option<nat>)
    requires r.points == BRIDGE_POINTS
    ensures Bridges([r], r.user, lo, e) <= 1 && Points([r], r.user, lo, e) <= BRIDGE_POINTS
  {
    assert [r][..0] == [];
    assert Bridges([], r.user, lo, e) == 0 && Points([], r.user, lo, e) == 0;
  }

  lemma OneRowOf(r: Award, d: nat)
    requires r.awardType.BridgeComplete? && d != r.deposit
    ensures LastReward([r], r.user, d) == Some(r.at) && RewardCount([r], r.user, Some(d)) == 1
  {
    assert [r][..0] == [];
    assert LastReward([], r.user, d) == None && RewardCount([], r.user, Some(d)) == 0;
  }

  /** A deposit that has its reward is never held up by the limits: handed in again it goes on to the bonuses. */
  lemma RepeatsGoOn(rows: seq<Award>, call: Call)
    requires Considered(call) && call.completeAt.Some? && Rewarded(rows, call.deposit)
    ensures Rewards(rows, call)
  {
  }

  /** One deposit handed in twice, the bonus insert thrown the first time. */
  function TwiceHanded(user: nat, d: nat, at: int, later: int): seq<Call> {
    [Handed(user, d, at, None), Handed(user, d, later, Some(later))]
  }

  /** So a bonus whose insert was thrown is given when the same deposit is handed in again, at any time before the next
      reward, cooldown or not. */
  lemma RepeatRecoversBonus(user: nat, d: nat, at: int, later: int)
    requires at <= later
    ensures Sequential(TwiceHanded(user, d, at, later))
    ensures var rows := Run(TwiceHanded(user, d, at, later));
            RewardCount(rows, user, None) == 1 && HasBonus(rows, user, FirstBonus)
  {
    RepeatRun(user, d, at, later);
    CountBoth(CompleteAward(user, d, at), FirstBonusOf(user, d, later));
  }

  lemma RepeatRun(user: nat, d: nat, at: int, later: int)
    ensures Run(TwiceHanded(user, d, at, later))
            == [CompleteAward(user, d, at), FirstBonusOf(user, d, later)]
  {
    RunTwo(Handed(user, d, at, None), Handed(user, d, later, Some(later)));
    FirstAwards(user, d, at);
    RepeatAwards(user, d, at, later);
  }

  lemma RunTwo(one: Call, two: Call)
    ensures Run([one, two]) == Awarded(Awarded([], one), two)
  {
    assert [one, two][..1] == [one] && [one][..0] == [];
    assert Run([one]) == Awarded(Run([]), one);
  }

  lemma FirstAwards(user: nat, d: nat, at: int)
    ensures Awarded([], Handed(user, d, at, None)) == [CompleteAward(user, d, at)]
  {
    AwardedShape([], Handed(user, d, at, None));
  }

  function FirstBonusOf(user: nat, d: nat, at: int): Award {
    Award(user, d, FirstBonus, 200, false, at, UserKey(FirstBonus, user))
  }

  lemma RepeatAwards(user: nat, d: nat, at: int, later: int)
    ensures var r := CompleteAward(user, d, at);
            Awarded([r], Handed(user, d, later, Some(later))) == [r, FirstBonusOf(user, d, later)]
  {
    var r, two := CompleteAward(user, d, at), Handed(user, d, later, Some(later));
    assert Rewarded([r], d) by { assert [r][0].deposit == d; }
    RepeatsGoOn([r], two);
    AwardedShape([r], two);
    assert RewardCount([r], user, Some(d)) == 0 by { assert [r][..|[r]| - 1] == [] && [r][|[r]| - 1] == r; }
    assert WithReward([r], two) == [r] by { assert [r][0].key == DepositKey(d); }
    assert [r] + [FirstBonusOf(user, d, later)] == [r, FirstBonusOf(user, d, later)];
  }

  lemma CountBoth(r: Award, bonus: Award)
    requires r.awardType.BridgeComplete? && bonus.awardType.FirstBonus? && bonus.user == r.user
    ensures RewardCount([r, bonus], r.user, None) == 1 && HasBonus([r, bonus], r.user, FirstBonus)
  {
    assert [r, bonus][..1] == [r] && [r][..0] == [] && [r, bonus][1] == bonus;
    assert RewardCount([r], r.user, None) == 1;
  }
}
