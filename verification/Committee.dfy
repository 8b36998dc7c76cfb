/** Committees (L1/src/consensus/committee.rs): stake-weighted sampling with rejection, the
    cumulative-stake walk, rotation, and the checked quorum threshold.  Stakes are u128 values and
    their total is taken to fit u128, as `ValidatorSet::add_validator` keeps it.  The seed hash is an
    arbitrary function; the rejection loop needs it to produce an acceptable value eventually. */
module Committee {
  import opened Bytes
  import opened Sequences

  /** An active, unjailed validator. */
  datatype Validator = Validator(address: Address, stake: nat)

  datatype Member = Member(address: Address, stake: nat)

  datatype CommitteeRecord = CommitteeRecord(id: nat, epoch: nat, members: seq<Member>, totalStake: nat)

  datatype ThresholdError = TotalStakeTooLarge | ThresholdOverflow

  datatype ThresholdResult = Ok(threshold: nat) | Err(error: ThresholdError)

  // ------------------------------------------------------------------ sums of stake

  function Cum(vs: seq<Validator>, n: nat): (r: nat)
    requires n <= |vs|
    decreases n
  {
    if n == 0 then 0 else Cum(vs, n - 1) + vs[n - 1].stake
  }

  function Total(vs: seq<Validator>): nat {
    Cum(vs, |vs|)
  }

  lemma {:induction false} CumMonotone(vs: seq<Validator>, a: nat, b: nat)
    requires a <= b <= |vs|
    ensures Cum(vs, a) <= Cum(vs, b)
    decreases b
  {
    if a < b { CumMonotone(vs, a, b - 1); }
  }

  /** The stake of the validators whose numbers are in `used`, among the first `n`. */
  function StakeAt(vs: seq<Validator>, used: set<nat>, n: nat): (r: nat)
    requires n <= |vs|
    ensures r <= Cum(vs, n)
    decreases n
  {
    if n == 0 then 0
    else StakeAt(vs, used, n - 1) + (if n - 1 in used then vs[n - 1].stake else 0)
  }

  lemma {:induction false} StakeAtAdd(vs: seq<Validator>, used: set<nat>, j: nat, n: nat)
    requires n <= |vs| && j !in used
    ensures StakeAt(vs, used + {j}, n) == StakeAt(vs, used, n) + if j < n then vs[j].stake else 0
    decreases n
  {
    if n > 0 { StakeAtAdd(vs, used, j, n - 1); }
  }

  lemma {:induction false} StakeAtNone(vs: seq<Validator>, n: nat)
    requires n <= |vs|
    ensures StakeAt(vs, {}, n) == 0
    decreases n
  {
    if n > 0 { StakeAtNone(vs, n - 1); }
  }

  function MemberStake(ms: seq<Member>): nat {
    if ms == [] then 0 else MemberStake(ms[..|ms| - 1]) + ms[|ms| - 1].stake
  }

  // ------------------------------------------------------------------ the drawn weight and its owner

  function MaxUnbiased(total: nat): nat
    requires total > 0
  {
    (U128_MAX / total) * total
  }

  predicate Accepted(v: nat, total: nat)
    requires total > 0
  {
    v < MaxUnbiased(total)
  }

  /** The least validator whose cumulative stake exceeds `w`. */
  function Owner(vs: seq<Validator>, w: nat, from: nat := 0): (j: nat)
    requires w < Total(vs) && from <= |vs| && Cum(vs, from) <= w
    ensures from <= j < |vs| && Cum(vs, j) <= w < Cum(vs, j + 1)
    decreases |vs| - from
  {
    if w < Cum(vs, from + 1) then from else Owner(vs, w, from + 1)
  }

  /** The cumulative ranges are disjoint, so they decide the owner. */
  lemma OwnerIsRange(vs: seq<Validator>, w: nat, j: nat)
    requires w < Total(vs) && j < |vs|
    ensures Owner(vs, w) == j <==> Cum(vs, j) <= w < Cum(vs, j + 1)
  {
    var o := Owner(vs, w);
    if o < j {
      CumMonotone(vs, o + 1, j);
    } else if j < o {
      CumMonotone(vs, j + 1, o);
    }
  }

  // ------------------------------------------------------------------ exact fairness

  lemma MulBound(t: nat, d: int)
    ensures d >= 1 ==> t * d >= t
    ensures d <= -1 ==> t * d + t <= 0
  {
  }

  lemma DivModUnique(q: nat, t: nat, r: nat)
    requires r < t
    ensures (q * t + r) % t == r
  {
    var x := q * t + r;
    var d := x / t - q;
    assert x == t * (x / t) + x % t;
    assert t * d == r - x % t by { assert t * (x / t) - q * t == t * d; }
    MulBound(t, d);
  }

  function Residues(q: nat, t: nat, lo: nat, hi: nat): set<nat>
    requires lo <= hi <= t && t > 0
  {
    set v: nat | v < q * t && lo <= v % t < hi
  }

  lemma ResidueBlock(q: nat, t: nat, lo: nat, hi: nat)
    requires lo <= hi <= t && t > 0
    ensures Residues(q + 1, t, lo, hi) == Residues(q, t, lo, hi) + Interval(q * t + lo, q * t + hi)
    ensures Residues(q, t, lo, hi) !! Interval(q * t + lo, q * t + hi)
  {
    assert (q + 1) * t == q * t + t;
    forall v: nat | q * t <= v < q * t + t ensures v % t == v - q * t {
      DivModUnique(q, t, v - q * t);
    }
  }

  lemma MulStep(p: nat, d: nat)
    ensures (p + 1) * d == p * d + d
  {
  }

  /** Every residue range is hit equally often in each full block. */
  lemma {:induction false} ResidueCount(q: nat, t: nat, lo: nat, hi: nat)
    requires lo <= hi <= t && t > 0
    ensures |Residues(q, t, lo, hi)| == q * (hi - lo)
    decreases q
  {
    if q == 0 {
      assert Residues(0, t, lo, hi) == {};
    } else {
      var p := q - 1;
      var below, block := Residues(p, t, lo, hi), Interval(p * t + lo, p * t + hi);
      assert |below| == p * (hi - lo) by { ResidueCount(p, t, lo, hi); }
      assert |block| == hi - lo by { IntervalSize(p * t + lo, p * t + hi); }
      assert Residues(q, t, lo, hi) == below + block && below !! block by { ResidueBlock(p, t, lo, hi); }
      MulStep(p, hi - lo);
    }
  }

  /** The u128 values that are accepted and select validator `j`. */
  ghost function Selecting(vs: seq<Validator>, j: nat): set<nat>
    requires 0 < Total(vs)
  {
    set v: nat | v <= U128_MAX && Accepted(v, Total(vs)) && Owner(vs, v % Total(vs)) == j
  }

  lemma UnbiasedFits(total: nat)
    requires 0 < total <= U128_MAX
    ensures MaxUnbiased(total) <= U128_MAX
    ensures 2 * MaxUnbiased(total) >= U128_MAX + 1
  {
    var q := U128_MAX / total;
    assert q >= 1;
    assert U128_MAX == q * total + U128_MAX % total;
    assert q * total >= total;
  }

  /** Draws are exactly proportional to stake: among all u128 values, the number accepted and mapped
      to validator `j` is its stake times one common factor. */
  lemma ExactShare(vs: seq<Validator>, j: nat)
    requires 0 < Total(vs) <= U128_MAX && j < |vs|
    ensures |Selecting(vs, j)| == vs[j].stake * (U128_MAX / Total(vs))
  {
    var t, lo, hi := Total(vs), Cum(vs, j), Cum(vs, j + 1);
    CumMonotone(vs, j + 1, |vs|);
    SelectingIsResidues(vs, j);
    ResidueCount(U128_MAX / t, t, lo, hi);
  }

  lemma SelectingIsResidues(vs: seq<Validator>, j: nat)
    requires 0 < Total(vs) <= U128_MAX && j < |vs| && Cum(vs, j) <= Cum(vs, j + 1) <= Total(vs)
    ensures Selecting(vs, j) == Residues(U128_MAX / Total(vs), Total(vs), Cum(vs, j), Cum(vs, j + 1))
  {
    var t := Total(vs);
    UnbiasedFits(t);
    forall v: nat ensures v in Selecting(vs, j) <==> v in Residues(U128_MAX / t, t, Cum(vs, j), Cum(vs, j + 1)) {
      OwnerIsRange(vs, v % t, j);
    }
  }

  /** At least half of all u128 values are accepted, so each rejection round is at worst a coin flip. */
  lemma AcceptanceRate(total: nat)
    requires 0 < total <= U128_MAX
    ensures 2 * |set v: nat | v <= U128_MAX && Accepted(v, total)| >= U128_MAX + 1
  {
    UnbiasedFits(total);
    assert (set v: nat | v <= U128_MAX && Accepted(v, total)) == Interval(0, MaxUnbiased(total));
    IntervalSize(0, MaxUnbiased(total));
  }

  // ------------------------------------------------------------------ the rejection loop

  /** Where the draws of a selection come from.  Draw `i` starts from a seed of its own and, after a
      rejection, hashes the seed again with the draw's number appended: one byte of it for a
      committee, eight for the super-committee. */
  datatype Stream = CommitteeStream(seed: Hash32) | SuperStream(randomness: Hash32)

  const SUPER_TAG: seq<byte> := [0x73, 0x75, 0x70, 0x65, 0x72]

  function FirstInput(s: Stream, i: nat): seq<byte> {
    match s
    case CommitteeStream(seed) => seed + LE(i, 8)
    case SuperStream(randomness) => randomness + SUPER_TAG + LE(i, 8)
  }

  function FirstSeed(hash: seq<byte> -> Hash32, s: Stream, i: nat): Hash32 {
    hash(FirstInput(s, i))
  }

  lemma SuperTag()
    ensures SUPER_TAG == Ascii("super")
  {
  }

  function RehashInput(s: Stream, i: nat, seed: Hash32): seq<byte> {
    seed + LE(i, if s.CommitteeStream? then 1 else 8)
  }

  /** The seed of draw `i` after `k` rejections. */
  function SeedAfter(hash: seq<byte> -> Hash32, s: Stream, i: nat, k: nat): Hash32 {
    if k == 0 then FirstSeed(hash, s, i) else hash(RehashInput(s, i, SeedAfter(hash, s, i, k - 1)))
  }

  function SeedValue(seed: Hash32): (v: nat)
    ensures v <= U128_MAX
  {
    Widths();
    FromLE(seed[..16])
  }

  /** A seed is read as the value its first sixteen bytes write, so every value comes from equally many seeds. */
  lemma SeedValueReads(v: nat, rest: seq<byte>)
    requires v <= U128_MAX && |rest| == 16
    ensures SeedValue(LE(v, 16) + rest) == v
  {
    Widths();
    assert (LE(v, 16) + rest)[..16] == LE(v, 16);
    LERoundTrip(v, 16);
  }

  predicate AcceptedAt(hash: seq<byte> -> Hash32, s: Stream, total: nat, i: nat, k: nat) {
    total > 0 && Accepted(SeedValue(SeedAfter(hash, s, i, k)), total)
  }

  ghost predicate Terminates(hash: seq<byte> -> Hash32, s: Stream, total: nat, i: nat) {
    exists k: nat :: AcceptedAt(hash, s, total, i, k)
  }

  /** The rejection at which draw `i` stops: the least one, so there is only one. */
  ghost predicate StopsAt(hash: seq<byte> -> Hash32, s: Stream, total: nat, i: nat, k: nat) {
    AcceptedAt(hash, s, total, i, k) && forall j: nat :: j < k ==> !AcceptedAt(hash, s, total, i, j)
  }

  lemma StopExists(hash: seq<byte> -> Hash32, s: Stream, total: nat, i: nat)
    requires Terminates(hash, s, total, i)
    ensures exists k: nat :: StopsAt(hash, s, total, i, k)
  {
    var limit: nat :| AcceptedAt(hash, s, total, i, limit);
    var k: nat := 0;
    while !AcceptedAt(hash, s, total, i, k)
      invariant k <= limit && forall j: nat :: j < k ==> !AcceptedAt(hash, s, total, i, j)
      decreases limit - k
    {
      k := k + 1;
    }
    assert StopsAt(hash, s, total, i, k);
  }

  ghost function Stop(hash: seq<byte> -> Hash32, s: Stream, total: nat, i: nat): (k: nat)
    requires Terminates(hash, s, total, i)
    ensures StopsAt(hash, s, total, i, k)
  {
    StopExists(hash, s, total, i);
    var k: nat :| StopsAt(hash, s, total, i, k);
    k
  }

  /** The weight of draw `i`: the first acceptable value of its stream, reduced.  A stream without
      one yields no weight; it is given weight zero here and excluded where draws are made. */
  ghost function Weight(hash: seq<byte> -> Hash32, s: Stream, total: nat, i: nat): (w: nat)
    requires total > 0
    ensures w < total
  {
    if Terminates(hash, s, total, i) then SeedValue(SeedAfter(hash, s, i, Stop(hash, s, total, i))) % total
    else 0
  }

  ghost function Weights(hash: seq<byte> -> Hash32, s: Stream, total: nat, n: nat): (ws: seq<nat>)
    requires total > 0
    ensures |ws| == n && forall i :: 0 <= i < n ==> ws[i] < total
    decreases n
  {
    if n == 0 then [] else Weights(hash, s, total, n - 1) + [Weight(hash, s, total, n - 1)]
  }

  lemma AcceptedOnlyAtStop(hash: seq<byte> -> Hash32, s: Stream, total: nat, i: nat, k: nat)
    requires Terminates(hash, s, total, i) && k <= Stop(hash, s, total, i)
    ensures AcceptedAt(hash, s, total, i, k) <==> k == Stop(hash, s, total, i)
  {
  }

  method Draw(hash: seq<byte> -> Hash32, s: Stream, total: nat, i: nat) returns (w: nat)
    requires 0 < total && Terminates(hash, s, total, i)
    ensures w == Weight(hash, s, total, i)
  {
    ghost var stop := Stop(hash, s, total, i);
    ghost var k: nat := 0;
    var seed := FirstSeed(hash, s, i);
    AcceptedOnlyAtStop(hash, s, total, i, 0);
    while !Accepted(SeedValue(seed), total)
      invariant seed == SeedAfter(hash, s, i, k) && k <= stop
      invariant Accepted(SeedValue(seed), total) <==> k == stop
      decreases stop - k
    {
      seed := hash(RehashInput(s, i, seed));
      k := k + 1;
      AcceptedOnlyAtStop(hash, s, total, i, k);
    }
    w := SeedValue(seed) % total;
  }

  /** The validator a draw gives is the owner of the first value its stream offers that is accepted; by `ExactShare`
      each validator owns values in proportion to its stake. */
  lemma DrawnOwner(hash: seq<byte> -> Hash32, s: Stream, vs: seq<Validator>, i: nat, j: nat, k: nat)
    requires 0 < Total(vs) && StopsAt(hash, s, Total(vs), i, k) && j < |vs|
    ensures Owner(vs, Weight(hash, s, Total(vs), i)) == j <==> SeedValue(SeedAfter(hash, s, i, k)) in Selecting(vs, j)
  {
    var stop := Stop(hash, s, Total(vs), i);
    assert stop == k;
  }

  // ------------------------------------------------------------------ different draws

  ghost predicate Collision(hash: seq<byte> -> Hash32, x: seq<byte>, y: seq<byte>) {
    x != y && hash(x) == hash(y)
  }

  /** No two draws of a selection, and no two selections, hash the same bytes first. */
  lemma FirstInputsDiffer(s: Stream, i: nat, s': Stream, i': nat)
    requires i <= U64_MAX && i' <= U64_MAX && FirstInput(s, i) == FirstInput(s', i')
    ensures s == s' && i == i'
  {
    Widths();
    assert |FirstInput(s, i)| == (if s.CommitteeStream? then 40 else 45);
    assert |FirstInput(s', i')| == (if s'.CommitteeStream? then 40 else 45);
    if s.CommitteeStream? {
      SplitEqual<byte>(s.seed, LE(i, 8), s'.seed, LE(i', 8));
    } else {
      SplitEqual<byte>(s.randomness + SUPER_TAG, LE(i, 8), s'.randomness + SUPER_TAG, LE(i', 8));
      SplitEqual<byte>(s.randomness, SUPER_TAG, s'.randomness, SUPER_TAG);
    }
    LEInjective(i, i', 8);
  }

  /** For any two different draws some hash gives different first seeds. */
  lemma DrawsCanDiffer(s: Stream, i: nat, s': Stream, i': nat) returns (hash: seq<byte> -> Hash32)
    requires i <= U64_MAX && i' <= U64_MAX && (s, i) != (s', i')
    ensures FirstSeed(hash, s, i) != FirstSeed(hash, s', i')
  {
    var one: Hash32 := ZERO_HASH[0 := 1];
    hash := x => if x == FirstInput(s, i) then one else ZERO_HASH;
    if FirstInput(s, i) == FirstInput(s', i') { FirstInputsDiffer(s, i, s', i'); }
    assert one[0] == 1 && ZERO_HASH[0] == 0;
  }

  /** What is hashed after a rejection tells the seed before it and the draw's number, of which a committee keeps the
      last byte only. */
  lemma RehashBinds(s: Stream, i: nat, seed: Hash32, s': Stream, i': nat, seed': Hash32)
    requires i <= U64_MAX && i' <= U64_MAX
    ensures RehashInput(s, i, seed) == RehashInput(s', i', seed') <==>
              && seed == seed' && s.CommitteeStream? == s'.CommitteeStream?
              && (if s.CommitteeStream? then i % 256 == i' % 256 else i == i')
  {
    Widths();
    var w, w' := if s.CommitteeStream? then 1 else 8, if s'.CommitteeStream? then 1 else 8;
    assert |RehashInput(s, i, seed)| == 32 + w && |RehashInput(s', i', seed')| == 32 + w';
    if RehashInput(s, i, seed) == RehashInput(s', i', seed') {
      SplitEqual<byte>(seed, LE(i, w), seed', LE(i', w));
      if w == 8 { LEInjective(i, i', 8); } else { assert LE(i, 1)[0] == LE(i', 1)[0]; }
    }
  }

  /** The bytes hashed for the seed after `k` rejections. */
  function InputAt(hash: seq<byte> -> Hash32, s: Stream, i: nat, k: nat): seq<byte> {
    if k == 0 then FirstInput(s, i) else RehashInput(s, i, SeedAfter(hash, s, i, k - 1))
  }

  /** Two draws that reach one seed after the same number of rejections are the same draw of the same selection,
      or one of their hashes was a collision. */
  lemma {:induction false} DrawsBind(hash: seq<byte> -> Hash32, s: Stream, i: nat, s': Stream, i': nat, k: nat)
    requires i <= U64_MAX && i' <= U64_MAX && SeedAfter(hash, s, i, k) == SeedAfter(hash, s', i', k)
    ensures || (s == s' && i == i')
            || exists j: nat :: j <= k && Collision(hash, InputAt(hash, s, i, j), InputAt(hash, s', i', j))
  {
    if InputAt(hash, s, i, k) == InputAt(hash, s', i', k) {
      if k == 0 {
        FirstInputsDiffer(s, i, s', i');
      } else {
        RehashBinds(s, i, SeedAfter(hash, s, i, k - 1), s', i', SeedAfter(hash, s', i', k - 1));
        DrawsBind(hash, s, i, s', i', k - 1);
      }
    } else {
      assert Collision(hash, InputAt(hash, s, i, k), InputAt(hash, s', i', k));
    }
  }

  // ------------------------------------------------------------------ one committee

  /** The least validator from `from` on that is not used. */
  function LeastUnused(n: nat, used: set<nat>, from: nat): (r: Option<nat>)
    requires from <= n
    ensures r.Some? ==> from <= r.value < n && r.value !in used && forall i :: from <= i < r.value ==> i in used
    ensures r.None? ==> forall i :: from <= i < n ==> i in used
    decreases n - from
  {
    if from == n then None else if from !in used then Some(from) else LeastUnused(n, used, from + 1)
  }

  lemma {:induction false} SkipUsed(n: nat, used: set<nat>, from: nat, to: nat)
    requires from <= to <= n && forall i :: from <= i < to ==> i in used
    ensures LeastUnused(n, used, from) == LeastUnused(n, used, to)
    decreases n - from
  {
    if from < to { SkipUsed(n, used, from + 1, to); }
  }

  /** The cumulative walk of one draw. */
  method PickFrom(vs: seq<Validator>, w: nat, used: set<nat>) returns (pick: Option<nat>)
    requires w < Total(vs)
    ensures pick == LeastUnused(|vs|, used, Owner(vs, w))
  {
    ghost var owner := Owner(vs, w);
    var cumulative := 0;
    for idx := 0 to |vs|
      invariant cumulative == Cum(vs, idx)
      invariant forall i :: owner <= i < idx ==> i in used
    {
      cumulative := cumulative + vs[idx].stake;
      if owner <= idx {
        CumMonotone(vs, owner + 1, idx + 1);
        SkipUsed(|vs|, used, owner, idx);
      } else {
        CumMonotone(vs, idx + 1, owner);
      }
      if w < cumulative && idx !in used { return Some(idx); }
    }
    SkipUsed(|vs|, used, owner, |vs|);
    return None;
  }

  function Elements(picks: seq<nat>): set<nat> {
    set j | j in picks
  }

  ghost predicate AllTerminate(hash: seq<byte> -> Hash32, s: Stream, total: nat, n: nat) {
    forall i: nat :: i < n ==> Terminates(hash, s, total, i)
  }

  ghost predicate Below(ws: seq<nat>, bound: nat) {
    forall i :: 0 <= i < |ws| ==> ws[i] < bound
  }

  function NextPick(vs: seq<Validator>, before: seq<nat>, w: nat): seq<nat>
    requires w < Total(vs)
  {
    var pick := LeastUnused(|vs|, Elements(before), Owner(vs, w));
    if pick.Some? then before + [pick.value] else before
  }

  /** The validators chosen by drawn weights: each adds the least unused validator at or after its
      owner, or nothing. */
  function Picks(vs: seq<Validator>, ws: seq<nat>): seq<nat>
    requires Below(ws, Total(vs))
  {
    if ws == [] then [] else NextPick(vs, Picks(vs, ws[..|ws| - 1]), ws[|ws| - 1])
  }

  function MembersOf(vs: seq<Validator>, picks: seq<nat>): (ms: seq<Member>)
    requires Below(picks, |vs|)
    ensures |ms| == |picks|
    ensures forall i :: 0 <= i < |ms| ==> ms[i] == Member(vs[picks[i]].address, vs[picks[i]].stake)
  {
    seq(|picks|, i requires 0 <= i < |picks| => Member(vs[picks[i]].address, vs[picks[i]].stake))
  }

  ghost predicate IsSelection(vs: seq<Validator>, picks: seq<nat>) {
    Distinct(picks) && Below(picks, |vs|)
  }

  lemma NextIsSelection(vs: seq<Validator>, before: seq<nat>, w: nat)
    requires w < Total(vs) && IsSelection(vs, before)
    ensures IsSelection(vs, NextPick(vs, before, w))
    ensures |NextPick(vs, before, w)| <= |before| + 1
    ensures before == [] ==> NextPick(vs, before, w) == [Owner(vs, w)] && vs[Owner(vs, w)].stake > 0
    ensures before != [] ==> NextPick(vs, before, w) != [] && NextPick(vs, before, w)[0] == before[0]
  {
    assert Cum(vs, Owner(vs, w) + 1) == Cum(vs, Owner(vs, w)) + vs[Owner(vs, w)].stake;
    assert before == [] ==> Owner(vs, w) !in Elements(before);
  }

  /** Whatever the weights: the chosen validators are distinct, no more than were drawn or than there
      are, and once a draw has been made the first is one with stake. */
  lemma {:induction false} PicksAreSelection(vs: seq<Validator>, ws: seq<nat>)
    requires Below(ws, Total(vs))
    ensures var picks := Picks(vs, ws);
            && IsSelection(vs, picks) && |picks| <= |ws| && |picks| <= |vs|
            && (ws != [] ==> picks != [] && vs[picks[0]].stake > 0)
  {
    if ws != [] {
      var before := ws[..|ws| - 1];
      PicksAreSelection(vs, before);
      NextIsSelection(vs, Picks(vs, before), ws[|ws| - 1]);
      PicksBound(Picks(vs, ws), |vs|);
    }
  }

  /** `after` is `before` with the first unused validator from `owner` on, or `before` if there is none. */
  ghost predicate AddsFrom(before: seq<nat>, after: seq<nat>, owner: nat, n: nat) {
    || (after == before && forall i :: owner <= i < n ==> i in before)
    || (&& after != [] && after[..|after| - 1] == before
        && var p := after[|before|]; owner <= p < n && p !in before && forall i :: owner <= i < p ==> i in before)
  }

  /** What a draw adds: the first unused validator at or after the owner of its weight, so the owner itself if it is
      unused; nothing exactly when all from the owner on are used. */
  lemma DrawAdds(vs: seq<Validator>, before: seq<nat>, w: nat)
    requires w < Total(vs)
    ensures AddsFrom(before, NextPick(vs, before, w), Owner(vs, w), |vs|)
  {
    assert forall i :: i in Elements(before) <==> i in before;
  }

  /** Whoever owns a drawn weight is chosen. */
  lemma {:induction false} OwnersAreChosen(vs: seq<Validator>, ws: seq<nat>, i: nat)
    requires i < |ws| && Below(ws, Total(vs))
    ensures Owner(vs, ws[i]) in Picks(vs, ws)
  {
    var front, w := ws[..|ws| - 1], ws[|ws| - 1];
    DrawAdds(vs, Picks(vs, front), w);
    if i < |front| {
      OwnersAreChosen(vs, front, i);
      assert forall x :: x in Picks(vs, front) ==> x in Picks(vs, ws);
    }
  }

  lemma PicksBound(picks: seq<nat>, n: nat)
    requires Distinct(picks) && Below(picks, n)
    ensures |picks| <= n
  {
    DistinctSize(picks);
    IntervalSize(0, n);
    var all := Interval(0, n);
    var some := Elements(picks);
    assert all == some + (all - some);
  }

  /** Distinct validators never add up to more than all of them. */
  lemma {:induction false} SelectionStake(vs: seq<Validator>, picks: seq<nat>)
    requires IsSelection(vs, picks)
    ensures MemberStake(MembersOf(vs, picks)) == StakeAt(vs, Elements(picks), |vs|) <= Total(vs)
  {
    if picks == [] {
      StakeAtNone(vs, |vs|);
      assert Elements(picks) == {};
    } else {
      var front, j := picks[..|picks| - 1], picks[|picks| - 1];
      SelectionStake(vs, front);
      StakeAtAdd(vs, Elements(front), j, |vs|);
      assert Elements(picks) == Elements(front) + {j};
      assert MembersOf(vs, picks)[..|front|] == MembersOf(vs, front);
    }
  }

  /** One draw: the walk, and the member it adds. */
  method AddMember(vs: seq<Validator>, w: nat, used: set<nat>, ms: seq<Member>, ghost picks: seq<nat>)
      returns (used': set<nat>, ms': seq<Member>)
    requires w < Total(vs) && IsSelection(vs, picks) && used == Elements(picks) && ms == MembersOf(vs, picks)
    ensures IsSelection(vs, NextPick(vs, picks, w))
    ensures used' == Elements(NextPick(vs, picks, w)) && ms' == MembersOf(vs, NextPick(vs, picks, w))
  {
    NextIsSelection(vs, picks, w);
    used', ms' := used, ms;
    var pick := PickFrom(vs, w, used);
    if pick.Some? {
      used' := used + {pick.value};
      ms' := ms + [Member(vs[pick.value].address, vs[pick.value].stake)];
    }
  }

  lemma PicksStep(vs: seq<Validator>, ws: seq<nat>, w: nat)
    requires Below(ws, Total(vs)) && w < Total(vs)
    ensures Below(ws + [w], Total(vs)) && Picks(vs, ws + [w]) == NextPick(vs, Picks(vs, ws), w)
  {
    assert (ws + [w])[..|ws|] == ws;
  }

  /** The committee for one seed is the validators its draws choose, in order. */
  method SelectCommitteeMembers(hash: seq<byte> -> Hash32, vs: seq<Validator>, seed: Hash32, size: nat)
      returns (ms: seq<Member>)
    requires Total(vs) > 0 ==> AllTerminate(hash, CommitteeStream(seed), Total(vs), size)
    ensures IsSelection(vs, ChosenBy(hash, seed, vs, size)) && ms == MembersOf(vs, ChosenBy(hash, seed, vs, size))
  {
    ms := [];
    ghost var picks: seq<nat> := [];
    var total := Total(vs);
    if total == 0 { return; }
    var used: set<nat> := {};
    ghost var ws: seq<nat> := [];
    for i := 0 to size
      invariant ws == Weights(hash, CommitteeStream(seed), total, i)
      invariant picks == Picks(vs, ws) && used == Elements(picks)
      invariant IsSelection(vs, picks) && ms == MembersOf(vs, picks)
    {
      var w := Draw(hash, CommitteeStream(seed), total, i);
      used, ms := AddMember(vs, w, used, ms, picks);
      picks := NextPick(vs, picks, w);
      PicksStep(vs, ws, w);
      ws := ws + [w];
      assert ws == Weights(hash, CommitteeStream(seed), total, i + 1);
      PicksAreSelection(vs, ws);
      if |ms| >= size {
        assert i + 1 == size;
        break;
      }
    }
    assert ws == Weights(hash, CommitteeStream(seed), total, size);
  }

  ghost function ChosenBy(hash: seq<byte> -> Hash32, seed: Hash32, vs: seq<Validator>, size: nat): seq<nat> {
    if Total(vs) == 0 then [] else Picks(vs, Weights(hash, CommitteeStream(seed), Total(vs), size))
  }

  // ------------------------------------------------------------------ rotation and the quorum

  /** The source's checked arithmetic, both overflow branches included. */
  function QuorumThreshold(totalStake: nat): (r: ThresholdResult)
    requires totalStake <= U128_MAX
    ensures r.Ok? <==> 2 * totalStake <= U128_MAX
    ensures r.Ok? ==> 3 * r.threshold > 2 * totalStake && 3 * (r.threshold - 1) <= 2 * totalStake
    ensures r.Err? ==> r.error == TotalStakeTooLarge
  {
    if totalStake * 2 > U128_MAX then Err(TotalStakeTooLarge)
    else if totalStake * 2 / 3 + 1 > U128_MAX then Err(ThresholdOverflow)
    else Ok(totalStake * 2 / 3 + 1)
  }

  /** What rotation promises of every committee it builds. */
  ghost predicate WellFormed(c: CommitteeRecord, vs: seq<Validator>, size: nat) {
    && (forall i, j :: 0 <= i < j < |c.members| ==> c.members[i].address != c.members[j].address)
    && (forall m :: m in c.members ==> Validator(m.address, m.stake) in vs)
    && |c.members| <= size
    && c.totalStake == MemberStake(c.members) <= U128_MAX
    && (Total(vs) > 0 && size > 0 ==> c.totalStake > 0)
  }

  ghost predicate DistinctAddresses(vs: seq<Validator>) {
    forall i, j :: 0 <= i < j < |vs| ==> vs[i].address != vs[j].address
  }

  lemma SelectionDistinct(vs: seq<Validator>, picks: seq<nat>)
    requires DistinctAddresses(vs) && IsSelection(vs, picks)
    ensures var ms := MembersOf(vs, picks);
            && (forall i, j :: 0 <= i < j < |ms| ==> ms[i].address != ms[j].address)
            && (forall m :: m in ms ==> Validator(m.address, m.stake) in vs)
  {
    var ms := MembersOf(vs, picks);
    forall i, j | 0 <= i < j < |ms| ensures ms[i].address != ms[j].address {
      assert picks[i] in picks && picks[j] in picks && picks[i] != picks[j];
    }
    forall m | m in ms ensures Validator(m.address, m.stake) in vs {
      var i :| 0 <= i < |ms| && ms[i] == m;
      assert picks[i] in picks;
      assert vs[picks[i]] == Validator(m.address, m.stake);
    }
  }

  lemma {:induction false} FirstStakeCounts(ms: seq<Member>)
    requires ms != []
    ensures MemberStake(ms) >= ms[0].stake
  {
    if |ms| > 1 { FirstStakeCounts(ms[..|ms| - 1]); }
  }

  /** `compute_committee_seed`. */
  function CommitteeSeed(hash: seq<byte> -> Hash32, epoch: nat, slot: nat, id: nat, randomness: Hash32): Hash32 {
    hash(CommitteeInput(epoch, slot, id, randomness))
  }

  function CommitteeInput(epoch: nat, slot: nat, id: nat, randomness: Hash32): seq<byte> {
    LE(epoch, 8) + LE(slot, 8) + LE(id, 2) + randomness
  }

  /** Committees of different epochs, slots, identifiers or randomness have different seeds, short of a collision. */
  lemma CommitteeSeedBinds(hash: seq<byte> -> Hash32, epoch: nat, slot: nat, id: nat, randomness: Hash32,
                           epoch': nat, slot': nat, id': nat, randomness': Hash32)
    requires epoch <= U64_MAX && slot <= U64_MAX && id <= U16_MAX
    requires epoch' <= U64_MAX && slot' <= U64_MAX && id' <= U16_MAX
    requires CommitteeSeed(hash, epoch, slot, id, randomness) == CommitteeSeed(hash, epoch', slot', id', randomness')
    ensures || (epoch == epoch' && slot == slot' && id == id' && randomness == randomness')
            || Collision(hash, CommitteeInput(epoch, slot, id, randomness),
                         CommitteeInput(epoch', slot', id', randomness'))
  {
    if CommitteeInput(epoch, slot, id, randomness) == CommitteeInput(epoch', slot', id', randomness') {
      Widths();
      var (a, a') := (LE(epoch, 8), LE(epoch', 8));
      var (b, b') := (LE(slot, 8), LE(slot', 8));
      var (c, c') := (LE(id, 2), LE(id', 2));
      SplitEqual<byte>(a + b + c, randomness, a' + b' + c', randomness');
      SplitEqual(a + b, c, a' + b', c');
      SplitEqual(a, b, a', b');
      LEInjective(epoch, epoch', 8);
      LEInjective(slot, slot', 8);
      LEInjective(id, id', 2);
    }
  }

  /** And for any two different committees some hash gives different seeds. */
  lemma CommitteesCanDiffer(epoch: nat, slot: nat, id: nat, randomness: Hash32,
                            epoch': nat, slot': nat, id': nat, randomness': Hash32)
      returns (hash: seq<byte> -> Hash32)
    requires epoch <= U64_MAX && slot <= U64_MAX && id <= U16_MAX
    requires epoch' <= U64_MAX && slot' <= U64_MAX && id' <= U16_MAX
    requires (epoch, slot, id, randomness) != (epoch', slot', id', randomness')
    ensures CommitteeSeed(hash, epoch, slot, id, randomness) != CommitteeSeed(hash, epoch', slot', id', randomness')
  {
    var one: Hash32 := ZERO_HASH[0 := 1];
    var input := CommitteeInput(epoch, slot, id, randomness);
    hash := x => if x == input then one else ZERO_HASH;
    assert one[0] == 1 && ZERO_HASH[0] == 0;
    if CommitteeSeed(hash, epoch, slot, id, randomness) == CommitteeSeed(hash, epoch', slot', id', randomness') {
      CommitteeSeedBinds(hash, epoch, slot, id, randomness, epoch', slot', id', randomness');
    }
  }

  ghost predicate DrawnFrom(c: CommitteeRecord, hash: seq<byte> -> Hash32, seed: Hash32, vs: seq<Validator>,
                            size: nat) {
    var picks := ChosenBy(hash, seed, vs, size);
    IsSelection(vs, picks) && c.members == MembersOf(vs, picks)
  }

  method BuildCommittee(hash: seq<byte> -> Hash32, vs: seq<Validator>, seed: Hash32, epoch: nat, id: nat, size: nat)
      returns (c: CommitteeRecord)
    requires DistinctAddresses(vs) && Total(vs) <= U128_MAX
    requires Total(vs) > 0 ==> AllTerminate(hash, CommitteeStream(seed), Total(vs), size)
    ensures c.id == id && c.epoch == epoch && WellFormed(c, vs, size) && DrawnFrom(c, hash, seed, vs, size)
  {
    var ms := SelectCommitteeMembers(hash, vs, seed, size);
    ghost var picks := ChosenBy(hash, seed, vs, size);
    if Total(vs) > 0 {
      PicksAreSelection(vs, Weights(hash, CommitteeStream(seed), Total(vs), size));
    }
    SelectionDistinct(vs, picks);
    SelectionStake(vs, picks);
    if ms != [] { FirstStakeCounts(ms); }
    c := CommitteeRecord(id, epoch, ms, MemberStake(ms));
  }

  class CommitteeManager {
    var committees: map<(nat, nat), CommitteeRecord>
    var currentEpoch: nat
    const numCommittees: nat
    const validatorsPerCommittee: nat

    constructor (numCommittees: nat, validatorsPerCommittee: nat)
      ensures this.numCommittees == numCommittees && this.validatorsPerCommittee == validatorsPerCommittee
      ensures committees == map[] && currentEpoch == 0
    {
      this.numCommittees, this.validatorsPerCommittee := numCommittees, validatorsPerCommittee;
      committees, currentEpoch := map[], 0;
    }

    /** Builds one well-formed committee per identifier for `epoch`, out of that identifier's own
        draws, and leaves every other epoch alone; without active validators nothing changes. */
    method RotateCommittees(hash: seq<byte> -> Hash32, vs: seq<Validator>, epoch: nat, slot: nat, randomness: Hash32)
      requires DistinctAddresses(vs) && Total(vs) <= U128_MAX
      requires Total(vs) > 0 ==> forall id: nat :: id < numCommittees ==>
                 AllTerminate(hash, CommitteeStream(CommitteeSeed(hash, epoch, slot, id, randomness)),
                              Total(vs), validatorsPerCommittee)
      modifies this
      ensures vs == [] ==> committees == old(committees) && currentEpoch == old(currentEpoch)
      ensures vs != [] ==> currentEpoch == epoch
      ensures vs != [] ==> forall id: nat :: id < numCommittees ==>
                && (epoch, id) in committees
                && committees[(epoch, id)].id == id && committees[(epoch, id)].epoch == epoch
                && WellFormed(committees[(epoch, id)], vs, validatorsPerCommittee)
                && DrawnFrom(committees[(epoch, id)], hash, CommitteeSeed(hash, epoch, slot, id, randomness), vs,
                             validatorsPerCommittee)
      ensures forall key :: key in old(committees) && key.0 != epoch ==>
                key in committees && committees[key] == old(committees)[key]
    {
      if vs == [] { return; }
      for id := 0 to numCommittees
        invariant forall k: nat :: k < id ==>
                    && (epoch, k) in committees
                    && committees[(epoch, k)].id == k && committees[(epoch, k)].epoch == epoch
                    && WellFormed(committees[(epoch, k)], vs, validatorsPerCommittee)
                    && DrawnFrom(committees[(epoch, k)], hash, CommitteeSeed(hash, epoch, slot, k, randomness), vs,
                                 validatorsPerCommittee)
        invariant forall key :: key in old(committees) && key.0 != epoch ==>
                    key in committees && committees[key] == old(committees)[key]
      {
        var seed := CommitteeSeed(hash, epoch, slot, id, randomness);
        var c := BuildCommittee(hash, vs, seed, epoch, id, validatorsPerCommittee);
        committees := committees[(epoch, id) := c];
      }
      currentEpoch := epoch;
    }

    method GetCommitteeForShard(epoch: nat, shard: nat) returns (c: Option<CommitteeRecord>)
      requires numCommittees > 0
      ensures c.Some? <==> (epoch, shard % numCommittees) in committees
      ensures c.Some? ==> c.value == committees[(epoch, shard % numCommittees)]
    {
      var id := shard % numCommittees;
      if (epoch, id) in committees { return Some(committees[(epoch, id)]); }
      return None;
    }
  }

  /** The stake of the members whose address is in `who`. */
  function StakeOf(ms: seq<Member>, who: set<Address>): nat {
    if ms == [] then 0
    else StakeOf(ms[..|ms| - 1], who) + if ms[|ms| - 1].address in who then ms[|ms| - 1].stake else 0
  }

  lemma {:induction false} StakeOfUnion(ms: seq<Member>, a: set<Address>, b: set<Address>)
    ensures StakeOf(ms, a) + StakeOf(ms, b) == StakeOf(ms, a + b) + StakeOf(ms, a * b)
    ensures StakeOf(ms, a + b) <= MemberStake(ms)
  {
    if ms != [] { StakeOfUnion(ms[..|ms| - 1], a, b); }
  }

  lemma {:induction false} StakeOfAll(ms: seq<Member>, who: set<Address>)
    requires forall m :: m in ms ==> m.address in who
    ensures StakeOf(ms, who) == MemberStake(ms)
  {
    if ms != [] { StakeOfAll(ms[..|ms| - 1], who); }
  }

  /** For every rotated committee whose threshold computes: any two groups that meet it share more
      than a third of the committee's stake, and the whole committee meets it exactly when its stake
      is positive, which rotation from positive stake guarantees. */
  lemma QuorumsOverlap(c: CommitteeRecord, vs: seq<Validator>, size: nat, a: set<Address>, b: set<Address>)
    requires WellFormed(c, vs, size)
    requires QuorumThreshold(c.totalStake).Ok?
    ensures var t := QuorumThreshold(c.totalStake).threshold;
            && (StakeOf(c.members, a) >= t && StakeOf(c.members, b) >= t ==>
                  3 * StakeOf(c.members, a * b) > c.totalStake)
            && (StakeOf(c.members, set m | m in c.members :: m.address) >= t <==> c.totalStake > 0)
            && (Total(vs) > 0 && size > 0 ==> c.totalStake > 0)
  {
    StakeOfUnion(c.members, a, b);
    StakeOfAll(c.members, set m | m in c.members :: m.address);
  }

  // ------------------------------------------------------------------ the super-committee

  /** The addresses that weights draw, in order. */
  function Drawn(vs: seq<Validator>, ws: seq<nat>): (r: seq<Address>)
    requires Below(ws, Total(vs))
    ensures |r| == |ws|
  {
    seq(|ws|, i requires 0 <= i < |ws| => vs[Owner(vs, ws[i])].address)
  }

  /** `selected` holds exactly the addresses drawn, each once, in the order of their first draw: before one is
      drawn, those that come before it have been. */
  ghost predicate FirstDraws(drawn: seq<Address>, selected: seq<Address>) {
    && Distinct(selected)
    && (forall a :: a in selected <==> a in drawn)
    && (forall i, j, d :: 0 <= i < j < |selected| && 0 <= d < |drawn| && drawn[d] == selected[j] ==>
          selected[i] in drawn[..d])
  }

  lemma FirstDrawsNext(drawn: seq<Address>, selected: seq<Address>, a: Address)
    requires FirstDraws(drawn, selected)
    ensures FirstDraws(drawn + [a], if a in selected then selected else selected + [a])
  {
    var drawn', selected' := drawn + [a], if a in selected then selected else selected + [a];
    forall i, j, d | 0 <= i < j < |selected'| && 0 <= d < |drawn'| && drawn'[d] == selected'[j]
      ensures selected'[i] in drawn'[..d]
    {
      assert drawn'[..d] == drawn[..d];
      assert drawn[..|drawn|] == drawn;
      assert selected'[i] == selected[i] && selected[i] in selected;
      if d < |drawn| { assert drawn[d] in drawn; }
    }
  }

  lemma SuperStep(vs: seq<Validator>, ws: seq<nat>, selected: seq<Address>, w: nat, a: Address)
    requires Below(ws, Total(vs)) && w < Total(vs) && a == vs[Owner(vs, w)].address
    requires FirstDraws(Drawn(vs, ws), selected)
    ensures Below(ws + [w], Total(vs))
    ensures FirstDraws(Drawn(vs, ws + [w]), if a in selected then selected else selected + [a])
  {
    FirstDrawsNext(Drawn(vs, ws), selected, a);
    assert Drawn(vs, ws + [w]) == Drawn(vs, ws) + [a];
  }

  /** One hundred draws over all active validators. */
  method SelectSuperCommittee(hash: seq<byte> -> Hash32, vs: seq<Validator>, randomness: Hash32)
      returns (selected: seq<Address>)
    requires Total(vs) > 0 ==> AllTerminate(hash, SuperStream(randomness), Total(vs), 100)
    ensures Total(vs) == 0 ==> selected == []
    ensures Total(vs) > 0 ==>
              FirstDraws(Drawn(vs, Weights(hash, SuperStream(randomness), Total(vs), 100)), selected)
  {
    selected := [];
    var total := Total(vs);
    if total == 0 { return; }
    ghost var ws: seq<nat> := [];
    for i := 0 to 100
      invariant ws == Weights(hash, SuperStream(randomness), total, i)
      invariant FirstDraws(Drawn(vs, ws), selected)
    {
      var w := Draw(hash, SuperStream(randomness), total, i);
      var owner := OwnerOf(vs, w);
      SuperStep(vs, ws, selected, w, vs[owner].address);
      ws := ws + [w];
      if vs[owner].address !in selected {
        selected := selected + [vs[owner].address];
      }
    }
  }

  method OwnerOf(vs: seq<Validator>, w: nat) returns (owner: nat)
    requires w < Total(vs)
    ensures owner == Owner(vs, w)
  {
    owner := 0;
    var cumulative := vs[0].stake;
    while w >= cumulative
      invariant owner < |vs| && cumulative == Cum(vs, owner + 1) && Cum(vs, owner) <= w
      decreases |vs| - owner
    {
      owner := owner + 1;
      cumulative := cumulative + vs[owner].stake;
    }
    OwnerIsRange(vs, w, owner);
  }
}
