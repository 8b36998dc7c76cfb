/** Proof aggregation: the zero-padded Merkle root over shard state roots and the carry-up levels of
    `generate_merkle_proof` (L1/src/consensus/cross_shard_atomic.rs).  A digest is any type `T` and
    `h` hashes two concatenated digests; it is an arbitrary function.  Nothing is assumed about
    collisions: where equal roots would need collision resistance, the result names two different
    pairs of digests with the same hash. */
module Merkle {
  import opened Bytes

  datatype ShardProof<T> = ShardProof(shardId: nat, stateRoot: T)

  // ------------------------------------------------------------------ powers of two

  function Pow2(k: nat): (r: nat)
    ensures r > 0
  {
    if k == 0 then 1 else 2 * Pow2(k - 1)
  }

  lemma {:induction false} Pow2Increases(a: nat, b: nat)
    requires a <= b
    ensures Pow2(a) <= Pow2(b)
    decreases b
  {
    if a < b { Pow2Increases(a, b - 1); }
  }

  function CountOnes(n: nat): nat {
    if n == 0 then 0 else n % 2 + CountOnes(n / 2)
  }

  function ExponentFrom(n: nat, k: nat): (r: nat)
    requires k == 0 || Pow2(k - 1) < n
    ensures n <= Pow2(r) && (r == 0 || Pow2(r - 1) < n)
    decreases n - Pow2(k)
  {
    if n <= Pow2(k) then k else ExponentFrom(n, k + 1)
  }

  /** The exponent of the least power of two that is at least `n`. */
  function CeilLog2(n: nat): (k: nat)
    ensures n <= Pow2(k) && (k == 0 || Pow2(k - 1) < n)
  {
    ExponentFrom(n, 0)
  }

  lemma CeilLog2Unique(n: nat, k: nat)
    requires n <= Pow2(k) && (k == 0 || Pow2(k - 1) < n)
    ensures CeilLog2(n) == k
  {
    if CeilLog2(n) < k {
      Pow2Increases(CeilLog2(n), k - 1);
    } else if CeilLog2(n) > k {
      Pow2Increases(k, CeilLog2(n) - 1);
    }
  }

  lemma CeilLog2Half(n: nat)
    requires n >= 2
    ensures CeilLog2(n) == 1 + CeilLog2((n + 1) / 2)
  {
    CeilLog2Unique((n + 1) / 2, CeilLog2(n) - 1);
  }

  lemma CeilLog2Stable(n: nat, m: nat)
    requires 1 <= n <= m <= Pow2(CeilLog2(n))
    ensures CeilLog2(m) == CeilLog2(n)
  {
    CeilLog2Unique(m, CeilLog2(n));
  }

  lemma {:induction false} CountOnesPositive(n: nat)
    requires n > 0
    ensures CountOnes(n) >= 1
  {
    if n % 2 == 0 { CountOnesPositive(n / 2); }
  }

  lemma {:induction false} CountOnesOfPow2(k: nat)
    ensures CountOnes(Pow2(k)) == 1
  {
    if k > 0 {
      CountOnesOfPow2(k - 1);
      assert Pow2(k) / 2 == Pow2(k - 1);
    }
  }

  lemma {:induction false} OneBitHasExponent(n: nat) returns (k: nat)
    requires CountOnes(n) == 1
    ensures n == Pow2(k)
  {
    if n % 2 == 0 {
      k := OneBitHasExponent(n / 2);
      k := k + 1;
    } else {
      if n > 1 { CountOnesPositive(n / 2); }
      k := 0;
    }
  }

  /** The source's test `count_ones() == 1` recognises exactly the powers of two. */
  lemma OneBitIsPow2(n: nat)
    ensures CountOnes(n) == 1 <==> n == Pow2(CeilLog2(n))
  {
    if CountOnes(n) == 1 {
      var k := OneBitHasExponent(n);
      CeilLog2Unique(n, k);
    }
    CountOnesOfPow2(CeilLog2(n));
  }

  // ------------------------------------------------------------------ the aggregate root

  /** The `i`-th leaf of a list padded with `zero` without end. */
  function Leaf<T>(zero: T, roots: seq<T>): nat -> T {
    (i: nat) => if i < |roots| then roots[i] else zero
  }

  /** The `i`-th node, `k` levels above the leaves, of the binary tree over `leaf`. */
  function Node<T>(h: (T, T) -> T, leaf: nat -> T, k: nat, i: nat): T
    decreases k
  {
    if k == 0 then leaf(i)
    else h(Node(h, leaf, k - 1, 2 * i), Node(h, leaf, k - 1, 2 * i + 1))
  }

  /** The meaning of `compute_aggregate_merkle_root`: the root of the perfect tree whose leaves are the
      state roots, zero-padded to the least power of two that holds them. */
  function AggregateRoot<T>(h: (T, T) -> T, zero: T, roots: seq<T>): T {
    if roots == [] then zero else Node(h, Leaf(zero, roots), CeilLog2(|roots|), 0)
  }

  function StateRoots<T>(proofs: seq<ShardProof<T>>): (r: seq<T>)
    ensures |r| == |proofs|
  {
    seq(|proofs|, i requires 0 <= i < |proofs| => proofs[i].stateRoot)
  }

  /** `level` is the whole row of nodes `k` levels above the leaves. */
  ghost predicate IsRow<T>(h: (T, T) -> T, leaf: nat -> T, k: nat, level: seq<T>) {
    forall i :: 0 <= i < |level| ==> level[i] == Node(h, leaf, k, i)
  }

  method HashPairs<T>(h: (T, T) -> T, leaves: seq<T>, ghost leaf: nat -> T, ghost k: nat) returns (next: seq<T>)
    requires |leaves| % 2 == 0 && IsRow(h, leaf, k, leaves)
    ensures 2 * |next| == |leaves| && IsRow(h, leaf, k + 1, next)
  {
    next := [];
    var i := 0;
    while i < |leaves|
      invariant i == 2 * |next| && 0 <= i <= |leaves|
      invariant IsRow(h, leaf, k + 1, next)
    {
      next := next + [h(leaves[i], leaves[i + 1])];
      i := i + 2;
    }
  }

  method PadToPowerOfTwo<T>(zero: T, roots: seq<T>) returns (leaves: seq<T>)
    requires roots != []
    ensures |leaves| == Pow2(CeilLog2(|roots|))
    ensures forall i :: 0 <= i < |leaves| ==> leaves[i] == Leaf(zero, roots)(i)
  {
    leaves := roots;
    ghost var size := Pow2(CeilLog2(|roots|));
    OneBitIsPow2(|leaves|);
    while CountOnes(|leaves|) != 1
      invariant |roots| <= |leaves| <= size
      invariant forall i :: 0 <= i < |leaves| ==> leaves[i] == Leaf(zero, roots)(i)
      invariant CountOnes(|leaves|) == 1 <==> |leaves| == size
      decreases size - |leaves|
    {
      leaves := leaves + [zero];
      CeilLog2Stable(|roots|, |leaves|);
      OneBitIsPow2(|leaves|);
    }
  }

  /** Both loops terminate, every chunk has two elements, and the result is the root of the perfect
      tree over the zero-padded state roots. */
  method ComputeAggregateMerkleRoot<T>(h: (T, T) -> T, zero: T, proofs: seq<ShardProof<T>>) returns (root: T)
    ensures root == AggregateRoot(h, zero, StateRoots(proofs))
  {
    if proofs == [] { return zero; }
    ghost var leaf := Leaf(zero, StateRoots(proofs));
    ghost var up, height := 0, CeilLog2(|proofs|);
    var leaves := PadToPowerOfTwo(zero, StateRoots(proofs));
    while |leaves| > 1
      invariant up <= height && |leaves| == Pow2(height - up)
      invariant IsRow(h, leaf, up, leaves)
      decreases |leaves|
    {
      leaves := HashPairs(h, leaves, leaf, up);
      up := up + 1;
    }
    return leaves[0];
  }

  // ------------------------------------------------------------------ what the root binds

  /** Two different pairs with one hash. */
  predicate IsCollision<T(==)>(h: (T, T) -> T, p: ((T, T), (T, T))) {
    p.0 != p.1 && h(p.0.0, p.0.1) == h(p.1.0, p.1.1)
  }

  /** For 32-byte digests a colliding pair of pairs is a collision of the underlying hash. */
  lemma PairCollisionIsHashCollision(sha3: seq<byte> -> Hash32, p: ((Hash32, Hash32), (Hash32, Hash32)))
    requires IsCollision((a: Hash32, b: Hash32) => sha3(a + b), p)
    ensures p.0.0 + p.0.1 != p.1.0 + p.1.1 && sha3(p.0.0 + p.0.1) == sha3(p.1.0 + p.1.1)
  {
    if p.0.0 + p.0.1 == p.1.0 + p.1.1 {
      SplitEqual<byte>(p.0.0, p.0.1, p.1.0, p.1.1);
    }
  }

  /** The pair hashed to make node (`k`, `i`). */
  function Children<T>(h: (T, T) -> T, leaf: nat -> T, k: nat, i: nat): (T, T)
    requires k >= 1
  {
    (Node(h, leaf, k - 1, 2 * i), Node(h, leaf, k - 1, 2 * i + 1))
  }

  /** The two trees have the same leaves below node (`k`, `i`). */
  predicate SameLeaves<T(==)>(f: nat -> T, g: nat -> T, k: nat, i: nat)
    decreases k
  {
    if k == 0 then f(i) == g(i) else SameLeaves(f, g, k - 1, 2 * i) && SameLeaves(f, g, k - 1, 2 * i + 1)
  }

  /** Walks down two trees with equal roots to two different pairs hashed alike. */
  function FindCollision<T(==)>(h: (T, T) -> T, f: nat -> T, g: nat -> T, k: nat, i: nat): ((T, T), (T, T))
    decreases k
  {
    if k == 0 then ((f(i), f(i)), (g(i), g(i)))
    else if Children(h, f, k, i) != Children(h, g, k, i) then (Children(h, f, k, i), Children(h, g, k, i))
    else if !SameLeaves(f, g, k - 1, 2 * i) then FindCollision(h, f, g, k - 1, 2 * i)
    else FindCollision(h, f, g, k - 1, 2 * i + 1)
  }

  lemma {:induction false} EqualNodes<T>(h: (T, T) -> T, f: nat -> T, g: nat -> T, k: nat, i: nat)
    requires Node(h, f, k, i) == Node(h, g, k, i)
    ensures SameLeaves(f, g, k, i) || IsCollision(h, FindCollision(h, f, g, k, i))
    decreases k
  {
    if k > 0 && Children(h, f, k, i) == Children(h, g, k, i) {
      EqualNodes(h, f, g, k - 1, 2 * i);
      EqualNodes(h, f, g, k - 1, 2 * i + 1);
    }
  }

  lemma {:induction false} SameLeavesSameNode<T>(h: (T, T) -> T, f: nat -> T, g: nat -> T, k: nat, i: nat)
    requires SameLeaves(f, g, k, i)
    ensures Node(h, f, k, i) == Node(h, g, k, i)
    decreases k
  {
    if k > 0 {
      SameLeavesSameNode(h, f, g, k - 1, 2 * i);
      SameLeavesSameNode(h, f, g, k - 1, 2 * i + 1);
    }
  }

  /** The number of leaf `x`'s ancestor `k` levels up. */
  function Ancestor(x: nat, k: nat): nat
    decreases k
  {
    if k == 0 then x else Ancestor(x / 2, k - 1)
  }

  lemma {:induction false} AncestorStep(x: nat, k: nat)
    ensures Ancestor(x, k + 1) == Ancestor(x, k) / 2
    decreases k
  {
    if k > 0 { AncestorStep(x / 2, k - 1); }
  }

  lemma {:induction false} RootIsAncestor(x: nat, k: nat)
    requires x < Pow2(k)
    ensures Ancestor(x, k) == 0
    decreases k
  {
    if k > 0 { RootIsAncestor(x / 2, k - 1); }
  }

  lemma {:induction false} LeafBelow<T>(f: nat -> T, g: nat -> T, k: nat, x: nat)
    requires SameLeaves(f, g, k, Ancestor(x, k))
    ensures f(x) == g(x)
    decreases k
  {
    if k > 0 {
      AncestorStep(x, k - 1);
      LeafBelow(f, g, k - 1, x);
    }
  }

  lemma {:induction false} SameLeavesFrom<T>(f: nat -> T, g: nat -> T, k: nat, i: nat)
    requires forall x: nat :: Ancestor(x, k) == i ==> f(x) == g(x)
    ensures SameLeaves(f, g, k, i)
    decreases k
  {
    if k == 0 {
      assert Ancestor(i, 0) == i;
    } else {
      forall x: nat ensures Ancestor(x, k) == Ancestor(x, k - 1) / 2 { AncestorStep(x, k - 1); }
      SameLeavesFrom(f, g, k - 1, 2 * i);
      SameLeavesFrom(f, g, k - 1, 2 * i + 1);
    }
  }

  /** Two proof lists of the same length with the same aggregate root have the same state roots in
      the same order, or yield a collision. */
  lemma RootBindsStateRoots<T>(h: (T, T) -> T, zero: T, p: seq<ShardProof<T>>, q: seq<ShardProof<T>>)
    requires |p| == |q|
    requires AggregateRoot(h, zero, StateRoots(p)) == AggregateRoot(h, zero, StateRoots(q))
    ensures StateRoots(p) == StateRoots(q)
            || IsCollision(h, FindCollision(h, Leaf(zero, StateRoots(p)), Leaf(zero, StateRoots(q)), CeilLog2(|p|), 0))
  {
    if p != [] {
      var a, b, k := StateRoots(p), StateRoots(q), CeilLog2(|p|);
      EqualNodes(h, Leaf(zero, a), Leaf(zero, b), k, 0);
      if SameLeaves(Leaf(zero, a), Leaf(zero, b), k, 0) {
        forall x | 0 <= x < |p| ensures a[x] == b[x] {
          RootIsAncestor(x, k);
          LeafBelow(Leaf(zero, a), Leaf(zero, b), k, x);
        }
      }
    }
  }

  /** The row of nodes `d` levels up, as the leaves of the tree above it. */
  function Row<T>(h: (T, T) -> T, leaf: nat -> T, d: nat): nat -> T {
    (i: nat) => Node(h, leaf, d, i)
  }

  lemma {:induction false} RowKeepsNodes<T>(h: (T, T) -> T, leaf: nat -> T, d: nat, k: nat, i: nat)
    ensures Node(h, Row(h, leaf, d), k, i) == Node(h, leaf, d + k, i)
    decreases k
  {
    if k > 0 {
      RowKeepsNodes(h, leaf, d, k - 1, 2 * i);
      RowKeepsNodes(h, leaf, d, k - 1, 2 * i + 1);
    }
  }

  /** Across lengths the root does not bind the list, and this is exactly what it binds: short of a
      collision, the roots agree if and only if the shorter padded list is a row of the longer
      one's tree. */
  lemma RootsAcrossLengths<T>(h: (T, T) -> T, zero: T, p: seq<T>, q: seq<T>, d: nat)
    requires p != [] && q != [] && CeilLog2(|q|) == CeilLog2(|p|) + d
    requires !IsCollision(h, FindCollision(h, Leaf(zero, p), Row(h, Leaf(zero, q), d), CeilLog2(|p|), 0))
    ensures AggregateRoot(h, zero, p) == AggregateRoot(h, zero, q) <==>
            forall x: nat :: x < Pow2(CeilLog2(|p|)) ==> Leaf(zero, p)(x) == Node(h, Leaf(zero, q), d, x)
  {
    var k, f, g := CeilLog2(|p|), Leaf(zero, p), Row(h, Leaf(zero, q), d);
    RowKeepsNodes(h, Leaf(zero, q), d, k, 0);
    if AggregateRoot(h, zero, p) == AggregateRoot(h, zero, q) {
      EqualNodes(h, f, g, k, 0);
      forall x: nat | x < Pow2(k) ensures f(x) == g(x) {
        RootIsAncestor(x, k);
        LeafBelow(f, g, k, x);
      }
    }
    if forall x: nat :: x < Pow2(k) ==> f(x) == Node(h, Leaf(zero, q), d, x) {
      forall x: nat | Ancestor(x, k) == 0 ensures f(x) == g(x) { AncestorBound(x, k); }
      SameLeavesFrom(f, g, k, 0);
      SameLeavesSameNode(h, f, g, k, 0);
    }
  }

  lemma {:induction false} AncestorBound(x: nat, k: nat)
    requires Ancestor(x, k) == 0
    ensures x < Pow2(k)
    decreases k
  {
    if k > 0 { AncestorBound(x / 2, k - 1); }
  }

  /** Appending a zero state root never changes the root while there is padding to absorb it. */
  lemma PaddingIsInvisible<T>(h: (T, T) -> T, zero: T, p: seq<T>)
    requires p != [] && |p| < Pow2(CeilLog2(|p|))
    ensures AggregateRoot(h, zero, p + [zero]) == AggregateRoot(h, zero, p)
  {
    CeilLog2Stable(|p|, |p| + 1);
    var f, g, k := Leaf(zero, p), Leaf(zero, p + [zero]), CeilLog2(|p|);
    SameLeavesFrom(f, g, k, 0);
    SameLeavesSameNode(h, f, g, k, 0);
  }

  /** A single state root equal to a pair's hash stands for the pair. */
  lemma InnerNodeIsALeaf<T>(h: (T, T) -> T, zero: T, a: T, b: T)
    ensures AggregateRoot(h, zero, [h(a, b)]) == AggregateRoot(h, zero, [a, b])
  {
    assert CeilLog2(2) == 1;
    assert Node(h, Leaf(zero, [a, b]), 1, 0) == h(a, b);
  }

  // ------------------------------------------------------------------ generate_merkle_proof

  /** One level of a transaction tree over `n` leaves: an odd last hash is carried up unchanged. */
  function Up<T>(h: (T, T) -> T, f: nat -> T, n: nat): nat -> T {
    (i: nat) => if 2 * i + 1 < n then h(f(2 * i), f(2 * i + 1)) else f(2 * i)
  }

  /** The Merkle tree hash of the `n` leaves from `lo` on, in a tree of height `e`: the first 2^(e-1)
      leaves go left, the rest right, and an empty right half adds nothing. */
  function CarryRoot<T>(h: (T, T) -> T, f: nat -> T, e: nat, lo: nat, n: nat): T
    requires 1 <= n <= Pow2(e)
    decreases e
  {
    if e == 0 then f(lo)
    else if n <= Pow2(e - 1) then CarryRoot(h, f, e - 1, lo, n)
    else h(CarryRoot(h, f, e - 1, lo, Pow2(e - 1)),
           CarryRoot(h, f, e - 1, lo + Pow2(e - 1), n - Pow2(e - 1)))
  }

  lemma CarrySplit<T>(h: (T, T) -> T, f: nat -> T, e: nat, lo: nat, n: nat, k: nat)
    requires e >= 1 && k == Pow2(e - 1) && k < n <= 2 * k
    ensures CarryRoot(h, f, e, lo, n) == h(CarryRoot(h, f, e - 1, lo, k), CarryRoot(h, f, e - 1, lo + k, n - k))
  {
  }

  lemma CarryJoin<T>(h: (T, T) -> T, f: nat -> T, g: nat -> T, e: nat, lo: nat, n: nat, m: nat, k: nat)
    requires e >= 1 && k == Pow2(e - 1) && k < m <= 2 * k && 2 * k < n <= 4 * k
    requires CarryRoot(h, g, e - 1, lo, k) == CarryRoot(h, f, e, 2 * lo, 2 * k)
    requires CarryRoot(h, g, e - 1, lo + k, m - k) == CarryRoot(h, f, e, 2 * lo + 2 * k, n - 2 * k)
    ensures CarryRoot(h, g, e, lo, m) == CarryRoot(h, f, e + 1, 2 * lo, n)
  {
    CarrySplit(h, g, e, lo, m, k);
    CarrySplit(h, f, e + 1, 2 * lo, n, 2 * k);
  }

  /** Carrying up one level keeps the root of every stretch of `n` leaves that starts at an even
      leaf and either has even length or ends with the list. */
  lemma {:induction false} CarryKeepsRoot<T>(h: (T, T) -> T, f: nat -> T, total: nat, e: nat, lo: nat, n: nat, m: nat)
    requires 1 <= n <= Pow2(e + 1) && 1 <= m <= Pow2(e) && 2 * lo + n <= total
    requires n == 2 * m || (n == 2 * m - 1 && 2 * lo + n == total)
    ensures CarryRoot(h, Up(h, f, total), e, lo, m) == CarryRoot(h, f, e + 1, 2 * lo, n)
    decreases e
  {
    if e == 0 {
      assert Pow2(1) == 2;
    } else if m <= Pow2(e - 1) {
      CarryKeepsRoot(h, f, total, e - 1, lo, n, m);
    } else {
      var k := Pow2(e - 1);
      CarryKeepsRoot(h, f, total, e - 1, lo, 2 * k, k);
      CarryKeepsRoot(h, f, total, e - 1, lo + k, n - 2 * k, m - k);
      CarryJoin(h, f, Up(h, f, total), e, lo, n, m, k);
    }
  }

  lemma Halves(e: nat, i: nat)
    requires e >= 1
    ensures Pow2(e) * i == Pow2(e - 1) * (2 * i) && Pow2(e) * i + Pow2(e - 1) == Pow2(e - 1) * (2 * i + 1)
  {
  }

  /** Over a whole power of two the carry-up tree and the padded tree are the same: both hash left before right. */
  lemma {:induction false} TreesAgree<T>(h: (T, T) -> T, f: nat -> T, e: nat, i: nat)
    ensures CarryRoot(h, f, e, Pow2(e) * i, Pow2(e)) == Node(h, f, e, i)
    decreases e
  {
    if e > 0 {
      Halves(e, i);
      TreesAgree(h, f, e - 1, 2 * i);
      TreesAgree(h, f, e - 1, 2 * i + 1);
      CarrySplit(h, f, e, Pow2(e) * i, Pow2(e), Pow2(e - 1));
    }
  }

  function Levels<T>(h: (T, T) -> T, f: nat -> T, n: nat, j: nat): nat -> T
    decreases j
  {
    if j == 0 then f else Levels(h, Up(h, f, n), (n + 1) / 2, j - 1)
  }

  /** How many hashes are left after `j` levels. */
  function Width(n: nat, j: nat): nat
    decreases j
  {
    if j == 0 then n else Width((n + 1) / 2, j - 1)
  }

  lemma {:induction false} NextLevel<T>(h: (T, T) -> T, f: nat -> T, n: nat, j: nat)
    ensures Levels(h, f, n, j + 1) == Up(h, Levels(h, f, n, j), Width(n, j))
    ensures Width(n, j + 1) == (Width(n, j) + 1) / 2
    decreases j
  {
    if j > 0 { NextLevel(h, Up(h, f, n), (n + 1) / 2, j - 1); }
  }

  /** The first hash of level `j` is the tree hash of the first 2^j transaction hashes. */
  lemma {:induction false} LevelHead<T>(h: (T, T) -> T, f: nat -> T, n: nat, j: nat)
    requires n >= 1
    ensures Levels(h, f, n, j)(0) == CarryRoot(h, f, j, 0, Min(Pow2(j), n))
    decreases j
  {
    if j > 0 {
      var m := Min(Pow2(j - 1), (n + 1) / 2);
      LevelHead(h, Up(h, f, n), (n + 1) / 2, j - 1);
      CarryKeepsRoot(h, f, n, j - 1, 0, Min(Pow2(j), n), m);
    }
  }

  method HashChunks<T>(h: (T, T) -> T, level: seq<T>, ghost f: nat -> T) returns (next: seq<T>)
    requires forall i :: 0 <= i < |level| ==> level[i] == f(i)
    ensures |next| == (|level| + 1) / 2
    ensures forall i :: 0 <= i < |next| ==> next[i] == Up(h, f, |level|)(i)
  {
    next := [];
    var i := 0;
    while i < |level|
      invariant i == 2 * |next| && 0 <= i <= |level| + 1
      invariant forall i :: 0 <= i < |next| ==> next[i] == Up(h, f, |level|)(i)
    {
      next := next + [if i + 1 < |level| then h(level[i], level[i + 1]) else level[i]];
      i := i + 2;
    }
  }

  /** The tree hash of the first 2^k hashes of a list. */
  function Spine<T>(h: (T, T) -> T, hs: seq<T>, k: nat): T
    requires hs != []
  {
    CarryRoot(h, Leaf(hs[0], hs), k, 0, Min(Pow2(k), |hs|))
  }

  /** Terminates for every transaction list; entry `k` is the tree hash of the first min(2^k, n)
      transaction hashes, there are ceil(log2 n) of them, and the state root closes the list. */
  method GenerateMerkleProof<T>(h: (T, T) -> T, txHashes: seq<T>, stateRoot: T) returns (proof: seq<T>)
    ensures txHashes == [] ==> proof == [stateRoot]
    ensures txHashes != [] ==> |proof| == CeilLog2(|txHashes|) + 1 && proof[|proof| - 1] == stateRoot
    ensures txHashes != [] ==> forall k :: 0 <= k < |proof| - 1 ==> proof[k] == Spine(h, txHashes, k)
  {
    if txHashes == [] { return [stateRoot]; }
    ghost var f, n := Leaf(txHashes[0], txHashes), |txHashes|;
    proof := [];
    var current := txHashes;
    while |current| > 1
      invariant |current| == Width(n, |proof|) >= 1
      invariant forall i :: 0 <= i < |current| ==> current[i] == Levels(h, f, n, |proof|)(i)
      invariant |proof| + CeilLog2(|current|) == CeilLog2(n)
      invariant forall k :: 0 <= k < |proof| ==> proof[k] == Spine(h, txHashes, k)
      decreases |current|
    {
      LevelHead(h, f, n, |proof|);
      NextLevel(h, f, n, |proof|);
      CeilLog2Half(|current|);
      var next := HashChunks(h, current, Levels(h, f, n, |proof|));
      proof := proof + [current[0]];
      current := next;
    }
    proof := proof + [stateRoot];
  }
}
