/** storm-tree/src/smt.rs: a Merkle tree over ascending leaves, kept in a heap array. */
module MerkleTrees {
  import opened Prelude
  import opened Sorting

  const MAX_DEPTH: nat := 20

  /** A 32-byte value, read as a big-endian number. */
  type Leaf = nat

  /** SHA-256 as a free term: the all-zero hash, `sha256(leaf || 0x01)` and `sha256(left || right)`. */
  datatype Hash = Zero | LeafHash(leaf: Leaf) | NodeHash(left: Hash, right: Hash)

  datatype Sibling = Sibling(isRight: bool, hash: Hash)

  datatype Proof = Proof(leaf: Leaf, root: Hash, siblings: seq<Sibling>)

  datatype Error =
    | DepthIsZero
    | DepthExceedsMaximum(depth: nat)
    | TreeIsFull(capacity: nat)
    | OutOfOrder(leaf: Leaf, last: Leaf)
    | UnknownLeaf(unknown: Leaf)

  function Pow2(n: nat): (p: nat)
    ensures p >= 1
  {
    if n == 0 then 1 else 2 * Pow2(n - 1)
  }

  // ----- The recursive tree the heap array stands for -----

  /** The root of the subtree of height `height` over `leaves`, filled from the left; empty subtrees are `Zero`. */
  function MerkleRoot(leaves: seq<Leaf>, height: nat): Hash
    decreases height
  {
    if leaves == [] then Zero
    else if height == 0 then LeafHash(leaves[0])
    else NodeHash(MerkleRoot(LeftHalf(leaves, height), height - 1), MerkleRoot(RightHalf(leaves, height), height - 1))
  }

  function LeftHalf(leaves: seq<Leaf>, height: nat): seq<Leaf>
    requires height > 0
  {
    leaves[..Min(|leaves|, Pow2(height - 1))]
  }

  function RightHalf(leaves: seq<Leaf>, height: nat): seq<Leaf>
    requires height > 0
  {
    leaves[Min(|leaves|, Pow2(height - 1))..]
  }

  lemma HalvesFit(leaves: seq<Leaf>, height: nat)
    requires height > 0 && |leaves| <= Pow2(height)
    ensures |LeftHalf(leaves, height)| <= Pow2(height - 1) && |RightHalf(leaves, height)| <= Pow2(height - 1)
    ensures leaves == LeftHalf(leaves, height) + RightHalf(leaves, height)
    ensures leaves != [] ==> LeftHalf(leaves, height) != []
  {
  }

  /** What cell `i` of a heap with `capacity` leaf slots must hold. */
  function HeapCell(i: nat, capacity: nat, leaves: seq<Leaf>): Hash
    requires 1 <= i < 2 * capacity
    decreases 2 * capacity - i
  {
    if i >= capacity then
      if i - capacity < |leaves| then LeafHash(leaves[i - capacity]) else Zero
    else
      var left, right := HeapCell(2 * i, capacity, leaves), HeapCell(2 * i + 1, capacity, leaves);
      if left == Zero && right == Zero then Zero else NodeHash(left, right)
  }

  /** The leaves in slots `from..from + count`. */
  function Slots(leaves: seq<Leaf>, from: nat, count: nat): seq<Leaf> {
    leaves[Min(|leaves|, from)..Min(|leaves|, from + count)]
  }

  /** Cell `i` is the root of the subtree of height `height` over the leaf slots from `from` on. */
  predicate Spans(i: nat, height: nat, capacity: nat, from: nat)
    decreases height
  {
    if height == 0 then i == capacity + from && from < capacity
    else
      && Spans(2 * i, height - 1, capacity, from)
      && Spans(2 * i + 1, height - 1, capacity, from + Pow2(height - 1))
  }

  lemma {:induction false} SpansByPosition(i: nat, height: nat, capacity: nat, from: nat)
    requires i * Pow2(height) == capacity + from && from + Pow2(height) <= capacity
    ensures Spans(i, height, capacity, from)
    decreases height
  {
    if height > 0 {
      var half := Pow2(height - 1);
      assert i * (2 * half) == (2 * i) * half;
      assert (2 * i + 1) * half == (2 * i) * half + half;
      SpansByPosition(2 * i, height - 1, capacity, from);
      SpansByPosition(2 * i + 1, height - 1, capacity, from + half);
    }
  }

  lemma {:induction false} SpansStaysInHeap(i: nat, height: nat, capacity: nat, from: nat)
    requires Spans(i, height, capacity, from)
    ensures i < 2 * capacity && (height > 0 ==> i < capacity)
    decreases height
  {
    if height > 0 {
      SpansStaysInHeap(2 * i, height - 1, capacity, from);
    }
  }

  lemma HalvesOfSlots(leaves: seq<Leaf>, from: nat, height: nat)
    requires height > 0
    ensures LeftHalf(Slots(leaves, from, Pow2(height)), height) == Slots(leaves, from, Pow2(height - 1))
    ensures RightHalf(Slots(leaves, from, Pow2(height)), height)
            == Slots(leaves, from + Pow2(height - 1), Pow2(height - 1))
  {
  }

  /**
   * Every heap cell is the recursive Merkle root of the leaf slots below it, and `Zero` exactly when those are empty.
   */
  lemma {:induction false} HeapCellIsMerkleRoot(i: nat, height: nat, capacity: nat, from: nat, leaves: seq<Leaf>)
    requires i >= 1 && Spans(i, height, capacity, from)
    ensures i < 2 * capacity
    ensures HeapCell(i, capacity, leaves) == MerkleRoot(Slots(leaves, from, Pow2(height)), height)
    ensures HeapCell(i, capacity, leaves) == Zero <==> |leaves| <= from
    decreases height
  {
    SpansStaysInHeap(i, height, capacity, from);
    var under := Slots(leaves, from, Pow2(height));
    assert under == [] <==> |leaves| <= from;
    if height == 0 {
      if from < |leaves| {
        assert under[0] == leaves[from];
      }
    } else {
      var half := Pow2(height - 1);
      HeapCellIsMerkleRoot(2 * i, height - 1, capacity, from, leaves);
      HeapCellIsMerkleRoot(2 * i + 1, height - 1, capacity, from + half, leaves);
      HalvesOfSlots(leaves, from, height);
    }
  }

  lemma RootCell(depth: nat, leaves: seq<Leaf>)
    requires |leaves| <= Pow2(depth)
    ensures HeapCell(1, Pow2(depth), leaves) == MerkleRoot(leaves, depth)
  {
    SpansByPosition(1, depth, Pow2(depth), 0);
    HeapCellIsMerkleRoot(1, depth, Pow2(depth), 0, leaves);
    assert Slots(leaves, 0, Pow2(depth)) == leaves;
  }

  // ----- Proofs: the fold, and what folding to a root implies -----

  function FoldStep(hash: Hash, sibling: Sibling): Hash {
    if sibling.isRight then NodeHash(sibling.hash, hash) else NodeHash(hash, sibling.hash)
  }

  /** The root implied by a hash and its siblings, deepest first. */
  function Fold(hash: Hash, siblings: seq<Sibling>): (root: Hash)
    ensures hash != Zero ==> root != Zero
  {
    if siblings == [] then hash
    else FoldStep(Fold(hash, siblings[..|siblings| - 1]), siblings[|siblings| - 1])
  }

  /** The true authentication path of slot `k`. */
  function TruePath(leaves: seq<Leaf>, height: nat, k: nat): seq<Sibling>
    requires k < |leaves| <= Pow2(height)
    decreases height
  {
    if height == 0 then []
    else if k < Pow2(height - 1) then
      TruePath(LeftHalf(leaves, height), height - 1, k)
      + [Sibling(false, MerkleRoot(RightHalf(leaves, height), height - 1))]
    else
      TruePath(RightHalf(leaves, height), height - 1, k - Pow2(height - 1))
      + [Sibling(true, MerkleRoot(LeftHalf(leaves, height), height - 1))]
  }

  /** Completeness: the true path of a held leaf has one sibling a level and folds to the root. */
  lemma {:induction false} TruePathFolds(leaves: seq<Leaf>, height: nat, k: nat)
    requires k < |leaves| <= Pow2(height)
    ensures |TruePath(leaves, height, k)| == height
    ensures Fold(LeafHash(leaves[k]), TruePath(leaves, height, k)) == MerkleRoot(leaves, height)
    decreases height
  {
    if height > 0 {
      HalvesFit(leaves, height);
      var half := Pow2(height - 1);
      if k < half {
        TruePathFolds(LeftHalf(leaves, height), height - 1, k);
      } else {
        TruePathFolds(RightHalf(leaves, height), height - 1, k - half);
      }
      LastStepFolds(leaves, height, k);
    }
  }

  lemma LastStepFolds(leaves: seq<Leaf>, height: nat, k: nat)
    requires height > 0 && k < |leaves| <= Pow2(height)
    ensures var half := Pow2(height - 1);
            var (side, at) := if k < half then (LeftHalf(leaves, height), k) else (RightHalf(leaves, height), k - half);
            && side[at] == leaves[k]
            && |TruePath(leaves, height, k)| == |TruePath(side, height - 1, at)| + 1
            && (Fold(LeafHash(leaves[k]), TruePath(side, height - 1, at)) == MerkleRoot(side, height - 1) ==>
                  Fold(LeafHash(leaves[k]), TruePath(leaves, height, k)) == MerkleRoot(leaves, height))
  {
    var half := Pow2(height - 1);
    if k < half {
      FoldAppend(LeafHash(leaves[k]), TruePath(LeftHalf(leaves, height), height - 1, k),
                 Sibling(false, MerkleRoot(RightHalf(leaves, height), height - 1)));
    } else {
      FoldAppend(LeafHash(leaves[k]), TruePath(RightHalf(leaves, height), height - 1, k - half),
                 Sibling(true, MerkleRoot(LeftHalf(leaves, height), height - 1)));
    }
  }

  lemma FoldAppend(hash: Hash, siblings: seq<Sibling>, sibling: Sibling)
    ensures Fold(hash, siblings + [sibling]) == FoldStep(Fold(hash, siblings), sibling)
  {
    assert (siblings + [sibling])[..|siblings|] == siblings;
  }

  /** Binding: whatever folds to the root of a non-empty tree, at any length, is a held leaf with its true path. */
  lemma {:induction false} FoldNamesALeaf(leaves: seq<Leaf>, height: nat, leaf: Leaf, siblings: seq<Sibling>)
      returns (k: nat)
    requires |leaves| <= Pow2(height)
    requires Fold(LeafHash(leaf), siblings) == MerkleRoot(leaves, height)
    ensures k < |leaves| && leaves[k] == leaf && siblings == TruePath(leaves, height, k)
    decreases height
  {
    assert leaves != [];
    if height == 0 {
      k := 0;
    } else {
      HalvesFit(leaves, height);
      var last := siblings[|siblings| - 1];
      var deeper := siblings[..|siblings| - 1];
      assert siblings == deeper + [last];
      if last.isRight {
        k := FoldNamesALeaf(RightHalf(leaves, height), height - 1, leaf, deeper);
        k := k + Pow2(height - 1);
      } else {
        k := FoldNamesALeaf(LeftHalf(leaves, height), height - 1, leaf, deeper);
      }
    }
  }

  /** Membership, exactly: a proof verifies against the root if and only if it is the true path of a held leaf. */
  lemma MembershipIsExact(leaves: seq<Leaf>, height: nat, leaf: Leaf, siblings: seq<Sibling>)
    requires |leaves| <= Pow2(height)
    ensures Fold(LeafHash(leaf), siblings) == MerkleRoot(leaves, height)
       <==> exists k :: 0 <= k < |leaves| && leaves[k] == leaf && siblings == TruePath(leaves, height, k)
  {
    if Fold(LeafHash(leaf), siblings) == MerkleRoot(leaves, height) {
      var k := FoldNamesALeaf(leaves, height, leaf, siblings);
    }
    forall k | 0 <= k < |leaves| && leaves[k] == leaf && siblings == TruePath(leaves, height, k)
      ensures Fold(LeafHash(leaf), siblings) == MerkleRoot(leaves, height)
    {
      TruePathFolds(leaves, height, k);
    }
  }

  /** Roots bind the whole leaf list and the depth: no two different non-empty trees share a root. */
  lemma {:induction false} RootBindsLeaves(a: seq<Leaf>, heightA: nat, b: seq<Leaf>, heightB: nat)
    requires |a| <= Pow2(heightA) && |b| <= Pow2(heightB)
    requires MerkleRoot(a, heightA) == MerkleRoot(b, heightB)
    ensures a == b
    ensures a != [] ==> heightA == heightB
    decreases heightA
  {
    if a != [] && heightA > 0 {
      assert b != [] && heightB > 0;
      HalvesFit(a, heightA);
      HalvesFit(b, heightB);
      RootBindsLeaves(LeftHalf(a, heightA), heightA - 1, LeftHalf(b, heightB), heightB - 1);
      RootBindsLeaves(RightHalf(a, heightA), heightA - 1, RightHalf(b, heightB), heightB - 1);
    }
  }

  // ----- depth_for -----

  /** The exponent of the next power of two, from `depth` up. */
  function NextPower(n: nat, depth: nat): (d: nat)
    requires n > 0
    ensures d >= depth && n <= Pow2(d)
    ensures d > depth ==> Pow2(d - 1) < n
    decreases n - Pow2(depth)
  {
    if n <= Pow2(depth) then depth else NextPower(n, depth + 1)
  }

  function DepthFor(leaves: nat): Option<nat> {
    var depth := NextPower(Max(leaves, 2), 1);
    if depth <= MAX_DEPTH then Some(depth) else None
  }

  lemma {:induction false} Pow2Monotone(a: nat, b: nat)
    requires a <= b
    ensures Pow2(a) <= Pow2(b)
    decreases b
  {
    if a < b {
      Pow2Monotone(a, b - 1);
    }
  }

  /** `DepthFor` is the least usable depth that fits, and exists exactly up to 2^20 leaves. */
  lemma DepthForIsLeast(leaves: nat)
    ensures DepthFor(leaves).Some? <==> leaves <= Pow2(MAX_DEPTH)
    ensures DepthFor(leaves).Some? ==>
              && 1 <= DepthFor(leaves).value <= MAX_DEPTH
              && leaves <= Pow2(DepthFor(leaves).value)
              && forall d :: 1 <= d && leaves <= Pow2(d) ==> DepthFor(leaves).value <= d
  {
    var depth := NextPower(Max(leaves, 2), 1);
    forall d: nat | 1 <= d && leaves <= Pow2(d) ensures depth <= d {
      if d < depth {
        Pow2Monotone(d, depth - 1);
      }
    }
    if leaves > Pow2(MAX_DEPTH) && depth <= MAX_DEPTH {
      Pow2Monotone(depth, MAX_DEPTH);
    }
  }

  /** The root `from_leaves` gives a leaf list that is already ascending. */
  function RootOf(leaves: seq<Leaf>): Option<Hash> {
    if DepthFor(|leaves|).Some? then Some(MerkleRoot(leaves, DepthFor(|leaves|).value)) else None
  }

  /** `from_leaves` on two different leaf sets, of whatever sizes and depths, never gives equal roots. */
  lemma RootOfBindsTheLeafSet(a: seq<Leaf>, b: seq<Leaf>)
    requires RootOf(SortKeys(a)).Some? && RootOf(SortKeys(b)).Some?
    ensures RootOf(SortKeys(a)) == RootOf(SortKeys(b)) <==> multiset(a) == multiset(b)
  {
    var sortedA, sortedB := SortKeys(a), SortKeys(b);
    DepthForIsLeast(|a|);
    DepthForIsLeast(|b|);
    if RootOf(sortedA) == RootOf(sortedB) {
      RootBindsLeaves(sortedA, DepthFor(|a|).value, sortedB, DepthFor(|b|).value);
    }
    if multiset(a) == multiset(b) {
      SortKeysForgetsOrder(a, b);
    }
  }

  // ----- Which cells an appended leaf can change -----

  /** Whether cell `i` lies on the path from cell `j` to the root. */
  predicate OnPath(i: nat, j: nat) {
    i == j || (j > i && OnPath(i, j / 2))
  }

  lemma {:induction false} PathThroughChild(i: nat, j: nat)
    requires i >= 1
    ensures OnPath(2 * i, j) || OnPath(2 * i + 1, j) ==> OnPath(i, j)
  {
    if j > 2 * i + 1 {
      PathThroughChild(i, j / 2);
    }
  }

  /** Appending a leaf leaves every cell off its path as it was. */
  lemma {:induction false} AppendKeepsOffPath(i: nat, capacity: nat, leaves: seq<Leaf>, leaf: Leaf)
    requires 1 <= i < 2 * capacity
    requires !OnPath(i, capacity + |leaves|)
    ensures HeapCell(i, capacity, leaves + [leaf]) == HeapCell(i, capacity, leaves)
    decreases 2 * capacity - i
  {
    if i < capacity {
      PathThroughChild(i, capacity + |leaves|);
      AppendKeepsOffPath(2 * i, capacity, leaves, leaf);
      AppendKeepsOffPath(2 * i + 1, capacity, leaves, leaf);
    }
  }

  lemma {:induction false} OnPathStep(i: nat, parent: nat, j: nat)
    requires OnPath(i, j) && OnPath(parent, j) && parent >= 1 && i < parent
    ensures i <= parent / 2
    decreases j
  {
    if j > parent {
      OnPathStep(i, parent, j / 2);
    }
  }

  lemma {:induction false} PathHalves(parent: nat, j: nat)
    requires OnPath(parent, j) && parent >= 1
    ensures OnPath(parent / 2, j)
    decreases j
  {
    if j == parent {
      assert OnPath(parent / 2, j / 2);
    } else {
      PathHalves(parent, j / 2);
    }
  }

  /** The heap `cells` holds the hashes of `leaves`. */
  ghost predicate Hashed(cells: seq<Hash>, leaves: seq<Leaf>) {
    && |cells| % 2 == 0
    && forall i | 1 <= i < |cells| :: cells[i] == HeapCell(i, |cells| / 2, leaves)
  }

  /** Every cell above `parent` or off the path to `index` already holds its hash. */
  ghost predicate RehashedDownTo(cells: seq<Hash>, parent: nat, index: nat, leaves: seq<Leaf>) {
    && |cells| % 2 == 0
    && forall i | 1 <= i < |cells| && (i > parent || !OnPath(i, index)) :: cells[i] == HeapCell(i, |cells| / 2, leaves)
  }

  /** Hashing the two cells below `parent` settles it. */
  lemma RehashStep(cells: seq<Hash>, parent: nat, done: nat, index: nat, leaves: seq<Leaf>)
    requires RehashedDownTo(cells, parent, index, leaves)
    requires 1 <= done < |cells| && parent == done / 2 >= 1 && cells[done] != Zero
    requires OnPath(parent, index)
    ensures RehashedDownTo(cells[parent := NodeHash(cells[parent * 2], cells[parent * 2 + 1])], parent / 2, index,
            leaves)
    ensures OnPath(parent / 2, index)
  {
    var left, right := cells[parent * 2], cells[parent * 2 + 1];
    assert done == parent * 2 || done == parent * 2 + 1;
    assert left == HeapCell(parent * 2, |cells| / 2, leaves) && right == HeapCell(parent * 2 + 1, |cells| / 2, leaves);
    assert HeapCell(parent, |cells| / 2, leaves) == NodeHash(left, right);
    var next := cells[parent := NodeHash(left, right)];
    forall i | 1 <= i < |next|
        && (i > parent / 2 || !OnPath(i, index)) ensures next[i] == HeapCell(i, |cells| / 2, leaves) {
      if i < parent && OnPath(i, index) {
        OnPathStep(i, parent, index);
      }
    }
    PathHalves(parent, index);
  }

  // ----- The mutable tree -----

  /** The leaves ascend, and the position map sends each to its cell. */
  ghost predicate Located(leaves: seq<Leaf>, positions: map<Leaf, nat>, firstLeaf: nat) {
    && StrictlyAscending(leaves)
    && positions.Keys == ToSet(leaves)
    && forall k | 0 <= k < |leaves| :: leaves[k] in positions && positions[leaves[k]] == firstLeaf + k
  }

  lemma AppendLocates(leaves: seq<Leaf>, positions: map<Leaf, nat>, firstLeaf: nat, leaf: Leaf)
    requires Located(leaves, positions, firstLeaf)
    requires leaves == [] || leaves[|leaves| - 1] < leaf
    ensures Located(leaves + [leaf], positions[leaf := firstLeaf + |leaves|], firstLeaf)
  {
    forall k | 0 <= k < |leaves| ensures leaves[k] < leaf {
      assert leaves[k] <= leaves[|leaves| - 1];
    }
    assert ToSet(leaves + [leaf]) == ToSet(leaves) + {leaf};
  }

  class MerkleTree {
    const depth: nat
    /** 1-based heap array; index 0 is unused. */
    const nodes: array<Hash>
    /** The keys of the ordered position map, ascending, and the map itself. */
    var leaves: seq<Leaf>
    var positions: map<Leaf, nat>

    ghost predicate Valid()
      reads this, nodes
    {
      && 1 <= depth <= MAX_DEPTH
      && nodes.Length == 2 * Pow2(depth)
      && |leaves| <= Pow2(depth)
      && Located(leaves, positions, Pow2(depth))
      && Hashed(nodes[..], leaves)
    }

    constructor Empty(depth: nat)
      requires 1 <= depth <= MAX_DEPTH
      ensures Valid() && leaves == [] && this.depth == depth && fresh(nodes)
    {
      this.depth := depth;
      nodes := new Hash[2 * Pow2(depth)](_ => Zero);
      leaves := [];
      positions := map[];
      new;
      forall i | 1 <= i < 2 * Pow2(depth) ensures HeapCell(i, Pow2(depth), []) == Zero {
        EmptyCell(i, Pow2(depth));
      }
    }

    static method New(depth: nat) returns (r: Result<MerkleTree, Error>)
      ensures r.Ok? <==> 1 <= depth <= MAX_DEPTH
      ensures r.Ok? ==> r.value.Valid() && r.value.leaves == [] && r.value.depth == depth
      ensures r.Ok? ==> fresh(r.value) && fresh(r.value.nodes)
      ensures r.Err? ==> r.error == if depth == 0 then DepthIsZero else DepthExceedsMaximum(depth)
    {
      if depth == 0 {
        return Err(DepthIsZero);
      }
      if depth > MAX_DEPTH {
        return Err(DepthExceedsMaximum(depth));
      }
      var tree := new MerkleTree.Empty(depth);
      return Ok(tree);
    }

    function Root(): Hash
      requires nodes.Length > 1
      reads this, nodes
    {
      nodes[1]
    }

    /** The incremental root is the from-scratch root of the held leaves. */
    lemma RootIsMerkleRoot()
      requires Valid()
      ensures Root() == MerkleRoot(leaves, depth)
    {
      assert nodes[..][1] == HeapCell(1, Pow2(depth), leaves);
      RootCell(depth, leaves);
    }

    method Add(leaf: Leaf) returns (r: Result<Unit, Error>)
      requires Valid()
      modifies this, nodes
      ensures Valid()
      ensures r.Ok? <==> (old(leaves) == [] || old(leaves)[|old(leaves)| - 1] < leaf) && |old(leaves)| < Pow2(depth)
      ensures r.Ok? ==> leaves == old(leaves) + [leaf]
      ensures r.Err? ==> leaves == old(leaves) && positions == old(positions) && nodes[..] == old(nodes[..])
      ensures r.Err? ==> r.error == if old(leaves) != [] && leaf <= old(leaves)[|old(leaves)| - 1]
                                    then OutOfOrder(leaf, old(leaves)[|old(leaves)| - 1])
                                    else TreeIsFull(Pow2(depth))
    {
      if leaves != [] && leaf <= leaves[|leaves| - 1] {
        return Err(OutOfOrder(leaf, leaves[|leaves| - 1]));
      }
      if |leaves| == Pow2(depth) {
        return Err(TreeIsFull(Pow2(depth)));
      }
      var index := Pow2(depth) + |leaves|;
      AppendPrepares(nodes[..], leaves, positions, Pow2(depth), leaf, index);
      ghost var cells := nodes[..];
      nodes[index] := LeafHash(leaf);
      leaves := leaves + [leaf];
      positions := positions[leaf := index];
      assert nodes[..] == cells[index := LeafHash(leaf)];
      RehashPath(index);
      return Ok(Unit);
    }

    /** Hashes the cells above `index` again, one a level. */
    method RehashPath(index: nat)
      requires nodes.Length == 2 * Pow2(depth) && Pow2(depth) <= index < 2 * Pow2(depth) && depth >= 1
      requires nodes[index] != Zero && RehashedDownTo(nodes[..], index / 2, index, leaves)
      modifies nodes
      ensures Hashed(nodes[..], leaves)
    {
      var parent := index / 2;
      ghost var done := index;
      PathHalves(index, index);
      while parent >= 1
        invariant parent == done / 2 && 1 <= done < nodes.Length && nodes[done] != Zero
        invariant OnPath(parent, index)
        invariant RehashedDownTo(nodes[..], parent, index, leaves)
      {
        RehashStep(nodes[..], parent, done, index, leaves);
        ghost var before := nodes[..];
        nodes[parent] := NodeHash(nodes[parent * 2], nodes[parent * 2 + 1]);
        assert nodes[..] == before[parent := NodeHash(before[parent * 2], before[parent * 2 + 1])];
        done := parent;
        parent := parent / 2;
      }
    }

    /** Builds the inclusion proof by walking from the leaf's cell to the root. */
    method Prove(leaf: Leaf) returns (r: Result<Proof, Error>)
      requires Valid()
      ensures r.Ok? <==> leaf in leaves
      ensures r.Err? ==> r.error == UnknownLeaf(leaf)
      ensures r.Ok? ==> r.value.leaf == leaf && r.value.root == Root()
      ensures r.Ok? ==> |r.value.siblings| == depth && VerifyProof(r.value)
      ensures r.Ok? ==>
                forall k | 0 <= k < |leaves| && leaves[k] == leaf :: r.value.siblings == TruePath(leaves, depth, k)
    {
      if leaf !in positions {
        return Err(UnknownLeaf(leaf));
      }
      ghost var k :| 0 <= k < |leaves| && leaves[k] == leaf;
      var siblings := WalkUp(positions[leaf]);
      RootIsMerkleRoot();
      k := FoldNamesALeaf(leaves, depth, leaf, siblings);
      HeldOnce(leaves, k);
      return Ok(Proof(leaf, Root(), siblings));
    }

    /** The neighbours met on the way from a leaf cell to the root. */
    method WalkUp(start: nat) returns (siblings: seq<Sibling>)
      requires Valid() && Pow2(depth) <= start < 2 * Pow2(depth) && nodes[start] != Zero
      ensures |siblings| == depth && Fold(nodes[start], siblings) == Root()
    {
      var index := start;
      siblings := [];
      while index > 1
        invariant |siblings| <= depth
        invariant Pow2(depth - |siblings|) <= index < 2 * Pow2(depth - |siblings|)
        invariant index < nodes.Length
        invariant Fold(nodes[start], siblings) == nodes[index]
      {
        HalvesInto(index, depth - |siblings|);
        ParentFolds(index, Pow2(depth), leaves);
        FoldAppend(nodes[start], siblings, Sibling(index % 2 == 1, nodes[Neighbour(index)]));
        siblings := siblings + [Sibling(index % 2 == 1, nodes[Neighbour(index)])];
        index := index / 2;
      }
    }

    /** Adds ascending leaves one by one to an empty tree. */
    method AddAll(sorted: seq<Leaf>) returns (r: Result<Unit, Error>)
      requires Valid() && leaves == [] && SortedBy(sorted, KeyLe) && |sorted| <= Pow2(depth)
      modifies this, nodes
      ensures Valid()
      ensures r.Ok? ==> leaves == sorted
      ensures r.Err? ==> r.error.OutOfOrder? && !NoDuplicates(sorted)
    {
      var k := 0;
      while k < |sorted|
        invariant k <= |sorted| && Valid() && leaves == sorted[..k]
      {
        var added := Add(sorted[k]);
        if added.Err? {
          RepeatFound(sorted, k);
          return added;
        }
        PrefixGrows(sorted, k);
        k := k + 1;
      }
      return Ok(Unit);
    }

    /** Sorts the leaves and appends them to a tree just deep enough. */
    static method FromLeaves(input: seq<Leaf>) returns (r: Result<MerkleTree, Error>)
      ensures r.Ok? <==> NoDuplicates(input) && |input| <= Pow2(MAX_DEPTH)
      ensures r.Ok? ==>
                && r.value.Valid() && r.value.leaves == SortKeys(input)
                && Some(r.value.depth) == DepthFor(|input|)
                && Some(r.value.Root()) == RootOf(SortKeys(input))
                && fresh(r.value) && fresh(r.value.nodes)
      ensures r.Err? ==> if |input| > Pow2(MAX_DEPTH) then r.error == TreeIsFull(Pow2(MAX_DEPTH))
              else r.error.OutOfOrder?
    {
      DepthForIsLeast(|input|);
      var sorted := SortKeys(input);
      SameRepeats(input, sorted);
      var depth := DepthFor(|sorted|);
      if depth.None? {
        return Err(TreeIsFull(Pow2(MAX_DEPTH)));
      }
      var made := New(depth.value);
      var tree := made.value;
      var added := tree.AddAll(sorted);
      if added.Err? {
        return Err(added.error);
      }
      AscendingHasNoRepeats(sorted);
      tree.RootIsMerkleRoot();
      return Ok(tree);
    }
  }

  lemma PrefixGrows(s: seq<Leaf>, k: nat)
    requires k < |s|
    ensures s[..k] + [s[k]] == s[..k + 1]
    ensures k + 1 == |s| ==> s[..k + 1] == s
  {
  }

  lemma RepeatFound(sorted: seq<Leaf>, k: nat)
    requires SortedBy(sorted, KeyLe) && 0 < k < |sorted| && sorted[k] <= sorted[k - 1]
    ensures !NoDuplicates(sorted)
  {
    assert KeyLe(sorted[k - 1], sorted[k]);
  }

  lemma AscendingHasNoRepeats(s: seq<Leaf>)
    requires StrictlyAscending(s)
    ensures NoDuplicates(s)
  {
  }

  lemma SameRepeats(a: seq<Leaf>, b: seq<Leaf>)
    requires multiset(a) == multiset(b)
    ensures NoDuplicates(a) <==> NoDuplicates(b)
  {
    if NoDuplicates(a) {
      DuplicatesFollowMultiset(a, b);
    }
    if NoDuplicates(b) {
      DuplicatesFollowMultiset(b, a);
    }
  }

  lemma HeldOnce(leaves: seq<Leaf>, k: nat)
    requires StrictlyAscending(leaves) && k < |leaves|
    ensures forall j | 0 <= j < |leaves| && leaves[j] == leaves[k] :: j == k
  {
  }

  lemma AppendPrepares(cells: seq<Hash>, leaves: seq<Leaf>, positions: map<Leaf, nat>, capacity: nat, leaf: Leaf,
                       index: nat)
    requires |cells| == 2 * capacity && index == capacity + |leaves| && |leaves| < capacity
    requires Hashed(cells, leaves) && Located(leaves, positions, capacity)
    requires leaves == [] || leaves[|leaves| - 1] < leaf
    ensures RehashedDownTo(cells[index := LeafHash(leaf)], index / 2, index, leaves + [leaf])
    ensures Located(leaves + [leaf], positions[leaf := index], capacity)
  {
    AppendRehashes(cells, leaves, leaf);
    AppendLocates(leaves, positions, capacity, leaf);
  }

  /** Before an append is rehashed, only the cells on its path are out of date. */
  lemma AppendRehashes(cells: seq<Hash>, leaves: seq<Leaf>, leaf: Leaf)
    requires Hashed(cells, leaves) && |leaves| < |cells| / 2
    ensures var index := |cells| / 2 + |leaves|;
            RehashedDownTo(cells[index := LeafHash(leaf)], index / 2, index, leaves + [leaf])
  {
    var capacity := |cells| / 2;
    var index := capacity + |leaves|;
    var after := cells[index := LeafHash(leaf)];
    forall i | 1 <= i < |after|
        && (i > index / 2 || !OnPath(i, index)) ensures after[i] == HeapCell(i, capacity, leaves + [leaf]) {
      if i != index {
        if i > index / 2 && OnPath(i, index) {
          OnPathStep(i, index, index);
        }
        AppendKeepsOffPath(i, capacity, leaves, leaf);
      }
    }
  }

  /** `index ^ 1`. */
  function Neighbour(index: nat): nat {
    if index % 2 == 1 then index - 1 else index + 1
  }

  /** One step of the walk: a held cell and its neighbour hash to the cell above. */
  lemma ParentFolds(index: nat, capacity: nat, leaves: seq<Leaf>)
    requires 2 <= index < 2 * capacity && HeapCell(index, capacity, leaves) != Zero
    ensures 1 <= Neighbour(index) < 2 * capacity
    ensures HeapCell(index / 2, capacity, leaves)
         == FoldStep(HeapCell(index, capacity, leaves),
             Sibling(index % 2 == 1, HeapCell(Neighbour(index), capacity, leaves)))
  {
    assert index == 2 * (index / 2) + index % 2;
  }

  lemma HalvesInto(index: nat, level: nat)
    requires Pow2(level) <= index < 2 * Pow2(level) && index > 1
    ensures level > 0 && Pow2(level - 1) <= index / 2 < 2 * Pow2(level - 1)
  {
  }

  lemma {:induction false} EmptyCell(i: nat, capacity: nat)
    requires 1 <= i < 2 * capacity
    ensures HeapCell(i, capacity, []) == Zero
    decreases 2 * capacity - i
  {
    if i < capacity {
      EmptyCell(2 * i, capacity);
      EmptyCell(2 * i + 1, capacity);
    }
  }

  /** Folds a leaf with its siblings, from the bottom up. */
  method ProcessProof(leaf: Leaf, siblings: seq<Sibling>) returns (hash: Hash)
    ensures hash == Fold(LeafHash(leaf), siblings)
  {
    hash := LeafHash(leaf);
    for i := 0 to |siblings|
      invariant hash == Fold(LeafHash(leaf), siblings[..i])
    {
      hash := if siblings[i].isRight then NodeHash(siblings[i].hash, hash) else NodeHash(hash, siblings[i].hash);
      assert siblings[..i + 1][..i] == siblings[..i];
    }
    assert siblings[..|siblings|] == siblings;
  }

  predicate VerifyProof(proof: Proof) {
    Fold(LeafHash(proof.leaf), proof.siblings) == proof.root
  }
}
