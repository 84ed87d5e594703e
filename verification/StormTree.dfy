/** storm-tree/src/lib.rs and contracts/src/auth/storm_tree.rs: the tree over every threshold-sized signer subset. */
module StormTrees {
  import opened Prelude
  import opened Sorting
  import opened Combinations
  import opened MerkleTrees

  const TREE_DEPTH: nat := 17
  const MIN_NODES: nat := 3
  const MAX_BRANCHES: nat := 100_000

  /** A 32-byte x-only key, read as a big-endian number. */
  type Key = nat

  datatype StormTreeError =
    | TooFewNodes(actual: nat)
    | InvalidNodePublicKey(index: nat)
    | DuplicateNodePublicKey(key: Key)
    | TooManyBranches
    | DuplicateBranch(branch: Leaf)
    | UnknownBranch(unknown: Leaf)
    | MerkleTreeFailed(inner: Error)

  function MinimumThreshold(nodeCount: nat): nat {
    nodeCount - nodeCount / 3
  }

  // ----- Arithmetic of the threshold -----

  /**
   * Any two threshold-sized sets out of `n` nodes share a member outside any set of at most (n - 1) / 3 faulty ones.
   */
  lemma QuorumsShareAnHonestNode(nodes: set<Key>, a: set<Key>, b: set<Key>, faulty: set<Key>)
    requires nodes != {} && a <= nodes && b <= nodes
    requires |a| >= MinimumThreshold(|nodes|) && |b| >= MinimumThreshold(|nodes|)
    requires |faulty| <= (|nodes| - 1) / 3
    ensures exists node :: node in a && node in b && node !in faulty
  {
    assert |a| + |b| == |a + b| + |a * b|;
    SubsetSize(a + b, nodes);
    if a * b <= faulty {
      SubsetSize(a * b, faulty);
    }
    var node :| node in a * b && node !in faulty;
  }

  lemma {:induction false} Choose(s: set<Key>, k: nat) returns (chosen: set<Key>)
    requires k <= |s|
    ensures chosen <= s && |chosen| == k
  {
    if k == 0 {
      chosen := {};
    } else {
      var x :| x in s;
      chosen := Choose(s - {x}, k - 1);
      chosen := chosen + {x};
    }
  }

  /** And no smaller threshold would do: two such sets could share faulty nodes only. */
  lemma ThresholdIsLeast(nodes: set<Key>, threshold: nat) returns (a: set<Key>, b: set<Key>, faulty: set<Key>)
    requires threshold < MinimumThreshold(|nodes|)
    ensures a <= nodes && b <= nodes && |a| == |b| == threshold
    ensures faulty <= nodes && |faulty| <= (|nodes| - 1) / 3 && a * b <= faulty
  {
    a := Choose(nodes, threshold);
    if 2 * threshold <= |nodes| {
      b := Choose(nodes - a, threshold);
      faulty := {};
    } else {
      faulty := Choose(a, 2 * threshold - |nodes|);
      b := (nodes - a) + faulty;
    }
  }

  function BranchCount(nodeCount: nat): nat {
    Binomial(nodeCount, MinimumThreshold(nodeCount))
  }

  lemma {:induction false} BranchCountGrows(n: nat, m: nat)
    requires n <= m
    ensures BranchCount(n) <= BranchCount(m)
    decreases m
  {
    if n < m {
      BranchCountGrows(n, m - 1);
      BranchStep(m);
    }
  }

  lemma BranchStep(m: nat)
    requires m > 0
    ensures BranchCount(m - 1) <= BranchCount(m)
  {
    ThresholdStep(m);
    CountStep(m, MinimumThreshold(m - 1), MinimumThreshold(m));
  }

  lemma ThresholdStep(m: nat)
    requires m > 0
    ensures MinimumThreshold(m) == MinimumThreshold(m - 1) || MinimumThreshold(m) == MinimumThreshold(m - 1) + 1
  {
  }

  lemma CountStep(m: nat, k: nat, next: nat)
    requires m > 0 && (next == k || next == k + 1)
    ensures Binomial(m - 1, k) <= Binomial(m, next)
  {
  }

  /** The branch limit admits exactly the networks of up to twenty nodes. */
  lemma TwentyNodesAtMost(nodeCount: nat)
    ensures BranchCount(nodeCount) <= MAX_BRANCHES <==> nodeCount <= 20
  {
    var last := LastNodeCount();
  }

  // The counts are kept symbolic in `n`: on literals the solver would unfold Pascal's triangle.
  lemma LastNodeCount() returns (n: nat)
    ensures 2 * n == 40
    ensures forall m: nat :: BranchCount(m) <= MAX_BRANCHES <==> m <= n
  {
    n := Twenty();
    CountsAround(n);
    forall m: nat ensures BranchCount(m) <= MAX_BRANCHES <==> m <= n {
      if m <= n {
        BranchCountGrows(m, n);
      } else {
        BranchCountGrows(n + 1, m);
      }
    }
  }

  lemma Twenty() returns (n: nat)
    ensures 2 * n == 40
  {
    n := 20;
  }

  lemma BranchCountSymmetric(n: nat, k: nat)
    requires 3 * k <= n < 3 * k + 3
    ensures BranchCount(n) == Binomial(n, k)
  {
    BinomialSymmetric(n, k);
  }

  lemma CountsAround(n: nat)
    requires 2 * n == 40
    ensures BranchCount(n) == 38_760 && BranchCount(n + 1) == 116_280
  {
    DiagonalValue(n - 6, 1, 1);
    DiagonalValue(n - 6, 2, n - 5);
    DiagonalValue(n - 6, 3, 120);
    DiagonalValue(n - 6, 4, 680);
    DiagonalValue(n - 6, 5, 3_060);
    DiagonalValue(n - 6, 6, 11_628);
    DiagonalValue(n - 6, 7, 38_760);
    BranchCountSymmetric(n, 6);
    BranchCountSymmetric(n + 1, 7);
  }

  /** One step along the diagonal from a known coefficient. */
  lemma DiagonalValue(base: nat, k: nat, below: nat)
    requires k >= 1 && Binomial(base + k - 1, k - 1) == below
    ensures k * Binomial(base + k, k) == (base + k) * below
  {
    BinomialAbsorbs(base + k, k);
  }

  /** No tree over at most `MAX_BRANCHES` leaves is deeper than the covenant folds. */
  lemma BranchLimitBoundsDepth(leaves: nat)
    requires leaves <= MAX_BRANCHES
    ensures DepthFor(leaves).Some? && DepthFor(leaves).value <= TREE_DEPTH
  {
    assert Pow2(TREE_DEPTH) == 131_072 by {
      assert Pow2(4) == 16;
      assert Pow2(8) == 256;
      assert Pow2(12) == 4096;
      assert Pow2(16) == 65_536;
    }
    Pow2Monotone(TREE_DEPTH, MAX_DEPTH);
    DepthForIsLeast(leaves);
  }

  // ----- Construction -----

  /** No two of the enumerated subsets have one aggregate key. */
  ghost predicate AggregatesApart(subsets: seq<seq<Key>>, aggregate: seq<Key> -> Leaf) {
    forall i, j | 0 <= i < j < |subsets| :: aggregate(subsets[i]) != aggregate(subsets[j])
  }

  class StormTree {
    const nodes: seq<Key>
    const threshold: nat
    const branches: map<Leaf, seq<Key>>
    const tree: MerkleTree

    constructor (nodes: seq<Key>, threshold: nat, branches: map<Leaf, seq<Key>>, tree: MerkleTree)
      ensures this.nodes == nodes && this.threshold == threshold && this.branches == branches && this.tree == tree
    {
      this.nodes := nodes;
      this.threshold := threshold;
      this.branches := branches;
      this.tree := tree;
    }

    /** The tree holds exactly the aggregate keys of the size-`threshold` subsets of its nodes. */
    ghost predicate Valid(aggregate: seq<Key> -> Leaf)
      reads this, tree, tree.nodes
    {
      && StrictlyAscending(nodes) && |nodes| >= MIN_NODES && threshold == MinimumThreshold(|nodes|)
      && (forall participants: seq<Key> ::
            StrictlyAscending(participants) && |participants| == threshold && ToSet(participants) <= ToSet(nodes) ==>
              aggregate(participants) in branches && branches[aggregate(participants)] == participants)
      && (forall branch | branch in branches ::
            && StrictlyAscending(branches[branch]) && |branches[branch]| == threshold
            && ToSet(branches[branch]) <= ToSet(nodes) && aggregate(branches[branch]) == branch)
      && |branches| == BranchCount(|nodes|) <= MAX_BRANCHES
      && tree.Valid() && tree.depth <= TREE_DEPTH && Some(tree.depth) == DepthFor(|tree.leaves|)
      && ToSet(tree.leaves) == branches.Keys
    }

    /** Builds the tree; `valid` is secp256k1's key check and `aggregate` MuSig2 key aggregation. */
    static method New(input: seq<Key>, valid: Key -> bool, aggregate: seq<Key> -> Leaf)
        returns (r: Result<StormTree, StormTreeError>)
      ensures r.Ok? <==>
                && MIN_NODES <= |input| && (forall k | 0 <= k < |input| :: valid(input[k])) && NoDuplicates(input)
                && BranchCount(|input|) <= MAX_BRANCHES
                && AggregatesApart(Subsets(SortKeys(input), MinimumThreshold(|input|)), aggregate)
      ensures r.Ok? ==> r.value.nodes == SortKeys(input) && r.value.Valid(aggregate)
      ensures r.Err? ==>
                if |input| < MIN_NODES then r.error == TooFewNodes(|input|)
                else if exists k :: 0 <= k < |input| && !valid(input[k]) then r.error.InvalidNodePublicKey?
                else if !NoDuplicates(input) then r.error.DuplicateNodePublicKey? && r.error.key in input
                else if BranchCount(|input|) > MAX_BRANCHES then r.error == TooManyBranches
                else r.error.DuplicateBranch?
    {
      if |input| < MIN_NODES {
        return Err(TooFewNodes(|input|));
      }
      var invalid := FirstInvalid(input, valid);
      if invalid.Some? {
        return Err(InvalidNodePublicKey(invalid.value));
      }
      var nodes := SortKeys(input);
      var repeated := FirstRepeat(nodes);
      if repeated.Some? {
        if NoDuplicates(input) {
          DuplicatesFollowMultiset(input, nodes);
        }
        return Err(DuplicateNodePublicKey(repeated.value));
      }
      DuplicatesFollowMultiset(nodes, input);

      var threshold := MinimumThreshold(|nodes|);
      var branchCount := CombinationCount(|nodes|, threshold, MAX_BRANCHES);
      if branchCount.None? {
        return Err(TooManyBranches);
      }
      var subsets := Subsets(nodes, threshold);
      SubsetCount(nodes, threshold);
      var filled := FillBranches(subsets, aggregate);
      if filled.Err? {
        return Err(DuplicateBranch(filled.error));
      }
      var (branches, order) := filled.value;
      BranchLimitBoundsDepth(|order|);
      DepthForIsLeast(|order|);
      var built := MerkleTree.FromLeaves(order);
      var storm := new StormTree(nodes, threshold, branches, built.value);
      ConstructedIsValid(storm, subsets, order, aggregate);
      return Ok(storm);
    }

    /** `proof`: only keys that are branches can be proven, and a proof is at most `TREE_DEPTH` long. */
    method Prove(branch: Leaf, ghost aggregate: seq<Key> -> Leaf) returns (r: Result<Proof, StormTreeError>)
      requires Valid(aggregate)
      ensures r.Ok? <==> branch in branches
      ensures r.Ok? ==> |r.value.siblings| <= TREE_DEPTH && VerifyBranch(tree.Root(), branch, r.value)
      ensures r.Err? ==> r.error == UnknownBranch(branch)
    {
      if branch !in branches {
        return Err(UnknownBranch(branch));
      }
      assert branch in ToSet(tree.leaves);
      var proof := tree.Prove(branch);
      return Ok(proof.value);
    }
  }

  method FirstInvalid(input: seq<Key>, valid: Key -> bool) returns (index: Option<nat>)
    ensures index.None? <==> forall k | 0 <= k < |input| :: valid(input[k])
    ensures index.Some? ==> index.value < |input| && !valid(input[index.value]) && forall k | 0 <= k < index.value ::
            valid(input[k])
  {
    for k := 0 to |input|
      invariant forall i | 0 <= i < k :: valid(input[i])
    {
      if !valid(input[k]) {
        return Some(k);
      }
    }
    return None;
  }

  /** `windows(2).find(..)` over sorted keys. */
  method FirstRepeat(sorted: seq<Key>) returns (repeated: Option<Key>)
    requires SortedBy(sorted, KeyLe)
    ensures repeated.None? <==> NoDuplicates(sorted)
    ensures repeated.None? ==> StrictlyAscending(sorted)
    ensures repeated.Some? ==> repeated.value in sorted
  {
    for k := 0 to |sorted|
      invariant forall i, j | 0 <= i < j < k :: sorted[i] < sorted[j]
    {
      if k > 0 && sorted[k - 1] == sorted[k] {
        return Some(sorted[k]);
      }
      forall i | 0 <= i < k ensures sorted[i] < sorted[k] {
        assert KeyLe(sorted[i], sorted[k - 1]) || i == k - 1;
        assert KeyLe(sorted[k - 1], sorted[k]);
      }
    }
    return None;
  }

  /** Inserts every subset under its aggregate key, in enumeration order, stopping at a collision. */
  method FillBranches(subsets: seq<seq<Key>>, aggregate: seq<Key> -> Leaf)
    returns (r: Result<(map<Leaf, seq<Key>>, seq<Leaf>), Leaf>)
    ensures r.Ok? <==> AggregatesApart(subsets, aggregate)
    ensures r.Ok? ==>
              var (branches, order) := r.value;
              && |order| == |subsets| && NoDuplicates(order) && branches.Keys == ToSet(order)
              && (forall i | 0 <= i < |order| :: order[i] == aggregate(subsets[i]))
              && (forall i | 0 <= i < |order| :: order[i] in branches && branches[order[i]] == subsets[i])
  {
    var branches: map<Leaf, seq<Key>> := map[];
    var order: seq<Leaf> := [];
    for k := 0 to |subsets|
      invariant |order| == k && forall i | 0 <= i < k :: order[i] == aggregate(subsets[i])
      invariant NoDuplicates(order) && branches.Keys == ToSet(order)
      invariant forall i | 0 <= i < k :: order[i] in branches && branches[order[i]] == subsets[i]
    {
      var branch := aggregate(subsets[k]);
      if branch in branches {
        assert branch in ToSet(order);
        return Err(branch);
      }
      branches := branches[branch := subsets[k]];
      order := order + [branch];
    }
    assert forall i, j | 0 <= i < j < |subsets| :: order[i] != order[j];
    return Ok((branches, order));
  }

  lemma ConstructedIsValid(storm: StormTree, subsets: seq<seq<Key>>, order: seq<Leaf>, aggregate: seq<Key> -> Leaf)
    requires StrictlyAscending(storm.nodes) && |storm.nodes| >= MIN_NODES
    requires storm.threshold == MinimumThreshold(|storm.nodes|)
    requires subsets == Subsets(storm.nodes, storm.threshold) && |subsets| == BranchCount(|storm.nodes|) <= MAX_BRANCHES
    requires |order| == |subsets| && forall i | 0 <= i < |order| :: order[i] == aggregate(subsets[i])
    requires NoDuplicates(order) && storm.branches.Keys == ToSet(order)
    requires forall i | 0 <= i < |order| :: order[i] in storm.branches && storm.branches[order[i]] == subsets[i]
    requires storm.tree.Valid() && storm.tree.leaves == SortKeys(order) && Some(storm.tree.depth) == DepthFor(|order|)
    ensures storm.Valid(aggregate)
  {
    forall participants: seq<Key> | StrictlyAscending(participants) && |participants| == storm.threshold
        && ToSet(participants) <= ToSet(storm.nodes)
      ensures aggregate(participants) in storm.branches && storm.branches[aggregate(participants)] == participants
    {
      SubsetsAreExact(storm.nodes, storm.threshold, participants);
      var i :| 0 <= i < |subsets| && subsets[i] == participants;
      assert order[i] == aggregate(participants);
    }
    forall branch | branch in storm.branches
      ensures StrictlyAscending(storm.branches[branch]) && |storm.branches[branch]| == storm.threshold
      ensures ToSet(storm.branches[branch]) <= ToSet(storm.nodes) && aggregate(storm.branches[branch]) == branch
    {
      assert branch in ToSet(order);
      var i :| 0 <= i < |order| && order[i] == branch;
      SubsetsAreExact(storm.nodes, storm.threshold, subsets[i]);
    }
    DistinctSize(order);
    assert |storm.branches.Keys| == |order|;
    BranchLimitBoundsDepth(|order|);
  }

  lemma {:induction false} DistinctSize<T>(s: seq<T>)
    requires NoDuplicates(s)
    ensures |ToSet(s)| == |s|
  {
    if s != [] {
      DistinctSize(s[1..]);
      assert s == [s[0]] + s[1..] && s[0] !in s[1..];
      assert ToSet(s) == {s[0]} + ToSet(s[1..]);
    }
  }

  /** Aggregation that separates the size-`k` subsets never trips the collision check. */
  lemma InjectiveAggregationSuffices(nodes: seq<Key>, k: nat, aggregate: seq<Key> -> Leaf)
    requires StrictlyAscending(nodes)
    requires forall a: seq<Key>, b: seq<Key> :: aggregate(a) == aggregate(b) ==> a == b
    ensures AggregatesApart(Subsets(nodes, k), aggregate)
  {
    SubsetsAreDistinct(nodes, k);
  }

  // ----- The root and the node set -----

  lemma BranchesFollowNodes(a: StormTree, b: StormTree, aggregate: seq<Key> -> Leaf)
    requires a.Valid(aggregate) && b.Valid(aggregate) && a.nodes == b.nodes
    ensures a.branches.Keys <= b.branches.Keys
    ensures forall branch | branch in a.branches :: branch in b.branches && a.branches[branch] == b.branches[branch]
  {
    forall branch | branch in a.branches ensures branch in b.branches && a.branches[branch] == b.branches[branch] {
      assert aggregate(a.branches[branch]) == branch;
    }
  }

  /** The root is a function of the branch keys. */
  lemma RootFollowsBranches(a: StormTree, b: StormTree, aggregate: seq<Key> -> Leaf)
    requires a.Valid(aggregate) && b.Valid(aggregate)
    ensures a.tree.Root() == b.tree.Root() <==> a.branches.Keys == b.branches.Keys
  {
    a.tree.RootIsMerkleRoot();
    b.tree.RootIsMerkleRoot();
    if a.tree.Root() == b.tree.Root() {
      RootBindsLeaves(a.tree.leaves, a.tree.depth, b.tree.leaves, b.tree.depth);
    }
    if a.branches.Keys == b.branches.Keys {
      AscendingIsCanonical(a.tree.leaves, b.tree.leaves);
    }
  }

  /** Trees over the same nodes have one root, in whatever order the nodes were given. */
  lemma RootForgetsInputOrder(a: StormTree, b: StormTree, aggregate: seq<Key> -> Leaf)
    requires a.Valid(aggregate) && b.Valid(aggregate) && a.nodes == b.nodes
    ensures a.tree.Root() == b.tree.Root() && a.branches == b.branches
  {
    SameNodesSameBranches(a, b, aggregate);
    RootFollowsBranches(a, b, aggregate);
  }

  lemma SameNodesSameBranches(a: StormTree, b: StormTree, aggregate: seq<Key> -> Leaf)
    requires a.Valid(aggregate) && b.Valid(aggregate) && a.nodes == b.nodes
    ensures a.branches == b.branches
  {
    BranchesFollowNodes(a, b, aggregate);
    BranchesFollowNodes(b, a, aggregate);
  }

  /** Every node takes part in some threshold-sized choice. */
  lemma SomeChoiceIncludes(nodes: seq<Key>, threshold: nat, node: Key) returns (choice: seq<Key>)
    requires StrictlyAscending(nodes) && 1 <= threshold <= |nodes| && node in nodes
    ensures StrictlyAscending(choice) && |choice| == threshold && ToSet(choice) <= ToSet(nodes) && node in choice
  {
    var i :| 0 <= i < |nodes| && nodes[i] == node;
    var from := Min(i, |nodes| - threshold);
    choice := nodes[from..from + threshold];
    assert choice[i - from] == node;
  }

  /** Under aggregation that separates key lists, no node set shares its root with another. */
  lemma RootBindsNodes(a: StormTree, b: StormTree, aggregate: seq<Key> -> Leaf)
    requires a.Valid(aggregate) && b.Valid(aggregate)
    requires forall s: seq<Key>, t: seq<Key> :: aggregate(s) == aggregate(t) ==> s == t
    ensures a.tree.Root() == b.tree.Root() <==> a.nodes == b.nodes
  {
    RootFollowsBranches(a, b, aggregate);
    if a.nodes == b.nodes {
      RootForgetsInputOrder(a, b, aggregate);
    } else if a.branches.Keys == b.branches.Keys {
      SameBranchesSameNodes(a, b, aggregate);
    }
  }

  lemma SameBranchesSameNodes(a: StormTree, b: StormTree, aggregate: seq<Key> -> Leaf)
    requires a.Valid(aggregate) && b.Valid(aggregate) && a.branches.Keys == b.branches.Keys
    requires forall s: seq<Key>, t: seq<Key> :: aggregate(s) == aggregate(t) ==> s == t
    ensures a.nodes == b.nodes
  {
    NodesAreWithin(a, b, aggregate);
    NodesAreWithin(b, a, aggregate);
    AscendingIsCanonical(a.nodes, b.nodes);
  }

  lemma NodesAreWithin(a: StormTree, b: StormTree, aggregate: seq<Key> -> Leaf)
    requires a.Valid(aggregate) && b.Valid(aggregate) && a.branches.Keys == b.branches.Keys
    requires forall s: seq<Key>, t: seq<Key> :: aggregate(s) == aggregate(t) ==> s == t
    ensures ToSet(a.nodes) <= ToSet(b.nodes)
  {
    forall node | node in a.nodes ensures node in b.nodes {
      var choice := SomeChoiceIncludes(a.nodes, a.threshold, node);
      var branch := aggregate(choice);
      assert branch in b.branches && aggregate(b.branches[branch]) == branch;
      assert node in ToSet(b.branches[branch]);
    }
  }

  /** A proof speaks only for its own branch under its own root. */
  predicate VerifyBranch(root: Hash, branch: Leaf, proof: Proof) {
    proof.leaf == branch && proof.root == root && VerifyProof(proof)
  }

  // ----- The covenant's fixed-depth witness -----

  datatype WitnessError = ProofTooDeep(actual: nat, depth: nat)

  /** The fold over packed steps, skipping unused levels. */
  function FoldPacked(hash: Hash, steps: seq<Option<Sibling>>): Hash {
    if steps == [] then hash
    else
      var below := FoldPacked(hash, steps[..|steps| - 1]);
      match steps[|steps| - 1]
      case None => below
      case Some(sibling) => FoldStep(below, sibling)
  }

  method FoldWitness(branch: Leaf, steps: seq<Option<Sibling>>) returns (hash: Hash)
    ensures hash == FoldPacked(LeafHash(branch), steps)
  {
    hash := LeafHash(branch);
    for i := 0 to |steps|
      invariant hash == FoldPacked(LeafHash(branch), steps[..i])
    {
      if steps[i].Some? {
        var sibling := steps[i].value;
        hash := if sibling.isRight then NodeHash(sibling.hash, hash) else NodeHash(hash, sibling.hash);
      }
      assert steps[..i + 1][..i] == steps[..i];
    }
    assert steps[..|steps|] == steps;
  }

  function Pack(siblings: seq<Sibling>, padding: nat): seq<Option<Sibling>> {
    seq(|siblings|, i requires 0 <= i < |siblings| => Some(siblings[i])) + seq(padding, _ => None)
  }

  lemma {:induction false} PaddingFoldsAway(hash: Hash, siblings: seq<Sibling>, padding: nat)
    ensures FoldPacked(hash, Pack(siblings, padding)) == Fold(hash, siblings)
    decreases padding, |siblings|
  {
    var packed := Pack(siblings, padding);
    if padding > 0 {
      PaddingFoldsAway(hash, siblings, padding - 1);
      assert packed[..|packed| - 1] == Pack(siblings, padding - 1);
    } else if siblings != [] {
      PaddingFoldsAway(hash, siblings[..|siblings| - 1], 0);
      assert packed[..|packed| - 1] == Pack(siblings[..|siblings| - 1], 0);
    }
  }

  /** `witness_proof`: fails exactly on trees deeper than the covenant; otherwise the padded steps fold to the root. */
  method WitnessProof(tree: MerkleTree, branch: Leaf) returns (r: Result<seq<Option<Sibling>>, WitnessError>)
    requires tree.Valid() && branch in tree.leaves
    ensures r.Err? <==> tree.depth > TREE_DEPTH
    ensures r.Err? ==> r.error == ProofTooDeep(tree.depth, TREE_DEPTH)
    ensures r.Ok? ==> |r.value| == TREE_DEPTH && FoldPacked(LeafHash(branch), r.value) == tree.Root()
    ensures r.Ok? ==> forall i | 0 <= i < TREE_DEPTH :: r.value[i].Some? <==> i < tree.depth
  {
    var proof := tree.Prove(branch);
    var siblings := proof.value.siblings;
    if |siblings| > TREE_DEPTH {
      return Err(ProofTooDeep(|siblings|, TREE_DEPTH));
    }
    var steps := Pack(siblings, TREE_DEPTH - |siblings|);
    PaddingFoldsAway(LeafHash(branch), siblings, TREE_DEPTH - |siblings|);
    var folded := FoldWitness(branch, steps);
    assert folded == tree.Root();
    return Ok(steps);
  }

  /** The steps that are not padding. */
  function Present(steps: seq<Option<Sibling>>): seq<Sibling> {
    if steps == [] then []
    else Present(steps[..|steps| - 1]) + match steps[|steps| - 1] case None => [] case Some(sibling) => [sibling]
  }

  lemma {:induction false} PackedIsFold(hash: Hash, steps: seq<Option<Sibling>>)
    ensures FoldPacked(hash, steps) == Fold(hash, Present(steps))
  {
    if steps != [] {
      var before, last := steps[..|steps| - 1], steps[|steps| - 1];
      PackedIsFold(hash, before);
      if last.Some? {
        FoldAppend(hash, Present(before), last.value);
      } else {
        assert Present(before) + [] == Present(before);
      }
    }
  }

  /** Whatever steps a witness packs, and wherever it pads, it folds to the root only for a branch and its true path. */
  lemma WitnessIsExact(leaves: seq<Leaf>, depth: nat, branch: Leaf, steps: seq<Option<Sibling>>)
    requires |leaves| <= Pow2(depth)
    ensures FoldPacked(LeafHash(branch), steps) == MerkleRoot(leaves, depth) <==>
              exists k :: 0 <= k < |leaves| && leaves[k] == branch && Present(steps) == TruePath(leaves, depth, k)
  {
    PackedIsFold(LeafHash(branch), steps);
    MembershipIsExact(leaves, depth, branch, Present(steps));
  }

  /** The covenant accepts no witness for anything but a threshold-sized choice of the tree's nodes. */
  lemma WitnessNamesABranch(storm: StormTree, aggregate: seq<Key> -> Leaf, branch: Leaf, steps: seq<Option<Sibling>>)
    requires storm.Valid(aggregate) && FoldPacked(LeafHash(branch), steps) == storm.tree.Root()
    ensures branch in storm.branches && aggregate(storm.branches[branch]) == branch
  {
    storm.tree.RootIsMerkleRoot();
    WitnessIsExact(storm.tree.leaves, storm.tree.depth, branch, steps);
    assert branch in ToSet(storm.tree.leaves);
  }

  /** Every branch of every constructible tree has a covenant witness. */
  method WitnessOfConstructedTree(storm: StormTree, aggregate: seq<Key> -> Leaf, branch: Leaf)
    returns (r: Result<seq<Option<Sibling>>, WitnessError>)
    requires storm.Valid(aggregate) && branch in storm.branches
    ensures r.Ok? && FoldPacked(LeafHash(branch), r.value) == storm.tree.Root()
  {
    assert branch in ToSet(storm.tree.leaves);
    r := WitnessProof(storm.tree, branch);
  }
}
