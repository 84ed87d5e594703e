/** The standard library's stable sort, and why a sorted sequence is canonical. */
module Sorting {
  import opened Prelude

  ghost predicate TotalPreorder<T(!new)>(le: (T, T) -> bool) {
    && (forall a, b :: le(a, b) || le(b, a))
    && (forall a, b, c :: le(a, b) && le(b, c) ==> le(a, c))
  }

  ghost predicate AntisymmetricOn<T>(s: seq<T>, le: (T, T) -> bool) {
    forall a, b | a in s && b in s && le(a, b) && le(b, a) :: a == b
  }

  predicate SortedBy<T>(s: seq<T>, le: (T, T) -> bool) {
    forall i, j | 0 <= i < j < |s| :: le(s[i], s[j])
  }

  function InsertBy<T>(x: T, s: seq<T>, le: (T, T) -> bool): seq<T> {
    if s == [] then [x]
    else if le(x, s[0]) then [x] + s
    else [s[0]] + InsertBy(x, s[1..], le)
  }

  /** A stable sort: equal elements keep their order. */
  function SortBy<T>(s: seq<T>, le: (T, T) -> bool): seq<T> {
    if s == [] then [] else InsertBy(s[0], SortBy(s[1..], le), le)
  }

  lemma {:induction false} InsertKeepsSorted<T(!new)>(x: T, s: seq<T>, le: (T, T) -> bool)
    requires TotalPreorder(le) && SortedBy(s, le)
    ensures SortedBy(InsertBy(x, s, le), le)
    ensures multiset(InsertBy(x, s, le)) == multiset{x} + multiset(s)
  {
    if s == [] {
    } else if le(x, s[0]) {
      var r := [x] + s;
      assert forall j | 0 < j < |r| :: le(s[0], r[j]);
    } else {
      InsertKeepsSorted(x, s[1..], le);
      var t := InsertBy(x, s[1..], le);
      assert s == [s[0]] + s[1..];
      forall y | y in t ensures le(s[0], y) {
        assert y in multiset(t);
        assert y in multiset{x} + multiset(s[1..]);
      }
    }
  }

  lemma {:induction false} SortByCorrect<T(!new)>(s: seq<T>, le: (T, T) -> bool)
    requires TotalPreorder(le)
    ensures SortedBy(SortBy(s, le), le)
    ensures multiset(SortBy(s, le)) == multiset(s)
    ensures |SortBy(s, le)| == |s|
    ensures forall x :: x in SortBy(s, le) <==> x in s
  {
    if s == [] {
    } else {
      SortByCorrect(s[1..], le);
      InsertKeepsSorted(s[0], SortBy(s[1..], le), le);
      assert s == [s[0]] + s[1..];
    }
    SameElements(SortBy(s, le), s);
  }

  lemma SameElements<T>(a: seq<T>, b: seq<T>)
    requires multiset(a) == multiset(b)
    ensures |a| == |b|
    ensures forall x :: x in a <==> x in b
  {
    assert |a| == |multiset(a)| && |b| == |multiset(b)|;
    forall x ensures x in a <==> x in b {
      assert x in a <==> x in multiset(a);
      assert x in b <==> x in multiset(b);
    }
  }

  /** Two sorted arrangements of the same elements are the same sequence. */
  lemma {:induction false} SortedIsCanonical<T(!new)>(a: seq<T>, b: seq<T>, le: (T, T) -> bool)
    requires TotalPreorder(le) && AntisymmetricOn(a, le)
    requires SortedBy(a, le) && SortedBy(b, le)
    requires multiset(a) == multiset(b)
    ensures a == b
  {
    SameElements(a, b);
    if a != [] {
      assert a[0] in b && b[0] in a;
      assert le(a[0], b[0]) && le(b[0], a[0]);
      TailMultiset(a);
      TailMultiset(b);
      TailSorted(a, le);
      TailSorted(b, le);
      SortedIsCanonical(a[1..], b[1..], le);
    }
  }

  lemma TailSorted<T>(s: seq<T>, le: (T, T) -> bool)
    requires s != [] && SortedBy(s, le)
    ensures SortedBy(s[1..], le)
    ensures AntisymmetricOn(s, le) ==> AntisymmetricOn(s[1..], le)
  {
    assert forall x | x in s[1..] :: x in s;
  }

  lemma TailMultiset<T>(s: seq<T>)
    requires s != []
    ensures multiset(s[1..]) == multiset(s) - multiset{s[0]}
    ensures s == [s[0]] + s[1..]
  {
    assert s == [s[0]] + s[1..];
  }

  /** Sorting forgets the order in which the elements arrived. */
  lemma SortForgetsOrder<T(!new)>(a: seq<T>, b: seq<T>, le: (T, T) -> bool)
    requires TotalPreorder(le) && AntisymmetricOn(a, le)
    requires multiset(a) == multiset(b)
    ensures SortBy(a, le) == SortBy(b, le)
  {
    SortByCorrect(a, le);
    SortByCorrect(b, le);
    SortedIsCanonical(SortBy(a, le), SortBy(b, le), le);
  }

  // 32-byte keys compare lexicographically, which is the order of their big-endian values.

  predicate KeyLe(a: nat, b: nat) {
    a <= b
  }

  predicate StrictlyAscending(s: seq<nat>) {
    forall i, j | 0 <= i < j < |s| :: s[i] < s[j]
  }

  function SortKeys(s: seq<nat>): (r: seq<nat>)
    ensures SortedBy(r, KeyLe) && multiset(r) == multiset(s) && |r| == |s|
    ensures forall x :: x in r <==> x in s
  {
    SortByCorrect(s, KeyLe);
    SortBy(s, KeyLe)
  }

  /** Having no repeats depends only on which elements occur how often. */
  lemma DuplicatesFollowMultiset<T>(a: seq<T>, b: seq<T>)
    requires multiset(a) == multiset(b) && NoDuplicates(a)
    ensures NoDuplicates(b)
  {
    forall i, j | 0 <= i < j < |b| ensures b[i] != b[j] {
      OnceInMultiset(a, b[i]);
      if b[i] == b[j] {
        TwiceInMultiset(b, i, j);
      }
    }
  }

  lemma {:induction false} OnceInMultiset<T>(s: seq<T>, x: T)
    requires NoDuplicates(s)
    ensures multiset(s)[x] <= 1
  {
    if s != [] {
      OnceInMultiset(s[1..], x);
      assert s == [s[0]] + s[1..];
      assert s[0] !in s[1..];
    }
  }

  lemma TwiceInMultiset<T>(s: seq<T>, i: nat, j: nat)
    requires i < j < |s| && s[i] == s[j]
    ensures multiset(s)[s[i]] >= 2
  {
    assert s == s[..i] + [s[i]] + s[i + 1..j] + [s[j]] + s[j + 1..];
  }

  /** `Vec::dedup` on a sorted vector. */
  function Dedup(s: seq<nat>): seq<nat> {
    if |s| <= 1 then s
    else if s[0] == s[1] then Dedup(s[1..])
    else [s[0]] + Dedup(s[1..])
  }

  lemma {:induction false} DedupCorrect(s: seq<nat>)
    requires SortedBy(s, KeyLe)
    ensures StrictlyAscending(Dedup(s))
    ensures ToSet(Dedup(s)) == ToSet(s)
    ensures s != [] ==> Dedup(s) != [] && Dedup(s)[0] == s[0]
  {
    if |s| > 1 {
      DedupCorrect(s[1..]);
      assert KeyLe(s[0], s[1]);
      assert forall x :: x in s <==> x == s[0] || x in s[1..];
      assert forall x :: x in Dedup(s[1..]) <==> x in ToSet(Dedup(s[1..]));
      assert forall x :: x in s[1..] <==> x in ToSet(s[1..]);
    }
  }

  /** Sort, then drop repeats: the canonical list of a set of keys. */
  function CanonicalKeys(s: seq<nat>): (r: seq<nat>)
    ensures StrictlyAscending(r) && ToSet(r) == ToSet(s)
  {
    DedupCorrect(SortKeys(s));
    Dedup(SortKeys(s))
  }

  lemma SortKeysForgetsOrder(a: seq<nat>, b: seq<nat>)
    requires multiset(a) == multiset(b)
    ensures SortKeys(a) == SortKeys(b)
  {
    assert TotalPreorder(KeyLe) && AntisymmetricOn(a, KeyLe);
    SortForgetsOrder(a, b, KeyLe);
  }

  /** A strictly ascending sequence is determined by its set of elements. */
  lemma {:induction false} AscendingIsCanonical(a: seq<nat>, b: seq<nat>)
    requires StrictlyAscending(a) && StrictlyAscending(b)
    requires ToSet(a) == ToSet(b)
    ensures a == b
  {
    AscendingMultiset(a);
    AscendingMultiset(b);
    assert forall i, j | 0 <= i < j < |a| :: a[i] < a[j];
    SortedIsCanonical(a, b, KeyLe);
  }

  lemma {:induction false} AscendingMultiset(s: seq<nat>)
    requires StrictlyAscending(s)
    ensures multiset(s) == multiset(ToSet(s))
    ensures |ToSet(s)| == |s|
  {
    if s != [] {
      var rest := s[1..];
      AscendingMultiset(rest);
      assert s == [s[0]] + rest;
      assert s[0] !in rest;
      assert ToSet(s) == {s[0]} + ToSet(rest);
    }
  }

  // ----- The elements of a set in order -----

  ghost predicate TotalOrder<T(!new)>(le: (T, T) -> bool) {
    TotalPreorder(le) && forall a, b :: le(a, b) && le(b, a) ==> a == b
  }

  ghost predicate IsLeast<T>(x: T, s: set<T>, le: (T, T) -> bool) {
    x in s && forall y | y in s :: le(x, y)
  }

  lemma {:induction false} HasLeast<T(!new)>(s: set<T>, le: (T, T) -> bool) returns (least: T)
    requires TotalOrder(le) && s != {}
    ensures IsLeast(least, s, le)
  {
    var x :| x in s;
    least := x;
    if s != {x} {
      var y := HasLeast(s - {x}, le);
      least := LesserIsLeast(x, y, s, le);
    }
  }

  lemma LesserIsLeast<T(!new)>(x: T, y: T, s: set<T>, le: (T, T) -> bool) returns (least: T)
    requires TotalOrder(le) && x in s && IsLeast(y, s - {x}, le)
    ensures IsLeast(least, s, le)
  {
    least := if le(x, y) then x else y;
    forall z | z in s ensures le(least, z) {
      if z != x {
        assert z in s - {x} && le(y, z);
      }
    }
  }

  /** `ORDER BY` over a table: every element of the set once, in ascending order. */
  function Ordered<T(!new, ==)>(s: set<T>, le: (T, T) -> bool): (r: seq<T>)
    requires TotalOrder(le)
    ensures SortedBy(r, le) && NoDuplicates(r)
    ensures forall x :: x in r <==> x in s
    decreases |s|
  {
    if s == {} then []
    else
      assert exists x :: IsLeast(x, s, le) by {
        var least := HasLeast(s, le);
      }
      var x :| x in s && forall y | y in s :: le(x, y);
      [x] + Ordered(s - {x}, le)
  }

  /** There is one way to list a set in order. */
  lemma OrderedIsCanonical<T(!new)>(r: seq<T>, s: set<T>, le: (T, T) -> bool)
    requires TotalOrder(le) && SortedBy(r, le) && NoDuplicates(r)
    requires forall x :: x in r <==> x in s
    ensures r == Ordered(s, le)
  {
    DistinctMultiset(r);
    DistinctMultiset(Ordered(s, le));
    assert ToSet(r) == s && ToSet(Ordered(s, le)) == s;
    SortedIsCanonical(r, Ordered(s, le), le);
  }

  lemma {:induction false} DistinctMultiset<T>(s: seq<T>)
    requires NoDuplicates(s)
    ensures multiset(s) == multiset(ToSet(s))
  {
    if s != [] {
      var rest := s[1..];
      DistinctMultiset(rest);
      assert s == [s[0]] + rest;
      assert s[0] !in rest;
      assert ToSet(s) == {s[0]} + ToSet(rest);
    }
  }
}
