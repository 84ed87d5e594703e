/**
 * Binomial coefficients, the enumeration of fixed-size subsets, and the early-aborting counter of
 * storm-tree/src/lib.rs.
 */
module Combinations {
  import opened Arithmetic
  import opened Prelude
  import opened Sorting

  /** The number of `k`-subsets of an `n`-set, by Pascal's rule. */
  function Binomial(n: nat, k: nat): nat {
    if k == 0 then 1
    else if n == 0 then 0
    else Binomial(n - 1, k - 1) + Binomial(n - 1, k)
  }

  lemma {:induction false} BinomialBeyond(n: nat, k: nat)
    requires k > n
    ensures Binomial(n, k) == 0
  {
    if n > 0 {
      BinomialBeyond(n - 1, k - 1);
      BinomialBeyond(n - 1, k);
    }
  }

  lemma {:induction false} BinomialAll(n: nat)
    ensures Binomial(n, n) == 1
  {
    if n > 0 {
      BinomialAll(n - 1);
      BinomialBeyond(n - 1, n);
    }
  }

  lemma {:induction false} BinomialSymmetric(n: nat, k: nat)
    requires k <= n
    ensures Binomial(n, k) == Binomial(n, n - k)
  {
    if k == 0 || k == n {
      BinomialAll(n);
    } else {
      BinomialSymmetric(n - 1, k - 1);
      BinomialSymmetric(n - 1, k);
    }
  }

  /** The identity that makes every division of the counter exact. */
  lemma {:induction false} BinomialAbsorbs(n: nat, k: nat)
    requires 1 <= k && 1 <= n
    ensures k * Binomial(n, k) == n * Binomial(n - 1, k - 1)
  {
    if n == 1 {
      assert Binomial(1, k) == Binomial(0, k - 1) + Binomial(0, k);
      if k > 1 {
        BinomialBeyond(0, k - 1);
      }
    } else if k == 1 {
      BinomialAbsorbs(n - 1, 1);
    } else {
      BinomialAbsorbs(n - 1, k - 1);
      BinomialAbsorbs(n - 1, k);
      AbsorbArithmetic(n, k, Binomial(n - 2, k - 2), Binomial(n - 2, k - 1), Binomial(n - 2, k));
    }
  }

  lemma AbsorbArithmetic(n: nat, k: nat, a: nat, b: nat, c: nat)
    requires n >= 1 && k >= 1
    requires (k - 1) * (a + b) == (n - 1) * a && k * (b + c) == (n - 1) * b
    ensures k * ((a + b) + (b + c)) == n * (a + b)
  {
    var s, u := a + b, b + c;
    calc {
      k * (s + u);
      k * s + k * u;
      { assert k * s == (k - 1) * s + s; }
      (n - 1) * a + s + (n - 1) * b;
      { assert (n - 1) * a + (n - 1) * b == (n - 1) * s; }
      (n - 1) * s + s;
      n * s;
    }
  }

  /** The partial counts only grow, so a count over the limit never comes back. */
  lemma {:induction false} DiagonalGrows(base: nat, d: nat, e: nat)
    requires d <= e
    ensures Binomial(base + d, d) <= Binomial(base + e, e)
    decreases e
  {
    if d < e {
      DiagonalGrows(base, d, e - 1);
      assert Binomial(base + e, e) == Binomial(base + e - 1, e - 1) + Binomial(base + e - 1, e);
    }
  }

  /** Along the diagonal the count at least doubles while `d <= base`, which bounds the products the counter forms. */
  lemma {:induction false} DiagonalDoubles(base: nat, d: nat)
    requires d <= base
    ensures Binomial(base + d, d) > d
  {
    if d > 0 {
      DiagonalDoubles(base, d - 1);
      assert Binomial(base + d, d) == Binomial(base + d - 1, d - 1) + Binomial(base + d - 1, d);
      BinomialPositive(base + d - 1, d);
    }
  }

  lemma {:induction false} BinomialPositive(n: nat, k: nat)
    requires k <= n
    ensures Binomial(n, k) >= 1
  {
    if k > 0 {
      BinomialPositive(n - 1, k - 1);
    }
  }

  /** One turn of the loop: the division is exact and lands on the next diagonal coefficient. */
  lemma CounterStep(base: nat, divisor: nat, total: nat)
    requires divisor >= 1 && total == Binomial(base + divisor - 1, divisor - 1)
    ensures total * (base + divisor) == divisor * Binomial(base + divisor, divisor)
    ensures total * (base + divisor) / divisor == Binomial(base + divisor, divisor)
  {
    BinomialAbsorbs(base + divisor, divisor);
    ExactQuotient(divisor, Binomial(base + divisor, divisor));
  }

  /** `combination_count`: the checked 64-bit loop gives C(n, k) exactly when that is within the limit. */
  method CombinationCount(nodeCount: nat, threshold: nat, limit: nat) returns (count: Option<nat>)
    requires threshold <= nodeCount
    ensures count.Some? ==> count.value == Binomial(nodeCount, threshold)
    ensures 1 <= limit && limit * limit <= U64_MAX ==> (count.Some? <==> Binomial(nodeCount, threshold) <= limit)
  {
    var selected := Min(threshold, nodeCount - threshold);
    ghost var base := nodeCount - selected;
    BinomialSymmetric(nodeCount, threshold);
    var total := 1;
    for divisor := 1 to selected + 1
      invariant total == Binomial(base + (divisor - 1), divisor - 1)
      invariant divisor > 1 ==> total <= limit
    {
      CounterStep(base, divisor, total);
      DiagonalGrows(base, divisor, selected);
      ghost var next := Binomial(base + divisor, divisor);
      var product := total * (nodeCount - selected + divisor);
      assert product == divisor * next;
      if product > U64_MAX {
        DiagonalDoubles(base, divisor);
        if next <= limit {
          ProductWithin(divisor, next, limit);
        }
        return None;
      }
      total := product / divisor;
      if total > limit {
        return None;
      }
    }
    return Some(total);
  }

  lemma ProductWithin(a: nat, b: nat, limit: nat)
    requires a < b <= limit
    ensures a * b <= limit * limit
  {
    MulMonotone(a, limit, b);
    MulMonotone(b, limit, limit);
  }

  // ----- The enumeration itself -----

  function PrependAll<T>(x: T, lists: seq<seq<T>>): (r: seq<seq<T>>)
    ensures |r| == |lists|
    ensures forall i | 0 <= i < |lists| :: r[i] == [x] + lists[i]
  {
    seq(|lists|, i requires 0 <= i < |lists| => [x] + lists[i])
  }

  /** `Itertools::combinations`: the size-`k` subsequences, in lexicographic order of positions. */
  function Subsets<T>(s: seq<T>, k: nat): seq<seq<T>> {
    if k == 0 then [[]]
    else if s == [] then []
    else PrependAll(s[0], Subsets(s[1..], k - 1)) + Subsets(s[1..], k)
  }

  /** The enumeration is as long as the binomial coefficient. */
  lemma {:induction false} SubsetCount<T>(s: seq<T>, k: nat)
    ensures |Subsets(s, k)| == Binomial(|s|, k)
  {
    if k > 0 && s != [] {
      SubsetCount(s[1..], k - 1);
      SubsetCount(s[1..], k);
    }
  }

  lemma PrependedMember<T>(x: T, lists: seq<seq<T>>, t: seq<T>)
    ensures t in PrependAll(x, lists) <==> |t| > 0 && t[0] == x && t[1..] in lists
  {
    var all := PrependAll(x, lists);
    if t in all {
      var i :| 0 <= i < |all| && all[i] == t;
      assert t[1..] == lists[i];
    }
    if |t| > 0 && t[0] == x && t[1..] in lists {
      var i :| 0 <= i < |lists| && lists[i] == t[1..];
      assert all[i] == t;
    }
  }

  /** An ascending list of `k` keys of `s`. */
  ghost predicate ChoiceOf(s: seq<nat>, k: nat, t: seq<nat>) {
    StrictlyAscending(t) && |t| == k && ToSet(t) <= ToSet(s)
  }

  /** A choice either starts with the least key of `s` or avoids it. */
  lemma ChoiceSplits(s: seq<nat>, k: nat, t: seq<nat>)
    requires StrictlyAscending(s) && s != [] && t != [] && k > 0
    ensures ChoiceOf(s, k, t) <==> if t[0] == s[0] then ChoiceOf(s[1..], k - 1, t[1..]) else ChoiceOf(s[1..], k, t)
    ensures t[0] == s[0] ==> !ChoiceOf(s[1..], k, t)
  {
    var rest := s[1..];
    assert ToSet(s) == {s[0]} + ToSet(rest);
    assert ToSet(t) == {t[0]} + ToSet(t[1..]);
    assert s[0] !in ToSet(rest);
    if ChoiceOf(s, k, t) {
      assert t[0] in ToSet(s);
      forall x | x in t[1..] ensures x in rest {
        assert x in ToSet(s) && t[0] < x;
      }
    }
    if t[0] == s[0] && ChoiceOf(rest, k - 1, t[1..]) {
      forall j | 0 < j < |t| ensures t[0] < t[j] {
        assert t[j] == t[1..][j - 1] && t[j] in ToSet(t[1..]) && t[j] in ToSet(rest);
      }
    }
  }

  /** A listed choice takes the first element or does not. */
  lemma SubsetsMember(s: seq<nat>, k: nat, t: seq<nat>)
    requires s != [] && k > 0
    ensures t in Subsets(s, k) <==>
              (|t| > 0 && t[0] == s[0] && t[1..] in Subsets(s[1..], k - 1)) || t in Subsets(s[1..], k)
  {
    assert Subsets(s, k) == PrependAll(s[0], Subsets(s[1..], k - 1)) + Subsets(s[1..], k);
    PrependedMember(s[0], Subsets(s[1..], k - 1), t);
  }

  /** The enumeration contains exactly the ascending choices of k elements. */
  lemma SubsetsAreExact(s: seq<nat>, k: nat, t: seq<nat>)
    requires StrictlyAscending(s)
    ensures t in Subsets(s, k) <==> ChoiceOf(s, k, t)
  {
    ListsChoices(s, k, t);
  }

  ghost predicate ListedIfChoice(s: seq<nat>, k: nat, t: seq<nat>) {
    t in Subsets(s, k) <==> ChoiceOf(s, k, t)
  }

  lemma {:induction false} ListsChoices(s: seq<nat>, k: nat, t: seq<nat>)
    requires StrictlyAscending(s)
    ensures ListedIfChoice(s, k, t)
  {
    if k == 0 || t == [] || s == [] {
      EmptyChoice(s, k, t);
    } else {
      ListsChoices(s[1..], k, t);
      ListsChoices(s[1..], k - 1, t[1..]);
      ListStep(s, k, t);
    }
  }

  lemma ListStep(s: seq<nat>, k: nat, t: seq<nat>)
    requires StrictlyAscending(s) && s != [] && t != [] && k > 0
    requires ListedIfChoice(s[1..], k, t) && ListedIfChoice(s[1..], k - 1, t[1..])
    ensures ListedIfChoice(s, k, t)
  {
    SubsetsMember(s, k, t);
    ChoiceSplits(s, k, t);
  }

  /** Nothing is chosen exactly when nothing is asked for. */
  lemma {:induction false} EmptyChoice(s: seq<nat>, k: nat, t: seq<nat>)
    requires k == 0 || t == [] || s == []
    ensures t in Subsets(s, k) <==> k == 0 && t == []
    ensures ChoiceOf(s, k, t) <==> k == 0 && t == []
  {
    if t != [] {
      assert t[0] in ToSet(t);
    } else if k > 0 && s != [] {
      SubsetsMember(s, k, t);
      EmptyChoice(s[1..], k, t);
    }
  }

  /** No subset is listed twice. */
  lemma {:induction false} SubsetsAreDistinct(s: seq<nat>, k: nat)
    requires StrictlyAscending(s)
    ensures NoDuplicates(Subsets(s, k))
  {
    if k > 0 && s != [] {
      SubsetsAreDistinct(s[1..], k - 1);
      SubsetsAreDistinct(s[1..], k);
      PrependDistinct(s[0], Subsets(s[1..], k - 1));
      forall t | t in Subsets(s[1..], k) ensures t == [] || t[0] != s[0] {
        SubsetsAreExact(s[1..], k, t);
        if t != [] {
          assert t[0] in ToSet(t) && t[0] in ToSet(s[1..]);
        }
      }
      ApartAppend(s[0], Subsets(s[1..], k - 1), Subsets(s[1..], k));
    }
  }

  lemma PrependDistinct<T>(x: T, lists: seq<seq<T>>)
    requires NoDuplicates(lists)
    ensures NoDuplicates(PrependAll(x, lists))
  {
    var all := PrependAll(x, lists);
    forall i, j | 0 <= i < j < |all| ensures all[i] != all[j] {
      assert all[i][1..] == lists[i] && all[j][1..] == lists[j];
    }
  }

  lemma ApartAppend<T>(x: T, lists: seq<seq<T>>, others: seq<seq<T>>)
    requires NoDuplicates(PrependAll(x, lists)) && NoDuplicates(others)
    requires forall t | t in others :: t == [] || t[0] != x
    ensures NoDuplicates(PrependAll(x, lists) + others)
  {
    var all := PrependAll(x, lists);
    forall i, j | 0 <= i < |all| && 0 <= j < |others| ensures all[i] != others[j] {
      assert all[i][0] == x && others[j] in others;
    }
  }
}
