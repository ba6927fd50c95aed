/**
 * The two enumerations the Hamiltonian takes from `itertools`: r-element combinations of a
 * range without and with repetition, each in the lexicographic order `itertools` produces.
 */
module Combinatorics {

  /** Every sequence of cs with x put in front, in the order of cs. */
  function PrependAll(x: nat, cs: seq<seq<nat>>): (r: seq<seq<nat>>)
    ensures |r| == |cs| && forall i :: 0 <= i < |cs| ==> r[i] == [x] + cs[i]
  {
    seq(|cs|, i requires 0 <= i < |cs| => [x] + cs[i])
  }

  predicate StrictlyIncreasing(s: seq<nat>)
  {
    forall i, j :: 0 <= i < j < |s| ==> s[i] < s[j]
  }

  predicate NonDecreasing(s: seq<nat>)
  {
    forall i, j :: 0 <= i < j < |s| ==> s[i] <= s[j]
  }

  /** Every element lies in range(lo, n). */
  predicate InRange(s: seq<nat>, lo: nat, n: nat)
  {
    forall i :: 0 <= i < |s| ==> lo <= s[i] < n
  }

  /** No element occurs twice. */
  predicate Distinct<T(==)>(s: seq<T>)
  {
    forall i, j :: 0 <= i < j < |s| ==> s[i] != s[j]
  }

  /** The binomial coefficient C(n, r), by Pascal's rule. */
  function Binom(n: nat, r: nat): nat
  {
    if r == 0 then 1
    else if n == 0 then 0
    else Binom(n - 1, r - 1) + Binom(n - 1, r)
  }

  /** There is no way to choose more elements than there are. */
  lemma {:induction false} BinomOverfull(n: nat, r: nat)
    requires r > n
    ensures Binom(n, r) == 0
  {
    if n > 0 {
      BinomOverfull(n - 1, r - 1);
      BinomOverfull(n - 1, r);
    }
  }

  // ---------------------------------------------------------------- without repetition

  /** `itertools.combinations(range(lo, n), r)` */
  function CombinationsFrom(lo: nat, n: nat, r: nat): seq<seq<nat>>
    decreases n - lo, r
  {
    if r == 0 then [[]]
    else if lo >= n then []
    else PrependAll(lo, CombinationsFrom(lo + 1, n, r - 1)) + CombinationsFrom(lo + 1, n, r)
  }

  /** `itertools.combinations(range(n), r)` */
  function Combinations(n: nat, r: nat): seq<seq<nat>>
  {
    CombinationsFrom(0, n, r)
  }

  /** A smaller first element in front of a strictly increasing tuple keeps it strictly increasing. */
  lemma ConsIncreasing(x: nat, t: seq<nat>, n: nat)
    requires StrictlyIncreasing(t) && InRange(t, x + 1, n) && x < n
    ensures StrictlyIncreasing([x] + t) && InRange([x] + t, x, n)
  {
    var c := [x] + t;
    forall i, j | 0 <= i < j < |c| ensures c[i] < c[j] {
      assert c[j] == t[j - 1];
      if i > 0 {
        assert c[i] == t[i - 1];
      }
    }
    forall i | 0 <= i < |c| ensures x <= c[i] < n {
      if i > 0 {
        assert c[i] == t[i - 1];
      }
    }
  }

  /** A first element no larger than the rest keeps a tuple non-decreasing. */
  lemma ConsNonDecreasing(x: nat, t: seq<nat>, n: nat)
    requires NonDecreasing(t) && InRange(t, x, n) && x < n
    ensures NonDecreasing([x] + t) && InRange([x] + t, x, n)
  {
    var c := [x] + t;
    forall i, j | 0 <= i < j < |c| ensures c[i] <= c[j] {
      assert c[j] == t[j - 1];
      if i > 0 {
        assert c[i] == t[i - 1];
      }
    }
    forall i | 0 <= i < |c| ensures x <= c[i] < n {
      if i > 0 {
        assert c[i] == t[i - 1];
      }
    }
  }

  /** A member of PrependAll(x, tails) is x followed by a member of tails. */
  lemma PrependedSource(x: nat, tails: seq<seq<nat>>, c: seq<nat>) returns (t: seq<nat>)
    requires c in PrependAll(x, tails)
    ensures t in tails && c == [x] + t
  {
    var i :| 0 <= i < |tails| && PrependAll(x, tails)[i] == c;
    t := tails[i];
  }

  /** A tuple within range(lo + 1, n) is within range(lo, n). */
  lemma WidenRange(c: seq<nat>, lo: nat, n: nat)
    requires InRange(c, lo + 1, n)
    ensures InRange(c, lo, n)
  {
  }

  /** Each combination is a strictly increasing r-tuple drawn from range(lo, n). */
  lemma {:induction false} CombinationsFromShape(lo: nat, n: nat, r: nat, c: seq<nat>)
    requires c in CombinationsFrom(lo, n, r)
    ensures |c| == r && StrictlyIncreasing(c) && InRange(c, lo, n)
    decreases n - lo, r
  {
    if r > 0 && lo < n {
      var tails := CombinationsFrom(lo + 1, n, r - 1);
      assert CombinationsFrom(lo, n, r) == PrependAll(lo, tails) + CombinationsFrom(lo + 1, n, r);
      if c in PrependAll(lo, tails) {
        var t := PrependedSource(lo, tails, c);
        CombinationsFromShape(lo + 1, n, r - 1, t);
        ConsIncreasing(lo, t, n);
      } else {
        CombinationsFromShape(lo + 1, n, r, c);
        WidenRange(c, lo, n);
      }
    }
  }

  /** Prefixing a listed tuple gives a listed tuple of the prefixed list. */
  lemma PrependedMember(x: nat, tails: seq<seq<nat>>, t: seq<nat>)
    requires t in tails
    ensures [x] + t in PrependAll(x, tails)
  {
    var i :| 0 <= i < |tails| && tails[i] == t;
    assert PrependAll(x, tails)[i] == [x] + t;
  }

  /** The tail of a non-empty strictly increasing tuple is strictly increasing and lies above its head. */
  lemma IncreasingTail(c: seq<nat>, n: nat)
    requires |c| > 0 && StrictlyIncreasing(c) && InRange(c, c[0], n)
    ensures StrictlyIncreasing(c[1..]) && InRange(c[1..], c[0] + 1, n)
  {
    forall i | 0 <= i < |c[1..]| ensures c[0] + 1 <= c[1..][i] < n {
      assert c[1..][i] == c[i + 1] && c[0] < c[i + 1];
    }
    forall i, j | 0 <= i < j < |c[1..]| ensures c[1..][i] < c[1..][j] {
      assert c[1..][i] == c[i + 1] && c[1..][j] == c[j + 1];
    }
  }

  /** A strictly increasing tuple whose head is above lo lies in range(lo + 1, n). */
  lemma IncreasingAbove(c: seq<nat>, lo: nat, n: nat)
    requires |c| > 0 && StrictlyIncreasing(c) && InRange(c, lo, n) && c[0] > lo
    ensures InRange(c, lo + 1, n)
  {
    forall i | 0 <= i < |c| ensures lo + 1 <= c[i] < n {
      if i > 0 {
        assert c[0] < c[i];
      }
    }
  }

  /** Every strictly increasing r-tuple drawn from range(lo, n) is enumerated. */
  lemma {:induction false} CombinationsFromComplete(lo: nat, n: nat, r: nat, c: seq<nat>)
    requires |c| == r && StrictlyIncreasing(c) && InRange(c, lo, n)
    ensures c in CombinationsFrom(lo, n, r)
    decreases n - lo, r
  {
    if r > 0 {
      assert lo <= c[0] < n;
      var tails := CombinationsFrom(lo + 1, n, r - 1);
      var rest := CombinationsFrom(lo + 1, n, r);
      assert CombinationsFrom(lo, n, r) == PrependAll(lo, tails) + rest;
      if c[0] == lo {
        IncreasingTail(c, n);
        CombinationsFromComplete(lo + 1, n, r - 1, c[1..]);
        PrependedMember(lo, tails, c[1..]);
        assert [lo] + c[1..] == c;
      } else {
        IncreasingAbove(c, lo, n);
        CombinationsFromComplete(lo + 1, n, r, c);
      }
    }
  }

  /** Two lists that are each free of repetition and share no element concatenate to one free of repetition. */
  lemma DistinctConcat<T>(a: seq<T>, b: seq<T>)
    requires Distinct(a) && Distinct(b)
    requires forall x :: x in a ==> x !in b
    ensures Distinct(a + b)
  {
    forall i, j | 0 <= i < j < |a + b| ensures (a + b)[i] != (a + b)[j] {
      if j >= |a| && i < |a| {
        assert (a + b)[i] == a[i] && (a + b)[j] == b[j - |a|];
        assert a[i] in a;
      }
    }
  }

  /** Putting the same element in front keeps a list free of repetition. */
  lemma PrependAllDistinct(x: nat, cs: seq<seq<nat>>)
    requires Distinct(cs)
    ensures Distinct(PrependAll(x, cs))
  {
    forall i, j | 0 <= i < j < |cs| ensures PrependAll(x, cs)[i] != PrependAll(x, cs)[j] {
      assert PrependAll(x, cs)[i][1..] == cs[i];
      assert PrependAll(x, cs)[j][1..] == cs[j];
    }
  }

  /** No combination is enumerated twice. */
  lemma {:induction false} CombinationsFromDistinct(lo: nat, n: nat, r: nat)
    ensures Distinct(CombinationsFrom(lo, n, r))
    decreases n - lo, r
  {
    if r > 0 && lo < n {
      var tails, rest := CombinationsFrom(lo + 1, n, r - 1), CombinationsFrom(lo + 1, n, r);
      CombinationsFromDistinct(lo + 1, n, r - 1);
      CombinationsFromDistinct(lo + 1, n, r);
      PrependAllDistinct(lo, tails);
      forall c | c in PrependAll(lo, tails) ensures c !in rest {
        var i :| 0 <= i < |tails| && PrependAll(lo, tails)[i] == c;
        assert c[0] == lo;
        if c in rest {
          CombinationsFromShape(lo + 1, n, r, c);
        }
      }
      DistinctConcat(PrependAll(lo, tails), rest);
    }
  }

  /** There are C(n - lo, r) combinations. */
  lemma {:induction false} CombinationsFromCount(lo: nat, n: nat, r: nat)
    requires lo <= n
    ensures |CombinationsFrom(lo, n, r)| == Binom(n - lo, r)
    decreases n - lo, r
  {
    if r > 0 && lo < n {
      CombinationsFromCount(lo + 1, n, r - 1);
      CombinationsFromCount(lo + 1, n, r);
    }
  }

  /** a comes strictly before b in lexicographic order. */
  predicate LexLess(a: seq<nat>, b: seq<nat>)
    decreases |a|
  {
    |a| > 0 && |b| > 0 && (a[0] < b[0] || (a[0] == b[0] && LexLess(a[1..], b[1..])))
  }

  /** Every tuple of the list comes lexicographically before every later one. */
  predicate LexSorted(cs: seq<seq<nat>>)
  {
    forall i, j :: 0 <= i < j < |cs| ==> LexLess(cs[i], cs[j])
  }

  /** Putting the same element in front keeps a list in lexicographic order. */
  lemma PrependAllLexSorted(x: nat, cs: seq<seq<nat>>)
    requires LexSorted(cs)
    ensures LexSorted(PrependAll(x, cs))
  {
    forall i, j | 0 <= i < j < |cs| ensures LexLess(PrependAll(x, cs)[i], PrependAll(x, cs)[j]) {
      assert PrependAll(x, cs)[i][1..] == cs[i];
      assert PrependAll(x, cs)[j][1..] == cs[j];
    }
  }

  /** Two sorted lists, every tuple of the first before every tuple of the second, concatenate to a sorted list. */
  lemma LexSortedConcat(a: seq<seq<nat>>, b: seq<seq<nat>>)
    requires LexSorted(a) && LexSorted(b)
    requires forall i, j :: 0 <= i < |a| && 0 <= j < |b| ==> LexLess(a[i], b[j])
    ensures LexSorted(a + b)
  {
    forall i, j | 0 <= i < j < |a + b| ensures LexLess((a + b)[i], (a + b)[j]) {
      if j < |a| {
        assert (a + b)[i] == a[i] && (a + b)[j] == a[j];
      } else if i < |a| {
        assert (a + b)[i] == a[i] && (a + b)[j] == b[j - |a|];
      } else {
        assert (a + b)[i] == b[i - |a|] && (a + b)[j] == b[j - |a|];
      }
    }
  }

  /** The combinations come in the lexicographic order `itertools` emits them in. */
  lemma {:induction false} CombinationsFromLexSorted(lo: nat, n: nat, r: nat)
    ensures LexSorted(CombinationsFrom(lo, n, r))
    decreases n - lo, r
  {
    if r > 0 && lo < n {
      var tails, rest := CombinationsFrom(lo + 1, n, r - 1), CombinationsFrom(lo + 1, n, r);
      var heads := PrependAll(lo, tails);
      assert CombinationsFrom(lo, n, r) == heads + rest;
      CombinationsFromLexSorted(lo + 1, n, r - 1);
      CombinationsFromLexSorted(lo + 1, n, r);
      PrependAllLexSorted(lo, tails);
      forall i, j | 0 <= i < |heads| && 0 <= j < |rest| ensures LexLess(heads[i], rest[j]) {
        assert rest[j] in rest;
        CombinationsFromShape(lo + 1, n, r, rest[j]);
        assert heads[i][0] == lo;
      }
      LexSortedConcat(heads, rest);
    }
  }

  /** `itertools.combinations(range(n), r)` lists each r-subset of range(n) once, in increasing order, C(n, r) in all. */
  lemma Enumerated(n: nat, r: nat)
    ensures forall c :: c in Combinations(n, r) <==> |c| == r && StrictlyIncreasing(c) && InRange(c, 0, n)
    ensures Distinct(Combinations(n, r))
    ensures |Combinations(n, r)| == Binom(n, r)
    ensures r > n ==> Combinations(n, r) == []
    ensures LexSorted(Combinations(n, r))
  {
    CombinationsFromLexSorted(0, n, r);
    forall c | c in Combinations(n, r) ensures |c| == r && StrictlyIncreasing(c) && InRange(c, 0, n) {
      CombinationsFromShape(0, n, r, c);
    }
    forall c | |c| == r && StrictlyIncreasing(c) && InRange(c, 0, n) ensures c in Combinations(n, r) {
      CombinationsFromComplete(0, n, r, c);
    }
    CombinationsFromDistinct(0, n, r);
    CombinationsFromCount(0, n, r);
    if r > n {
      BinomOverfull(n, r);
    }
  }

  // ---------------------------------------------------------------- with repetition

  /** `itertools.combinations_with_replacement(range(lo, n), r)` */
  function CombinationsWithReplacementFrom(lo: nat, n: nat, r: nat): seq<seq<nat>>
    decreases n - lo, r
  {
    if r == 0 then [[]]
    else if lo >= n then []
    else PrependAll(lo, CombinationsWithReplacementFrom(lo, n, r - 1)) + CombinationsWithReplacementFrom(lo + 1, n, r)
  }

  /** `itertools.combinations_with_replacement(range(n), r)` */
  function CombinationsWithReplacement(n: nat, r: nat): seq<seq<nat>>
  {
    CombinationsWithReplacementFrom(0, n, r)
  }

  /** Each multiset combination is a non-decreasing r-tuple drawn from range(lo, n). */
  lemma {:induction false} CombinationsWithReplacementFromShape(lo: nat, n: nat, r: nat, c: seq<nat>)
    requires c in CombinationsWithReplacementFrom(lo, n, r)
    ensures |c| == r && NonDecreasing(c) && InRange(c, lo, n)
    decreases n - lo, r
  {
    if r > 0 && lo < n {
      var tails := CombinationsWithReplacementFrom(lo, n, r - 1);
      assert CombinationsWithReplacementFrom(lo, n, r) ==
        PrependAll(lo, tails) + CombinationsWithReplacementFrom(lo + 1, n, r);
      if c in PrependAll(lo, tails) {
        var t := PrependedSource(lo, tails, c);
        CombinationsWithReplacementFromShape(lo, n, r - 1, t);
        ConsNonDecreasing(lo, t, n);
      } else {
        CombinationsWithReplacementFromShape(lo + 1, n, r, c);
        WidenRange(c, lo, n);
      }
    }
  }

  /** The tail of a non-empty non-decreasing tuple is non-decreasing and starts no lower than its head. */
  lemma NonDecreasingTail(c: seq<nat>, n: nat)
    requires |c| > 0 && NonDecreasing(c) && InRange(c, c[0], n)
    ensures NonDecreasing(c[1..]) && InRange(c[1..], c[0], n)
  {
    forall i | 0 <= i < |c[1..]| ensures c[0] <= c[1..][i] < n {
      assert c[1..][i] == c[i + 1];
    }
    forall i, j | 0 <= i < j < |c[1..]| ensures c[1..][i] <= c[1..][j] {
      assert c[1..][i] == c[i + 1] && c[1..][j] == c[j + 1];
    }
  }

  /** A non-decreasing tuple whose head is above lo lies in range(lo + 1, n). */
  lemma NonDecreasingAbove(c: seq<nat>, lo: nat, n: nat)
    requires |c| > 0 && NonDecreasing(c) && InRange(c, lo, n) && c[0] > lo
    ensures InRange(c, lo + 1, n)
  {
    forall i | 0 <= i < |c| ensures lo + 1 <= c[i] < n {
      if i > 0 {
        assert c[0] <= c[i];
      }
    }
  }

  /** Every non-decreasing r-tuple drawn from range(lo, n) is enumerated. */
  lemma {:induction false} CombinationsWithReplacementFromComplete(lo: nat, n: nat, r: nat, c: seq<nat>)
    requires |c| == r && NonDecreasing(c) && InRange(c, lo, n)
    ensures c in CombinationsWithReplacementFrom(lo, n, r)
    decreases n - lo, r
  {
    if r > 0 {
      assert lo <= c[0] < n;
      var tails := CombinationsWithReplacementFrom(lo, n, r - 1);
      var rest := CombinationsWithReplacementFrom(lo + 1, n, r);
      assert CombinationsWithReplacementFrom(lo, n, r) == PrependAll(lo, tails) + rest;
      if c[0] == lo {
        NonDecreasingTail(c, n);
        CombinationsWithReplacementFromComplete(lo, n, r - 1, c[1..]);
        PrependedMember(lo, tails, c[1..]);
        assert [lo] + c[1..] == c;
      } else {
        NonDecreasingAbove(c, lo, n);
        CombinationsWithReplacementFromComplete(lo + 1, n, r, c);
      }
    }
  }

  /** No multiset combination is enumerated twice. */
  lemma {:induction false} CombinationsWithReplacementFromDistinct(lo: nat, n: nat, r: nat)
    ensures Distinct(CombinationsWithReplacementFrom(lo, n, r))
    decreases n - lo, r
  {
    if r > 0 && lo < n {
      var tails, rest := CombinationsWithReplacementFrom(lo, n, r - 1), CombinationsWithReplacementFrom(lo + 1, n, r);
      CombinationsWithReplacementFromDistinct(lo, n, r - 1);
      CombinationsWithReplacementFromDistinct(lo + 1, n, r);
      PrependAllDistinct(lo, tails);
      forall c | c in PrependAll(lo, tails) ensures c !in rest {
        var i :| 0 <= i < |tails| && PrependAll(lo, tails)[i] == c;
        assert c[0] == lo;
        if c in rest {
          CombinationsWithReplacementFromShape(lo + 1, n, r, c);
        }
      }
      DistinctConcat(PrependAll(lo, tails), rest);
    }
  }

  /** `itertools.combinations_with_replacement(range(n), r)` lists each non-decreasing r-tuple over range(n) once. */
  lemma EnumeratedWithReplacement(n: nat, r: nat)
    ensures forall c :: c in CombinationsWithReplacement(n, r) <==> |c| == r && NonDecreasing(c) && InRange(c, 0, n)
    ensures Distinct(CombinationsWithReplacement(n, r))
  {
    forall c | c in CombinationsWithReplacement(n, r) ensures |c| == r && NonDecreasing(c) && InRange(c, 0, n) {
      CombinationsWithReplacementFromShape(0, n, r, c);
    }
    forall c | |c| == r && NonDecreasing(c) && InRange(c, 0, n) ensures c in CombinationsWithReplacement(n, r) {
      CombinationsWithReplacementFromComplete(0, n, r, c);
    }
    CombinationsWithReplacementFromDistinct(0, n, r);
  }
}
