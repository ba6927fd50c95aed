/**
 * The symbolic Hamiltonian of a network of delay lines with a nonlinearity: linear terms
 * a^H_i a_j Omega[i, j] plus nonlinear terms, one per pair of a multiset of modes and a pattern
 * of creation and annihilation, each weighted by its interaction coefficient and kept when that
 * weight is significant.
 */
module HamiltonianModel {
  import opened Results
  import opened Complexes
  import opened Matrices
  import opened Combinatorics
  import Functions

  /** The symbols of mode i: `a^H_i` creates a photon, `a_i` annihilates one. */
  datatype Op = Create(mode: nat) | Annihilate(mode: nat)

  /** A monomial: a coefficient times the product of the symbols of `word`, in order. */
  datatype Term = Term(coeff: Complex, word: seq<Op>)

  /** A symbolic sum of monomials; the empty sum is the initial `0.`. */
  type Expr = seq<Term>

  /** The default cutoff `eps = 1e-5` of `make_nonlin_H` and `make_H`. */
  const DefaultCutoff: real := 0.00001

  /** The key of one nonlinear weight: a multiset of modes and the signs that go with them. */
  type Key = (seq<nat>, seq<int>)

  /** `expr * c`: every coefficient multiplied by c. */
  function ScaleExpr(e: Expr, c: Complex): (r: Expr)
    ensures |r| == |e|
    ensures forall i :: 0 <= i < |e| ==> r[i].word == e[i].word && r[i].coeff == Mul(e[i].coeff, c)
  {
    seq(|e|, i requires 0 <= i < |e| => Term(Mul(e[i].coeff, c), e[i].word))
  }

  /** The m annihilation symbols a_0 .. a_{m-1}. */
  function Annihilators(m: nat): (r: seq<Op>)
    ensures |r| == m && forall i :: 0 <= i < m ==> r[i] == Annihilate(i)
  {
    if m == 0 then [] else Annihilators(m - 1) + [Annihilate(m - 1)]
  }

  /** The m creation symbols a^H_0 .. a^H_{m-1}. */
  function Creators(m: nat): (r: seq<Op>)
    ensures |r| == m && forall i :: 0 <= i < m ==> r[i] == Create(i)
  {
    if m == 0 then [] else Creators(m - 1) + [Create(m - 1)]
  }

  // ---------------------------------------------------------------- sign patterns

  /** A list of n signs, -1 at the positions of `tup` and +1 everywhere else. */
  function PmArr(n: nat, tup: seq<nat>): seq<int>
  {
    seq(n, j => if j in tup then -1 else 1)
  }

  /** The sign patterns of the given choices of annihilated positions, in the same order. */
  function PmArrs(n: nat, tups: seq<seq<nat>>): (r: seq<seq<int>>)
    ensures |r| == |tups| && forall q :: 0 <= q < |tups| ==> r[q] == PmArr(n, tups[q])
  {
    seq(|tups|, q requires 0 <= q < |tups| => PmArr(n, tups[q]))
  }

  /** Extending the tuples by one extends the patterns by that tuple's pattern. */
  lemma PmArrsSnoc(n: nat, tups: seq<seq<nat>>, q: nat)
    requires q < |tups|
    ensures PmArrs(n, tups[..q + 1]) == PmArrs(n, tups[..q]) + [PmArr(n, tups[q])]
  {
    assert tups[..q + 1] == tups[..q] + [tups[q]];
  }

  /** n signs, each +1 or -1, exactly p of them -1. */
  predicate IsPmArr(s: seq<int>, n: nat, p: nat)
  {
    |s| == n && (forall j :: 0 <= j < |s| ==> s[j] == 1 || s[j] == -1) && multiset(s)[-1] == p
  }

  /** The positions holding -1, in increasing order. */
  function NegativePositions(s: seq<int>): seq<nat>
    decreases |s|
  {
    if |s| == 0 then []
    else NegativePositions(s[..|s| - 1]) + (if s[|s| - 1] == -1 then [|s| - 1] else [])
  }

  lemma {:induction false} NegativePositionsSpec(s: seq<int>)
    ensures StrictlyIncreasing(NegativePositions(s)) && InRange(NegativePositions(s), 0, |s|)
    ensures |NegativePositions(s)| == multiset(s)[-1]
    ensures forall j :: 0 <= j < |s| ==> (s[j] == -1 <==> j in NegativePositions(s))
    decreases |s|
  {
    if |s| > 0 {
      var n := |s| - 1;
      var t := s[..n];
      var rt := NegativePositions(t);
      NegativePositionsSpec(t);
      assert s == t + [s[n]];
      assert multiset(s) == multiset(t) + multiset{s[n]};
      var r := NegativePositions(s);
      assert r == rt + (if s[n] == -1 then [n] else []);
      forall j | 0 <= j < |s| ensures s[j] == -1 <==> j in r {
        if j < n {
          assert s[j] == t[j];
          assert j in r <==> j in rt;
        } else {
          assert n !in rt;
        }
      }
      forall i, j | 0 <= i < j < |r| ensures r[i] < r[j] {
        if j >= |rt| {
          assert r[i] == rt[i];
        }
      }
    }
  }

  lemma FirstElement(t: seq<nat>)
    requires |t| > 0
    ensures t[0] in t
  {
  }

  /** Two strictly increasing sequences with the same elements are equal. */
  lemma {:induction false} SortedUnique(s: seq<nat>, t: seq<nat>)
    requires StrictlyIncreasing(s) && StrictlyIncreasing(t)
    requires forall x :: x in s <==> x in t
    ensures s == t
    decreases |s| + |t|
  {
    if |s| == 0 {
      if |t| > 0 {
        FirstElement(t);
        assert false;
      }
    } else {
      assert s[0] in t;
      assert |t| > 0;
      assert t[0] in s;
      var i :| 0 <= i < |t| && t[i] == s[0];
      var k :| 0 <= k < |s| && s[k] == t[0];
      assert t[0] <= t[i] && s[0] <= s[k];
      assert s[0] == t[0];
      IncreasingRest(s);
      IncreasingRest(t);
      SortedUnique(s[1..], t[1..]);
      assert s == [s[0]] + s[1..] && t == [t[0]] + t[1..];
    }
  }

  /** Dropping the head of an increasing tuple keeps it increasing and removes exactly the head. */
  lemma IncreasingRest(s: seq<nat>)
    requires |s| > 0 && StrictlyIncreasing(s)
    ensures StrictlyIncreasing(s[1..])
    ensures forall x :: x in s[1..] <==> x in s && x != s[0]
  {
    forall x | x in s[1..] ensures x in s && x != s[0] {
      var a :| 0 <= a < |s[1..]| && s[1..][a] == x;
      assert s[a + 1] == x;
    }
    forall x | x in s && x != s[0] ensures x in s[1..] {
      var a :| 0 <= a < |s| && s[a] == x;
      assert s[1..][a - 1] == x;
    }
  }

  /** The positions of -1 in PmArr(n, tup) are tup itself. */
  lemma PmArrPositions(n: nat, tup: seq<nat>)
    requires StrictlyIncreasing(tup) && InRange(tup, 0, n)
    ensures NegativePositions(PmArr(n, tup)) == tup
  {
    var s := PmArr(n, tup);
    NegativePositionsSpec(s);
    var r := NegativePositions(s);
    forall x ensures x in r <==> x in tup {
      if x in r {
        var i :| 0 <= i < |r| && r[i] == x;
        assert s[x] == -1;
      }
      if x in tup {
        var i :| 0 <= i < |tup| && tup[i] == x;
        assert s[x] == -1;
      }
    }
    SortedUnique(r, tup);
  }

  /** n signs that are each +1 or -1: as many +1 as there are entries that are not -1. */
  lemma {:induction false} SignCounts(s: seq<int>)
    requires forall j :: 0 <= j < |s| ==> s[j] == 1 || s[j] == -1
    ensures multiset(s)[1] + multiset(s)[-1] == |s|
    decreases |s|
  {
    if |s| > 0 {
      var n := |s| - 1;
      assert s == s[..n] + [s[n]];
      assert multiset(s) == multiset(s[..n]) + multiset{s[n]};
      SignCounts(s[..n]);
    }
  }

  /** Each list of `make_list_of_pm_arr` has n signs, p of them -1 and the other n - p of them +1. */
  lemma PmArrListSound(n: nat, p: nat, s: seq<int>)
    requires s in PmArrs(n, Combinations(n, p))
    ensures IsPmArr(s, n, p) && multiset(s)[1] == n - p
  {
    var tups := Combinations(n, p);
    var list := PmArrs(n, tups);
    Enumerated(n, p);
    var q :| 0 <= q < |list| && list[q] == s;
    assert tups[q] in tups;
    PmArrPositions(n, tups[q]);
    NegativePositionsSpec(s);
    SignCounts(s);
  }

  /** Every pattern of n signs with p entries -1 is one of the lists of `make_list_of_pm_arr`. */
  lemma PmArrListComplete(n: nat, p: nat, s: seq<int>)
    requires IsPmArr(s, n, p)
    ensures s in PmArrs(n, Combinations(n, p))
  {
    var tups := Combinations(n, p);
    Enumerated(n, p);
    var tup := NegativePositions(s);
    NegativePositionsSpec(s);
    assert tup in tups;
    var q :| 0 <= q < |tups| && tups[q] == tup;
    assert PmArrs(n, tups)[q] == s;
  }

  /** No list of `make_list_of_pm_arr` occurs twice. */
  lemma PmArrListDistinct(n: nat, p: nat)
    ensures Distinct(PmArrs(n, Combinations(n, p)))
  {
    var tups := Combinations(n, p);
    var list := PmArrs(n, tups);
    Enumerated(n, p);
    forall q1, q2 | 0 <= q1 < q2 < |list| ensures list[q1] != list[q2] {
      assert tups[q1] in tups && tups[q2] in tups;
      PmArrPositions(n, tups[q1]);
      PmArrPositions(n, tups[q2]);
    }
  }

  /**
   * The lists of `make_list_of_pm_arr` are exactly the sign patterns of length n with p entries -1,
   * each listed once, C(n, p) of them, none when p > n.
   */
  lemma PmArrList(n: nat, p: nat)
    ensures forall s :: s in PmArrs(n, Combinations(n, p)) <==> IsPmArr(s, n, p)
    ensures forall s :: s in PmArrs(n, Combinations(n, p)) ==> multiset(s)[1] == n - p
    ensures Distinct(PmArrs(n, Combinations(n, p)))
    ensures |PmArrs(n, Combinations(n, p))| == Binom(n, p)
    ensures p > n ==> PmArrs(n, Combinations(n, p)) == []
  {
    forall s | s in PmArrs(n, Combinations(n, p)) ensures IsPmArr(s, n, p) && multiset(s)[1] == n - p {
      PmArrListSound(n, p, s);
    }
    forall s | IsPmArr(s, n, p) ensures s in PmArrs(n, Combinations(n, p)) {
      PmArrListComplete(n, p, s);
    }
    PmArrListDistinct(n, p);
    Enumerated(n, p);
  }

  // ---------------------------------------------------------------- the linear part

  /** Omega has at least m rows and each of its first m rows at least m entries. */
  predicate CoversSquare(omega: Matrix, m: nat)
  {
    |omega| >= m && forall i :: 0 <= i < m ==> |omega[i]| >= m
  }

  /** The terms a^H_i a_j Omega[i, j] for j < count. */
  function LinRow(omega: Matrix, i: nat, count: nat): (r: Expr)
    requires i < |omega| && count <= |omega[i]|
    ensures |r| == count
  {
    seq(count, j requires 0 <= j < count => Term(omega[i][j], [Create(i), Annihilate(j)]))
  }

  /** The terms of the first `rows` rows of the double loop of `make_lin_H`, row by row. */
  function LinRows(omega: Matrix, m: nat, rows: nat): Expr
    requires rows <= m && CoversSquare(omega, m)
  {
    if rows == 0 then [] else LinRows(omega, m, rows - 1) + LinRow(omega, rows - 1, m)
  }

  /** The m * m terms of `make_lin_H`. */
  function LinTerms(omega: Matrix, m: nat): Expr
    requires CoversSquare(omega, m)
  {
    LinRows(omega, m, m)
  }

  lemma {:induction false} LinRowsLength(omega: Matrix, m: nat, rows: nat)
    requires rows <= m && CoversSquare(omega, m)
    ensures |LinRows(omega, m, rows)| == rows * m
  {
    if rows > 0 {
      LinRowsLength(omega, m, rows - 1);
      assert (rows - 1) * m + m == rows * m;
    }
  }

  /** Row i, column j of a grid with m columns lies at i * m + j, before the rows after row i. */
  lemma GridPosition(i: nat, j: nat, rows: nat, m: nat)
    requires i < rows && j < m
    ensures i * m + j < rows * m
  {
    assert i * m + m == (i + 1) * m;
    assert (i + 1) * m <= rows * m;
  }

  lemma {:induction false} LinRowsAt(omega: Matrix, m: nat, rows: nat, i: nat, j: nat)
    requires rows <= m && CoversSquare(omega, m) && i < rows && j < m
    ensures i * m + j < |LinRows(omega, m, rows)|
    ensures LinRows(omega, m, rows)[i * m + j] == Term(omega[i][j], [Create(i), Annihilate(j)])
  {
    var k := rows - 1;
    LinRowsLength(omega, m, rows);
    LinRowsLength(omega, m, k);
    GridPosition(i, j, rows, m);
    var prefix := LinRows(omega, m, k);
    assert LinRows(omega, m, rows) == prefix + LinRow(omega, k, m);
    if i < k {
      GridPosition(i, j, k, m);
      LinRowsAt(omega, m, k, i, j);
    } else {
      assert i * m + j == |prefix| + j;
    }
  }

  /** `make_lin_H` contributes m * m terms, a^H_i a_j Omega[i, j] for each (i, j) in m x m at position i * m + j. */
  lemma LinTermsAt(omega: Matrix, m: nat, i: nat, j: nat)
    requires CoversSquare(omega, m) && i < m && j < m
    ensures |LinTerms(omega, m)| == m * m
    ensures i * m + j < m * m
    ensures LinTerms(omega, m)[i * m + j] == Term(omega[i][j], [Create(i), Annihilate(j)])
  {
    LinRowsLength(omega, m, m);
    LinRowsAt(omega, m, m, i, j);
  }

  // ---------------------------------------------------------------- the nonlinear part

  /** The symbols of a nonlinear term: a^H for sign 1 and a otherwise, over the zipped pairs. */
  function Word(combination: seq<nat>, pm: seq<int>): (r: seq<Op>)
    ensures |r| == Min(|combination|, |pm|)
  {
    seq(Min(|combination|, |pm|), k requires 0 <= k < Min(|combination|, |pm|) =>
      if pm[k] == 1 then Create(combination[k]) else Annihilate(combination[k]))
  }

  /** The terms of the significant weights, in the order their keys are visited. */
  function NonlinTerms(keys: seq<Key>, weight: (seq<nat>, seq<int>) -> Complex): (r: Expr)
    ensures |r| == |keys|
  {
    seq(|keys|, i requires 0 <= i < |keys| => Term(weight(keys[i].0, keys[i].1), Word(keys[i].0, keys[i].1)))
  }

  class Hamiltonian {
    const roots: seq<Complex>
    const modes: seq<Vector>
    const delays: seq<real>
    const delayIndices: Functions.IndexArg
    const startNonlin: Functions.StartArg
    const durationNonlin: real
    const indicesOfRefraction: Functions.RefractionArg
    const chiOrder: nat
    const photonsAnnihilated: nat
    /** The number of modes. */
    const m: nat
    /** The annihilation symbols a_i. */
    const a: seq<Op>
    /** The creation symbols a^H_i. */
    const aH: seq<Op>
    const nonlinCoeff: Complex
    /** The last Hamiltonian built; None until `MakeH` succeeds. */
    var H: Option<Expr>

    /** One symbol of each kind per mode. */
    predicate Valid()
    {
      m == |roots| && a == Annihilators(m) && aH == Creators(m)
    }

    /** `__init__`, with its defaults: refraction 1., chi_order 3, two photons annihilated, coefficient 1. */
    constructor (roots: seq<Complex>, modes: seq<Vector>, delays: seq<real>,
                 delayIndices: Functions.IndexArg, startNonlin: Functions.StartArg, durationNonlin: real,
                 indicesOfRefraction: Functions.RefractionArg := Functions.RefractionScalar(1.0),
                 chiOrder: nat := 3, photonsAnnihilated: nat := 2, nonlinCoeff: Complex := One)
      ensures Valid()
      ensures this.roots == roots && this.modes == modes && this.delays == delays
      ensures this.delayIndices == delayIndices && this.startNonlin == startNonlin
      ensures this.durationNonlin == durationNonlin && this.indicesOfRefraction == indicesOfRefraction
      ensures this.chiOrder == chiOrder && this.photonsAnnihilated == photonsAnnihilated
      ensures this.nonlinCoeff == nonlinCoeff
      ensures m == |roots| && |a| == m && |aH| == m && H == None
    {
      this.roots := roots;
      this.modes := modes;
      this.delays := delays;
      this.delayIndices := delayIndices;
      this.startNonlin := startNonlin;
      this.durationNonlin := durationNonlin;
      this.indicesOfRefraction := indicesOfRefraction;
      this.chiOrder := chiOrder;
      this.photonsAnnihilated := photonsAnnihilated;
      m := |roots|;
      a := Annihilators(|roots|);
      aH := Creators(|roots|);
      H := None;
      this.nonlinCoeff := nonlinCoeff;
    }

    /**
     * `make_nonlin_term_sp`: the product, over zip(combination, pm_arr), of `a_H[index]` when
     * sign == 1 and `a[index]` otherwise; an index outside the symbol lists raises.
     */
    function NonlinWord(combination: seq<int>, pm: seq<int>): Result<seq<Op>>
      decreases |combination|
    {
      if |combination| == 0 || |pm| == 0 then Ok([])
      else
        var symbols := if pm[0] == 1 then aH else a;
        match Functions.PyLookup(symbols, combination[0])
        case None => Err(IndexOutOfRange)
        case Some(op) =>
          match NonlinWord(combination[1..], pm[1..])
          case Err(e) => Err(e)
          case Ok(w) => Ok([op] + w)
    }

    /** The monomial `1. * a_H[..] * a[..] * ...` of one key. */
    function NonlinTerm(combination: seq<int>, pm: seq<int>): Result<Term>
    {
      match NonlinWord(combination, pm)
      case Err(e) => Err(e)
      case Ok(w) => Ok(Term(FromReal(1.0), w))
    }

    /**
     * The word is defined exactly when every zipped index is a valid index of the m symbols;
     * then position k holds the creation or annihilation symbol of the mode index k denotes.
     */
    lemma {:induction false} NonlinWordSpec(combination: seq<int>, pm: seq<int>)
      requires Valid()
      ensures NonlinWord(combination, pm).Ok? <==>
        forall k :: 0 <= k < Min(|combination|, |pm|) ==> Functions.PyIndexValid(m, combination[k])
      ensures NonlinWord(combination, pm).Ok? ==>
        var w := NonlinWord(combination, pm).value;
        |w| == Min(|combination|, |pm|) &&
        forall k :: 0 <= k < |w| ==>
          w[k] == (if pm[k] == 1 then Create(Functions.PyPosition(m, combination[k]))
                   else Annihilate(Functions.PyPosition(m, combination[k])))
      ensures NonlinWord(combination, pm).Err? ==> NonlinWord(combination, pm).error == IndexOutOfRange
      decreases |combination|
    {
      if |combination| > 0 && |pm| > 0 {
        NonlinWordSpec(combination[1..], pm[1..]);
        assert forall k :: 0 <= k < Min(|combination[1..]|, |pm[1..]|) ==>
          combination[1..][k] == combination[k + 1] && pm[1..][k] == pm[k + 1];
      }
    }

    /** For indices in range(m), as make_weights supplies them, the term is the word with coefficient 1. */
    lemma NonlinTermInRange(combination: seq<nat>, pm: seq<int>)
      requires Valid() && InRange(combination, 0, m)
      ensures NonlinTerm(combination, pm) == Ok(Term(One, Word(combination, pm)))
    {
      NonlinWordSpec(combination, pm);
      var w := NonlinWord(combination, pm).value;
      assert w == Word(combination, pm);
    }

    /** One list of `make_list_of_pm_arr`: n copies of 1, then -1 written at each position of tup. */
    static method SignPattern(n: nat, tup: seq<nat>) returns (ls: seq<int>)
      requires InRange(tup, 0, n)
      ensures ls == PmArr(n, tup)
    {
      ls := seq(n, _ => 1);
      var t := 0;
      while t < |tup|
        invariant 0 <= t <= |tup| && |ls| == n
        invariant forall j :: 0 <= j < n ==> ls[j] == if j in tup[..t] then -1 else 1
      {
        ls := ls[tup[t] := -1];
        assert tup[..t + 1] == tup[..t] + [tup[t]];
        t := t + 1;
      }
      assert tup[..t] == tup;
    }

    /** `make_list_of_pm_arr` */
    method MakeListOfPmArr() returns (list: seq<seq<int>>)
      ensures list == PmArrs(chiOrder + 1, Combinations(chiOrder + 1, photonsAnnihilated))
    {
      var n := chiOrder + 1;
      var tups := Combinations(n, photonsAnnihilated);
      list := [];
      var q := 0;
      while q < |tups|
        invariant 0 <= q <= |tups|
        invariant list == PmArrs(n, tups[..q])
      {
        var tup := tups[q];
        CombinationsFromShape(0, n, photonsAnnihilated, tup);
        var ls := SignPattern(n, tup);
        PmArrsSnoc(n, tups, q);
        list := list + [ls];
        q := q + 1;
      }
      assert tups[..q] == tups;
    }

    /** A key of `make_weights`: a non-decreasing (chi_order + 1)-tuple over range(m) and a sign pattern. */
    predicate WeightKey(k: Key)
    {
      |k.0| == chiOrder + 1 && NonDecreasing(k.0) && InRange(k.0, 0, m) &&
      IsPmArr(k.1, chiOrder + 1, photonsAnnihilated)
    }

    /** `make_weights`: one entry per multiset of modes and sign pattern, holding that pair's weight. */
    method MakeWeights(weight: (seq<nat>, seq<int>) -> Complex) returns (weights: map<Key, Complex>)
      ensures forall k :: k in weights <==> WeightKey(k)
      ensures forall k :: k in weights ==> weights[k] == weight(k.0, k.1)
    {
      var pms := MakeListOfPmArr();
      var combos := CombinationsWithReplacement(m, chiOrder + 1);
      weights := map[];
      var i := 0;
      while i < |pms|
        invariant 0 <= i <= |pms|
        invariant forall k :: k in weights <==> k.1 in pms[..i] && k.0 in combos
        invariant forall k :: k in weights ==> weights[k] == weight(k.0, k.1)
      {
        var j := 0;
        while j < |combos|
          invariant 0 <= j <= |combos|
          invariant forall k :: k in weights <==> (k.1 in pms[..i] && k.0 in combos) || (k.1 == pms[i] && k.0 in combos[..j])
          invariant forall k :: k in weights ==> weights[k] == weight(k.0, k.1)
        {
          weights := weights[(combos[j], pms[i]) := weight(combos[j], pms[i])];
          assert combos[..j + 1] == combos[..j] + [combos[j]];
          j := j + 1;
        }
        assert combos[..j] == combos;
        assert pms[..i + 1] == pms[..i] + [pms[i]];
        i := i + 1;
      }
      assert pms[..i] == pms;
      PmArrList(chiOrder + 1, photonsAnnihilated);
      EnumeratedWithReplacement(m, chiOrder + 1);
    }

    /**
     * `make_nonlin_H`: the sum of the nonlinear terms whose weight exceeds eps in magnitude, in the
     * order the dictionary of significant weights is visited; `keys` is that order.
     */
    method MakeNonlinH(weight: (seq<nat>, seq<int>) -> Complex, eps: real := DefaultCutoff) returns (h: Expr, keys: seq<Key>)
      requires Valid()
      ensures Distinct(keys)
      ensures forall k :: k in keys <==> WeightKey(k) && AbsAbove(weight(k.0, k.1), eps)
      ensures h == NonlinTerms(keys, weight)
    {
      var weights := MakeWeights(weight);
      var significant := map k | k in weights && AbsAbove(weights[k], eps) :: weights[k];
      h, keys := [], [];
      var remaining := significant.Keys;
      while remaining != {}
        invariant remaining <= significant.Keys
        invariant forall k :: k in keys <==> k in significant && k !in remaining
        invariant Distinct(keys)
        invariant h == NonlinTerms(keys, weight)
        decreases |remaining|
      {
        var k :| k in remaining;
        var term := NonlinTerm(k.0, k.1);
        NonlinTermInRange(k.0, k.1);
        MulOneRight(significant[k]);
        h := h + [Term(Mul(term.value.coeff, significant[k]), term.value.word)];
        keys := keys + [k];
        remaining := remaining - {k};
        assert h == NonlinTerms(keys, weight);
      }
    }

    /** `make_lin_H`: the terms a^H_i a_j Omega[i, j] over i, j < m; an Omega smaller than m x m raises. */
    method MakeLinH(omega: Matrix) returns (r: Result<Expr>)
      requires Valid()
      ensures r.Ok? <==> CoversSquare(omega, m)
      ensures r.Ok? ==> r.value == LinTerms(omega, m)
      ensures r.Err? ==> r.error == IndexOutOfRange
    {
      var h: Expr := [];
      var i := 0;
      while i < m
        invariant 0 <= i <= m
        invariant i <= |omega| && forall i' :: 0 <= i' < i ==> |omega[i']| >= m
        invariant CoversSquare(omega, m) ==> h == LinRows(omega, m, i)
      {
        var j := 0;
        while j < m
          invariant 0 <= j <= m
          invariant j > 0 ==> i < |omega| && |omega[i]| >= j
          invariant CoversSquare(omega, m) ==> h == LinRows(omega, m, i) + LinRow(omega, i, j)
        {
          if i >= |omega| || j >= |omega[i]| {
            return Err(IndexOutOfRange);
          }
          h := h + [Term(omega[i][j], [aH[i], a[j]])];
          assert CoversSquare(omega, m) ==> LinRow(omega, i, j + 1) == LinRow(omega, i, j) + [Term(omega[i][j], [Create(i), Annihilate(j)])];
          j := j + 1;
        }
        if m == 0 || i >= |omega| || |omega[i]| < m {
          // the inner loop ran at least once, so row i covers m entries
          assert false;
        }
        i := i + 1;
      }
      r := Ok(h);
    }

    /**
     * `make_H`: stores and returns H_lin + H_nonlin * nonlin_coeff. When make_lin_H raises,
     * H keeps its previous value.
     */
    method MakeH(omega: Matrix, weight: (seq<nat>, seq<int>) -> Complex, eps: real := DefaultCutoff) returns (r: Result<Expr>, keys: seq<Key>)
      requires Valid()
      modifies this
      ensures Distinct(keys)
      ensures forall k :: k in keys <==> WeightKey(k) && AbsAbove(weight(k.0, k.1), eps)
      ensures r.Ok? <==> CoversSquare(omega, m)
      ensures r.Ok? ==> r.value == LinTerms(omega, m) + ScaleExpr(NonlinTerms(keys, weight), nonlinCoeff)
      ensures r.Ok? ==> H == Some(r.value)
      ensures r.Err? ==> H == old(H)
    {
      var hNonlin;
      hNonlin, keys := MakeNonlinH(weight, eps);
      var hLin := MakeLinH(omega);
      if hLin.Err? {
        return Err(hLin.error), keys;
      }
      H := Some(hLin.value + ScaleExpr(hNonlin, nonlinCoeff));
      r := Ok(H.value);
    }
  }
}
