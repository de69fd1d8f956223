/** Symmetries of the combination rules: Dempster's rule does not depend on
    the order of its two operands, and identical sources of evidence are
    equally credible. */
module Symmetry {
  import opened Results
  import opened Elements
  import opened Masses
  import opened Pairs
  import opened Rules
  import JavaStrings
  import TreeSets

  // ------------------------------------------- identical inputs, credibility

  /** The first n entries of a row, without entry i, when every entry but the
      diagonal one is s. */
  lemma {:induction false} SumExceptConstant(row: seq<real>, i: nat, n: nat, s: real)
    requires i < n <= |row|
    requires forall j :: 0 <= j < |row| && j != i ==> row[j] == s
    ensures SumExcept(row, i, n) == (n - 1) as real * s
  {
    if n - 1 != i {
      SumExceptConstant(row, i, n - 1, s);
      assert SumExcept(row, i, n) == (n - 2) as real * s + s;
    } else {
      SumExceptNone(row, i, n - 1, s);
    }
  }

  lemma {:induction false} SumExceptNone(row: seq<real>, i: nat, n: nat, s: real)
    requires n <= i && n <= |row|
    requires forall j :: 0 <= j < |row| && j != i ==> row[j] == s
    ensures SumExcept(row, i, n) == n as real * s
  {
    if n > 0 {
      SumExceptNone(row, i, n - 1, s);
      assert SumExcept(row, i, n) == (n - 1) as real * s + s;
    }
  }

  /** A sum of equal entries is their number times the entry. */
  lemma {:induction false} SumConstant(xs: seq<real>, c: real)
    requires forall i :: 0 <= i < |xs| ==> xs[i] == c
    ensures Sum(xs) == |xs| as real * c
  {
    if xs != [] {
      SumConstant(xs[..|xs| - 1], c);
      assert Sum(xs) == (|xs| - 1) as real * c + c;
    }
  }

  lemma ShareOfEqualParts(c: real, n: real)
    requires c != 0.0 && n != 0.0
    ensures c / (n * c) == 1.0 / n
  {
    assert n * c != 0.0;
    calc {
      c / (n * c);
      (1.0 / n) * (n * c) / (n * c);
      1.0 / n;
    }
  }

  /** Identical distributions have the same similarity s with each other.
      When s is not zero, every one of them gets credibility 1/N: the
      distance rule then weighs them equally. */
  lemma IdenticalInputsEqualCredibility(masses: seq<seq<Focal>>, curve: SimilarityCurve, s: real)
    requires |masses| >= 2
    requires forall i :: 0 <= i < |masses| ==> masses[i] == masses[0]
    requires Similarity(masses[0], masses[0], curve) == Success(s) && s != 0.0
    ensures SimilarityMatrix(masses, curve).Success?
    ensures var matrix := SimilarityMatrix(masses, curve).value;
      Square(matrix) &&
      Credibility(SupportDegree(matrix)) == Some(seq(|masses|, i requires 0 <= i < |masses| => 1.0 / |masses| as real))
  {
    IdenticalMatrix(masses, curve, s);
    var matrix := SimilarityMatrix(masses, curve).value;
    var c := (|masses| - 1) as real * s;
    ConstantSupport(matrix, s);
    EqualCredibility(SupportDegree(matrix), c);
  }

  /** The similarity matrix of identical distributions: ones on the diagonal
      and their common similarity everywhere else. */
  lemma IdenticalMatrix(masses: seq<seq<Focal>>, curve: SimilarityCurve, s: real)
    requires forall i :: 0 <= i < |masses| ==> masses[i] == masses[0]
    requires masses != [] && Similarity(masses[0], masses[0], curve) == Success(s)
    ensures SimilarityMatrix(masses, curve).Success?
    ensures var matrix := SimilarityMatrix(masses, curve).value;
      |matrix| == |masses| && Square(matrix) &&
      forall i, j :: 0 <= i < |matrix| && 0 <= j < |matrix| ==> matrix[i][j] == if i == j then 1.0 else s
  {
    var n := |masses|;
    assert SimilaritiesDefined(masses, curve) by {
      forall i, j | 0 <= i < j < n ensures Similarity(masses[i], masses[j], curve).Success? {
        assert masses[i] == masses[0] && masses[j] == masses[0];
      }
    }
    var matrix := SimilarityMatrix(masses, curve).value;
    forall i, j | 0 <= i < n && 0 <= j < n
      ensures matrix[i][j] == if i == j then 1.0 else s
    {
      assert masses[i] == masses[0] && masses[j] == masses[0];
    }
  }

  /** Each support degree of such a matrix is N - 1 times s. */
  lemma ConstantSupport(matrix: seq<seq<real>>, s: real)
    requires Square(matrix)
    requires forall i, j :: 0 <= i < |matrix| && 0 <= j < |matrix| ==> matrix[i][j] == if i == j then 1.0 else s
    ensures |SupportDegree(matrix)| == |matrix|
    ensures forall i :: 0 <= i < |matrix| ==> SupportDegree(matrix)[i] == (|matrix| - 1) as real * s
  {
    forall i | 0 <= i < |matrix| ensures SupportDegree(matrix)[i] == (|matrix| - 1) as real * s {
      SumExceptConstant(matrix[i], i, |matrix|, s);
    }
  }

  /** Equal non-zero supports give every distribution the same share. */
  lemma EqualCredibility(support: seq<real>, c: real)
    requires support != [] && c != 0.0
    requires forall i :: 0 <= i < |support| ==> support[i] == c
    ensures Credibility(support) == Some(seq(|support|, i requires 0 <= i < |support| => 1.0 / |support| as real))
  {
    var n := |support|;
    SumConstant(support, c);
    var total := Sum(support);
    assert total == n as real * c;
    assert total != 0.0;
    var shares := seq(n, i requires 0 <= i < n => support[i] / total);
    var equal := seq(n, i requires 0 <= i < n => 1.0 / n as real);
    assert Credibility(support) == Some(shares);
    forall i | 0 <= i < n ensures shares[i] == equal[i] {
      ShareOfEqualParts(c, n as real);
    }
    assert shares == equal;
  }

  // ------------------------------------------- Dempster's rule, commutative

  /** The pair with its two sides exchanged: the pair the loops visit when
      the two distributions are passed the other way round. */
  function Swap(p: Pair): Pair
  {
    Pair(p.right, p.left)
  }

  /** The sum over the pairs of a term of each pair. */
  function PairSum(ps: seq<Pair>, term: Pair -> real): real
  {
    if ps == [] then 0.0 else PairSum(ps[..|ps| - 1], term) + term(ps[|ps| - 1])
  }

  /** A term read on the exchanged pair. */
  function Swapped(term: Pair -> real): Pair -> real
  {
    p => term(Swap(p))
  }

  function MassOnTerms(e: Element): Pair -> real
  {
    p => MassOnTerm(p, e)
  }

  lemma {:induction false} PairSumAppend(a: seq<Pair>, b: seq<Pair>, term: Pair -> real)
    ensures PairSum(a + b, term) == PairSum(a, term) + PairSum(b, term)
    decreases |b|
  {
    if b == [] {
      assert a + b == a;
    } else {
      PairSumAppend(a, b[..|b| - 1], term);
      assert (a + b)[..|a + b| - 1] == a + b[..|b| - 1];
    }
  }

  lemma {:induction false} ConflictOfIsPairSum(ps: seq<Pair>)
    ensures ConflictOf(ps) == PairSum(ps, ConflictTerm)
  {
    if ps != [] {
      ConflictOfIsPairSum(ps[..|ps| - 1]);
    }
  }

  lemma {:induction false} MassOnIsPairSum(ps: seq<Pair>, e: Element)
    ensures MassOn(ps, e) == PairSum(ps, MassOnTerms(e))
  {
    if ps != [] {
      MassOnIsPairSum(ps[..|ps| - 1], e);
    }
  }

  /** Equal terms on every pair give equal sums. */
  lemma {:induction false} PairSumCongruent(ps: seq<Pair>, t: Pair -> real, u: Pair -> real)
    requires forall p :: p in ps ==> t(p) == u(p)
    ensures PairSum(ps, t) == PairSum(ps, u)
  {
    if ps != [] {
      PairSumCongruent(ps[..|ps| - 1], t, u);
      assert ps[|ps| - 1] in ps;
    }
  }

  /** The pairs of each element of m with g: a column of the product. */
  function Column(m: seq<Focal>, g: Focal): seq<Pair>
  {
    seq(|m|, k requires 0 <= k < |m| => Pair(m[k], g))
  }

  /** One more element in the inner loop adds a column to the product. */
  lemma {:induction false} ProductsInnerSnoc(m1: seq<Focal>, m2: seq<Focal>, g: Focal, term: Pair -> real)
    ensures PairSum(Products(m1, m2 + [g]), term) ==
            PairSum(Products(m1, m2), term) + PairSum(Column(m1, g), term)
    decreases |m1|
  {
    if m1 != [] {
      var m1', f, x := m1[..|m1| - 1], m1[|m1| - 1], Pair(m1[|m1| - 1], g);
      var before, after := Products(m1', m2), Products(m1', m2 + [g]);
      var row, column := Row(f, m2), Column(m1', g);
      assert Products(m1, m2 + [g]) == after + (row + [x]);
      assert Products(m1, m2) == before + row;
      assert Column(m1, g) == column + [x];
      ProductsInnerSnoc(m1', m2, g, term);
      PairSumAppend(after, row + [x], term);
      PairSumAppend(before, row, term);
      PairSumAppend(row, [x], term);
      PairSumAppend(column, [x], term);
      assert PairSum([x], term) == term(x) by {
        assert [x][..0] == [];
      }
    }
  }

  /** A column read with exchanged pairs is the row of the other product. */
  lemma {:induction false} ColumnIsSwappedRow(m: seq<Focal>, f: Focal, term: Pair -> real)
    ensures PairSum(Column(m, f), Swapped(term)) == PairSum(Row(f, m), term)
  {
    if m != [] {
      var m', g := m[..|m| - 1], m[|m| - 1];
      ColumnIsSwappedRow(m', f, term);
      assert Column(m, f)[..|m| - 1] == Column(m', f);
      assert Row(f, m)[..|m| - 1] == Row(f, m');
      assert Column(m, f)[|m| - 1] == Pair(g, f);
      assert Row(f, m)[|m| - 1] == Pair(f, g);
      assert Swapped(term)(Pair(g, f)) == term(Swap(Pair(g, f)));
    }
  }

  /** Summing over the pairs of m1 and m2 is summing over the exchanged
      pairs of m2 and m1. */
  lemma {:induction false} ProductsTranspose(m1: seq<Focal>, m2: seq<Focal>, term: Pair -> real)
    ensures PairSum(Products(m1, m2), term) == PairSum(Products(m2, m1), Swapped(term))
    decreases |m1|
  {
    if m1 == [] {
      NoPairsWithEmpty(m2);
    } else {
      var m1', f := m1[..|m1| - 1], m1[|m1| - 1];
      ProductsTranspose(m1', m2, term);
      PairSumAppend(Products(m1', m2), Row(f, m2), term);
      assert m1 == m1' + [f];
      ProductsInnerSnoc(m2, m1', f, Swapped(term));
      ColumnIsSwappedRow(m2, f, term);
    }
  }

  lemma {:induction false} NoPairsWithEmpty(m: seq<Focal>)
    ensures Products(m, []) == []
  {
    if m != [] {
      NoPairsWithEmpty(m[..|m| - 1]);
    }
  }

  // ------------------------------------------------ the terms are symmetric

  /** Matches(x, b) holds x once for each occurrence of x in b. */
  lemma {:induction false} MatchesCount(x: Hypothesis, b: Element, h: Hypothesis)
    ensures multiset(Matches(x, b))[h] == if h == x then multiset(b)[h] else 0
  {
    if b != [] {
      var b', y := b[..|b| - 1], b[|b| - 1];
      MatchesCount(x, b', h);
      assert b == b' + [y];
    }
  }

  /** The intersection holds each hypothesis as many times as the product of
      its numbers of occurrences in the two elements. */
  lemma {:induction false} CommonCount(a: Element, b: Element, h: Hypothesis)
    ensures multiset(Common(a, b))[h] == multiset(a)[h] * multiset(b)[h]
  {
    if a != [] {
      var a', x := a[..|a| - 1], a[|a| - 1];
      CommonCount(a', b, h);
      MatchesCount(x, b, h);
      assert a == a' + [x];
      assert Common(a, b) == Common(a', b) + Matches(x, b);
      CountStep(multiset(Common(a, b))[h], multiset(Common(a', b))[h], multiset(Matches(x, b))[h],
                multiset(a)[h], multiset(a')[h], multiset(b)[h], h == x);
    }
  }

  /** One more occurrence in the first element adds the occurrences in the
      second once more. */
  lemma CountStep(total: int, prev: int, matched: int, count: int, p: int, q: int, bump: bool)
    requires total == prev + matched && prev == p * q
    requires matched == (if bump then q else 0) && count == p + (if bump then 1 else 0)
    ensures total == count * q
  {
  }

  /** The two intersections have the same size, repeated hypotheses or not. */
  lemma CommonSameSize(a: Element, b: Element)
    ensures |Common(a, b)| == |Common(b, a)|
  {
    forall h ensures multiset(Common(a, b))[h] == multiset(Common(b, a))[h] {
      CommonCount(a, b, h);
      CommonCount(b, a, h);
    }
    assert multiset(Common(a, b)) == multiset(Common(b, a));
  }

  lemma ConflictTermSymmetric(p: Pair)
    ensures ConflictTerm(Swap(p)) == ConflictTerm(p)
  {
    IntersectionMembers(p.left.element, p.right.element);
    IntersectionMembers(p.right.element, p.left.element);
  }

  lemma MassOnTermSymmetric(p: Pair, e: Element)
    ensures MassOnTerm(Swap(p), e) == MassOnTerm(p, e)
  {
    var a, b := p.left.element, p.right.element;
    CommonSameSize(a, b);
    CommonMembers(a, b);
    CommonMembers(b, a);
  }

  /** Conflict(m1, m2) == Conflict(m2, m1). */
  lemma ConflictCommutes(m1: seq<Focal>, m2: seq<Focal>)
    ensures Conflict(m1, m2) == Conflict(m2, m1)
  {
    ConflictOfIsPairSum(Products(m1, m2));
    ConflictOfIsPairSum(Products(m2, m1));
    ProductsTranspose(m1, m2, ConflictTerm);
    forall p | p in Products(m2, m1) ensures Swapped(ConflictTerm)(p) == ConflictTerm(p) {
      ConflictTermSymmetric(p);
    }
    PairSumCongruent(Products(m2, m1), Swapped(ConflictTerm), ConflictTerm);
  }

  /** The conjunctive mass on e does not depend on the order of the operands. */
  lemma MassOnCommutes(m1: seq<Focal>, m2: seq<Focal>, e: Element)
    ensures MassOn(Products(m1, m2), e) == MassOn(Products(m2, m1), e)
  {
    MassOnIsPairSum(Products(m1, m2), e);
    MassOnIsPairSum(Products(m2, m1), e);
    ProductsTranspose(m1, m2, MassOnTerms(e));
    forall p | p in Products(m2, m1) ensures Swapped(MassOnTerms(e))(p) == MassOnTerms(e)(p) {
      MassOnTermSymmetric(p, e);
    }
    PairSumCongruent(Products(m2, m1), Swapped(MassOnTerms(e)), MassOnTerms(e));
  }

  // ------------------------------------------------- the union is symmetric

  /** The first entry of an ascending list is no longer among the rest. */
  lemma AscendingTail(a: seq<Focal>)
    requires Ascending(a) && a != []
    ensures Ascending(a[1..])
    ensures Supports(a[1..]) == Supports(a) - {Key(a[0])}
  {
    TreeSets.KeysSplit(a, Key);
    forall k | 0 <= k < |a| - 1 ensures Key(a[1..][k]) != Key(a[0]) {
      assert a[1..][k] == a[k + 1];
      assert CompareTo(a[0].element, a[k + 1].element) < 0;
    }
  }

  /** The first entry of an ascending list sorts no later than any entry
      printing like one of the list's. */
  lemma AscendingFirstLeast(a: seq<Focal>, g: Focal)
    requires Ascending(a) && a != [] && Key(g) in Supports(a)
    ensures CompareTo(a[0].element, g.element) <= 0
  {
    var m :| 0 <= m < |a| && Key(a[m]) == Key(g);
    if m > 0 {
      assert CompareTo(a[0].element, a[m].element) < 0;
    }
  }

  /** Two ascending lists printing the same elements start with the same one. */
  lemma FirstKeysAgree(a: seq<Focal>, b: seq<Focal>)
    requires Ascending(a) && Ascending(b) && a != [] && b != []
    requires Supports(a) == Supports(b)
    ensures Key(a[0]) == Key(b[0])
  {
    assert Key(a[0]) in Supports(b) && Key(b[0]) in Supports(a);
    AscendingFirstLeast(a, b[0]);
    AscendingFirstLeast(b, a[0]);
    JavaStrings.CompareToAntisymmetric(Key(a[0]), Key(b[0]));
  }

  /** An ascending list is fixed, up to the printed form of its elements, by
      the set of those printed forms. */
  lemma {:induction false} AscendingUnique(a: seq<Focal>, b: seq<Focal>)
    requires Ascending(a) && Ascending(b) && Supports(a) == Supports(b)
    ensures |a| == |b|
    ensures forall i :: 0 <= i < |a| ==> Key(a[i]) == Key(b[i])
    decreases |a|
  {
    if a != [] {
      assert Key(a[0]) in Supports(a);
    }
    if b != [] {
      assert Key(b[0]) in Supports(b);
    }
    if a != [] && b != [] {
      FirstKeysAgree(a, b);
      AscendingTail(a);
      AscendingTail(b);
      AscendingUnique(a[1..], b[1..]);
      forall i | 0 <= i < |a| ensures Key(a[i]) == Key(b[i]) {
        if i > 0 {
          assert a[1..][i - 1] == a[i] && b[1..][i - 1] == b[i];
        }
      }
    }
  }

  /** Both unions of the supports list the same elements in the same order,
      when elements that print the same are the same. */
  lemma MassUnionCommutes(m1: seq<Focal>, m2: seq<Focal>)
    requires forall f, g :: f in m1 + m2 && g in m1 + m2 && Key(f) == Key(g) ==> f.element == g.element
    ensures |MassUnion(m1, m2)| == |MassUnion(m2, m1)|
    ensures forall i :: 0 <= i < |MassUnion(m1, m2)| ==>
              MassUnion(m1, m2)[i].element == MassUnion(m2, m1)[i].element
  {
    var u1, u2 := MassUnion(m1, m2), MassUnion(m2, m1);
    MassUnionProperties(m1, m2);
    MassUnionProperties(m2, m1);
    AscendingUnique(u1, u2);
    forall i | 0 <= i < |u1| ensures u1[i].element == u2[i].element {
      assert u1[i] in u1 && u2[i] in u2;
      assert u1[i] in m1 + m2 && u2[i] in m1 + m2;
    }
  }

  /** Dempster's rule does not depend on the order of its two operands, on
      elements that print differently when they differ. */
  lemma DempsterCommutes(m1: seq<Focal>, m2: seq<Focal>)
    requires forall f, g :: f in m1 + m2 && g in m1 + m2 && Key(f) == Key(g) ==> f.element == g.element
    ensures DempsterRule(m1, m2) == DempsterRule(m2, m1)
  {
    var u1, u2 := MassUnion(m1, m2), MassUnion(m2, m1);
    MassUnionCommutes(m1, m2);
    ConflictCommutes(m1, m2);
    var c1, c2 := Conjunctive(u1, Products(m1, m2)), Conjunctive(u2, Products(m2, m1));
    forall i | 0 <= i < |u1| ensures c1[i] == c2[i] {
      MassOnCommutes(m1, m2, u1[i].element);
    }
    assert c1 == c2;
  }
}
