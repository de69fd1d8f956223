/** The pairs of focal elements the nested loops of JointManager visit, and
    the sums they accumulate over them. */
module Pairs {
  import opened Results
  import opened Elements
  import opened Masses

  /** A focal element of the first distribution with one of the second. */
  datatype Pair = Pair(left: Focal, right: Focal)

  /** The pairs of f with each element of m, in m's order. */
  function Row(f: Focal, m: seq<Focal>): seq<Pair>
  {
    seq(|m|, j requires 0 <= j < |m| => Pair(f, m[j]))
  }

  /** All pairs, with m1 in the outer loop and m2 in the inner one. */
  function Products(m1: seq<Focal>, m2: seq<Focal>): seq<Pair>
  {
    if m1 == [] then [] else Products(m1[..|m1| - 1], m2) + Row(m1[|m1| - 1], m2)
  }

  /** The pairs visited when the outer index is k and the inner one j. */
  function Visited(m1: seq<Focal>, m2: seq<Focal>, k: nat, j: nat): seq<Pair>
    requires k < |m1| && j <= |m2|
  {
    Products(m1[..k], m2) + Row(m1[k], m2[..j])
  }

  lemma VisitedStep(m1: seq<Focal>, m2: seq<Focal>, k: nat, j: nat)
    requires k < |m1| && j < |m2|
    ensures Visited(m1, m2, k, j + 1) == Visited(m1, m2, k, j) + [Pair(m1[k], m2[j])]
  {
    assert Row(m1[k], m2[..j + 1]) == Row(m1[k], m2[..j]) + [Pair(m1[k], m2[j])];
  }

  lemma VisitedRow(m1: seq<Focal>, m2: seq<Focal>, k: nat)
    requires k < |m1|
    ensures Visited(m1, m2, k, 0) == Products(m1[..k], m2)
    ensures Visited(m1, m2, k, |m2|) == Products(m1[..k + 1], m2)
  {
    assert m1[..k + 1][..k] == m1[..k];
    assert m2[..|m2|] == m2;
  }

  /** The product of the two bpas of a pair. */
  function Mass(p: Pair): real
  {
    p.left.bpa * p.right.bpa
  }

  /** A pair whose elements share no hypothesis: its mass is conflict. */
  predicate Disjoint(p: Pair)
  {
    Intersection(p.left.element, p.right.element).None?
  }

  /** A pair whose intersection exists and is equal to e. */
  predicate Meets(p: Pair, e: Element)
  {
    var i := Intersection(p.left.element, p.right.element);
    i.Some? && Equals(i.value, e)
  }

  /** The mass of the disjoint pairs. */
  function ConflictOf(ps: seq<Pair>): real
  {
    if ps == [] then 0.0
    else ConflictOf(ps[..|ps| - 1]) + (if Disjoint(ps[|ps| - 1]) then Mass(ps[|ps| - 1]) else 0.0)
  }

  /** What a pair adds to the conflict. */
  function ConflictTerm(p: Pair): real
  {
    if Disjoint(p) then Mass(p) else 0.0
  }

  lemma ConflictOfSnoc(ps: seq<Pair>, p: Pair)
    ensures ConflictOf(ps + [p]) == ConflictOf(ps) + ConflictTerm(p)
  {
    assert (ps + [p])[..|ps|] == ps;
  }

  /** The mass of the pairs whose intersection is equal to e. */
  function MassOn(ps: seq<Pair>, e: Element): real
  {
    if ps == [] then 0.0
    else MassOn(ps[..|ps| - 1], e) + (if Meets(ps[|ps| - 1], e) then Mass(ps[|ps| - 1]) else 0.0)
  }

  /** What a pair adds to the mass on e. */
  function MassOnTerm(p: Pair, e: Element): real
  {
    if Meets(p, e) then Mass(p) else 0.0
  }

  lemma MassOnSnoc(ps: seq<Pair>, p: Pair, e: Element)
    ensures MassOn(ps + [p], e) == MassOn(ps, e) + MassOnTerm(p, e)
  {
    assert (ps + [p])[..|ps|] == ps;
  }

  /** The conflict of two distributions, as getConflict sums it. */
  function Conflict(m1: seq<Focal>, m2: seq<Focal>): real
  {
    ConflictOf(Products(m1, m2))
  }

  function SizeOf(e: Option<Element>): nat
  {
    if e.None? then 0 else |e.value|
  }

  /** One term of the scalar product: the pair's mass times the integer
      quotient of the intersection size by the union size. Both elements
      empty leave no union, and the integer division fails. */
  function ScalarTerm(p: Pair): Result<real>
  {
    var intersectionSize := SizeOf(Intersection(p.left.element, p.right.element));
    var unionSize := SizeOf(Union(p.left.element, p.right.element));
    if unionSize == 0 then Failure(DivisionByZero)
    else Success(Mass(p) * (intersectionSize / unionSize) as real)
  }

  /** The scalar term, given the two sizes it divides. */
  lemma ScalarTermSizes(p: Pair, intersectionSize: nat, unionSize: nat)
    requires intersectionSize == SizeOf(Intersection(p.left.element, p.right.element))
    requires unionSize == SizeOf(Union(p.left.element, p.right.element))
    ensures unionSize == 0 ==> ScalarTerm(p) == Failure(DivisionByZero)
    ensures unionSize != 0 ==> ScalarTerm(p) == Success(Mass(p) * (intersectionSize / unionSize) as real)
  {
    if unionSize != 0 {
      var left, right := p.left.element, p.right.element;
      assert ScalarTerm(p).Success?;
      assert intersectionSize / unionSize == SizeOf(Intersection(left, right)) / SizeOf(Union(left, right));
      assert ScalarTerm(p).value == Mass(p) * (SizeOf(Intersection(left, right)) / SizeOf(Union(left, right))) as real;
      assert ScalarTerm(p).value == Mass(p) * (intersectionSize / unionSize) as real;
    }
  }

  /** The sum of the scalar terms, failing at the first term that fails. */
  function ScalarOf(ps: seq<Pair>): Result<real>
  {
    if ps == [] then Success(0.0)
    else
      var init := ScalarOf(ps[..|ps| - 1]);
      var term := ScalarTerm(ps[|ps| - 1]);
      if init.Failure? then init
      else if term.Failure? then Failure(term.error)
      else Success(init.value + term.value)
  }

  function ScalarProduct(m1: seq<Focal>, m2: seq<Focal>): Result<real>
  {
    ScalarOf(Products(m1, m2))
  }

  lemma {:induction false} ConflictOfAppend(a: seq<Pair>, b: seq<Pair>)
    ensures ConflictOf(a + b) == ConflictOf(a) + ConflictOf(b)
    decreases |b|
  {
    if b == [] {
      assert a + b == a;
    } else {
      ConflictOfAppend(a, b[..|b| - 1]);
      assert (a + b)[..|a + b| - 1] == a + b[..|b| - 1];
    }
  }

  lemma {:induction false} MassOnAppend(a: seq<Pair>, b: seq<Pair>, e: Element)
    ensures MassOn(a + b, e) == MassOn(a, e) + MassOn(b, e)
    decreases |b|
  {
    if b == [] {
      assert a + b == a;
    } else {
      MassOnAppend(a, b[..|b| - 1], e);
      assert (a + b)[..|a + b| - 1] == a + b[..|b| - 1];
    }
  }

  /** The product holds the pairs of an element of m1 with an element of m2,
      and only those. */
  lemma {:induction false} ProductsMembers(m1: seq<Focal>, m2: seq<Focal>)
    ensures forall p :: p in Products(m1, m2) ==> p.left in m1 && p.right in m2
    ensures forall i, j :: 0 <= i < |m1| && 0 <= j < |m2| ==> Pair(m1[i], m2[j]) in Products(m1, m2)
    decreases |m1|
  {
    if m1 != [] {
      var m1' := m1[..|m1| - 1];
      var row := Row(m1[|m1| - 1], m2);
      ProductsMembers(m1', m2);
      assert Products(m1, m2) == Products(m1', m2) + row;
      forall p | p in Products(m1, m2) ensures p.left in m1 && p.right in m2 {
        if p in row {
          var j :| 0 <= j < |row| && row[j] == p;
        } else {
          assert p in Products(m1', m2);
          assert p.left in m1';
        }
      }
      forall i, j | 0 <= i < |m1| && 0 <= j < |m2| ensures Pair(m1[i], m2[j]) in Products(m1, m2) {
        if i < |m1| - 1 {
          assert m1'[i] == m1[i];
          assert Pair(m1'[i], m2[j]) in Products(m1', m2);
        } else {
          assert row[j] == Pair(m1[i], m2[j]);
        }
      }
    }
  }

  /** The scalar product fails exactly when one of its terms fails, and then
      with a division by zero. */
  lemma {:induction false} ScalarOfFailure(ps: seq<Pair>)
    ensures ScalarOf(ps).Failure? <==> exists p :: p in ps && ScalarTerm(p).Failure?
    ensures ScalarOf(ps).Failure? ==> ScalarOf(ps).error == DivisionByZero
    decreases |ps|
  {
    if ps != [] {
      var init, last := ps[..|ps| - 1], ps[|ps| - 1];
      ScalarOfFailure(init);
      assert ps == init + [last];
      assert forall p :: p in ps <==> p in init || p == last;
    }
  }

  lemma ScalarOfSnoc(ps: seq<Pair>, p: Pair, sum: real, term: real)
    requires ScalarOf(ps) == Success(sum) && ScalarTerm(p) == Success(term)
    ensures ScalarOf(ps + [p]) == Success(sum + term)
  {
    assert (ps + [p])[..|ps|] == ps;
  }

  /** A pair of the product whose term fails makes the scalar product fail. */
  lemma ScalarFailsOnPair(m1: seq<Focal>, m2: seq<Focal>, i: nat, j: nat)
    requires i < |m1| && j < |m2| && ScalarTerm(Pair(m1[i], m2[j])).Failure?
    ensures ScalarProduct(m1, m2) == Failure(DivisionByZero)
  {
    ProductsMembers(m1, m2);
    ScalarOfFailure(Products(m1, m2));
  }
}
