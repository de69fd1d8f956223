/** What each operation of JointManager computes, as functions over values. */
module Rules {
  import opened Results
  import opened Elements
  import opened Masses
  import opened Pairs

  /** The combination rules of JointOperatorEnum. */
  datatype Operator = Average | Dempster | Yager | DistanceEvidence

  /** A JointMassDistribution: the combined focal elements and the rule that
      produced them. */
  datatype Joint = Joint(elements: seq<Focal>, operator: Operator)

  /** The similarity getSimilarity derives, through a square root and a
      cosine, from the squared norms of two distributions and their scalar
      product. */
  type SimilarityCurve = (real, real, real) -> real

  /** What JointManager reaches through static calls: the universal set of
      the frame of discernment and the similarity curve. */
  datatype Context = Context(universal: Element, curve: SimilarityCurve)

  /** Each element of the union with the mass of the pairs whose intersection
      is equal to it. */
  function Conjunctive(union: seq<Focal>, ps: seq<Pair>): seq<Focal>
  {
    seq(|union|, i requires 0 <= i < |union| => Focal(union[i].element, MassOn(ps, union[i].element)))
  }

  /** Each bpa divided by the same factor. */
  function Normalize(d: seq<Focal>, factor: real): seq<Focal>
    requires factor != 0.0
  {
    seq(|d|, i requires 0 <= i < |d| => Focal(d[i].element, d[i].bpa / factor))
  }

  /** dempster: the conjunctive masses on the union of the supports,
      normalised by 1 - K. An empty union leaves an empty, invalid result; a
      conflict of one makes the bpas non-finite; a result that does not sum
      to one is refused. */
  function DempsterRule(m1: seq<Focal>, m2: seq<Focal>): Result<seq<Focal>>
  {
    var union := MassUnion(m1, m2);
    var conflict := Conflict(m1, m2);
    if union == [] then Failure(NotValid)
    else if conflict == 1.0 then Failure(NonFiniteBpa)
    else
      var joint := Normalize(Conjunctive(union, Products(m1, m2)), 1.0 - conflict);
      if Valid(joint) then Success(joint) else Failure(NotValid)
  }

  /** dempster applied from left to right to the first n distributions. */
  function DempsterFold(masses: seq<seq<Focal>>, n: nat): Result<seq<Focal>>
    requires 2 <= n <= |masses|
  {
    Fold(DempsterRule, masses, n)
  }

  /** A rule applied from left to right to the first n distributions,
      stopping at the first failure. */
  function Fold(rule: (seq<Focal>, seq<Focal>) -> Result<seq<Focal>>, masses: seq<seq<Focal>>, n: nat): Result<seq<Focal>>
    requires 2 <= n <= |masses|
  {
    if n == 2 then rule(masses[0], masses[1])
    else
      match Fold(rule, masses, n - 1)
      case Failure(e) => Failure(e)
      case Success(joint) => rule(joint, masses[n - 1])
  }

  /** yager: the conjunctive masses on the union of the supports, without
      normalisation; on the last step the universal element is appended with
      the conflict accumulated so far. */
  function YagerStep(m1: seq<Focal>, m2: seq<Focal>, last: bool, conflictTransfer: real, universal: Element): seq<Focal>
  {
    Conjunctive(MassUnion(m1, m2), Products(m1, m2)) +
      (if last then [Focal(universal, conflictTransfer)] else [])
  }

  /** The running joint of the Yager branch and the conflict accumulated. */
  datatype YagerState = YagerState(joint: seq<Focal>, conflict: real)

  /** The Yager branch after the first n distributions. */
  function YagerFold(masses: seq<seq<Focal>>, n: nat, universal: Element): YagerState
    requires 2 <= n <= |masses|
  {
    if n == 2 then
      var conflict := Conflict(masses[0], masses[1]);
      YagerState(YagerStep(masses[0], masses[1], false, conflict, universal), conflict)
    else
      var s := YagerFold(masses, n - 1, universal);
      var conflict := s.conflict + Conflict(s.joint, masses[n - 1]);
      YagerState(YagerStep(s.joint, masses[n - 1], n == |masses|, conflict, universal), conflict)
  }

  /** One step of the Yager branch. */
  lemma YagerFoldStep(masses: seq<seq<Focal>>, n: nat, universal: Element)
    requires 3 <= n <= |masses|
    ensures var s := YagerFold(masses, n - 1, universal);
      var conflict := s.conflict + Conflict(s.joint, masses[n - 1]);
      YagerFold(masses, n, universal) ==
        YagerState(YagerStep(s.joint, masses[n - 1], n == |masses|, conflict, universal), conflict)
  {
  }

  /** The focal elements, one per distribution that has one, equal to e. */
  function Found(masses: seq<seq<Focal>>, e: Element): seq<Focal>
  {
    if masses == [] then []
    else
      Found(masses[..|masses| - 1], e) +
        (match FindElement(masses[|masses| - 1], e)
         case Some(f) => [f]
         case None => [])
  }

  /** average: each element of the union of all supports with the mean of the
      bpas the distributions give it. */
  function AverageRule(masses: seq<seq<Focal>>): Result<seq<Focal>>
    requires |masses| >= 2
  {
    var joint := Means(UnionOfSupports(masses), masses);
    if Valid(joint) then Success(joint) else Failure(NotValid)
  }

  /** Each element of the union with the mean of the bpas of the focal
      elements equal to it. */
  function Means(union: seq<Focal>, masses: seq<seq<Focal>>): seq<Focal>
    requires masses != []
  {
    seq(|union|, i requires 0 <= i < |union| =>
      Focal(union[i].element, Total(Found(masses, union[i].element)) / |masses| as real))
  }

  /** getSimilarity: the curve applied to the two squared norms and the
      scalar product, failing when one of them fails. */
  function Similarity(m1: seq<Focal>, m2: seq<Focal>, curve: SimilarityCurve): Result<real>
  {
    var norm1 := ScalarProduct(m1, m1);
    var norm2 := ScalarProduct(m2, m2);
    var scalar := ScalarProduct(m1, m2);
    if norm1.Failure? then Failure(norm1.error)
    else if norm2.Failure? then Failure(norm2.error)
    else if scalar.Failure? then Failure(scalar.error)
    else Success(curve(norm1.value, norm2.value, scalar.value))
  }

  /** getSimilarity fails only through the integer division of a scalar product. */
  lemma SimilarityFailsByDivision(m1: seq<Focal>, m2: seq<Focal>, curve: SimilarityCurve)
    ensures Similarity(m1, m2, curve).Failure? ==> Similarity(m1, m2, curve).error == DivisionByZero
  {
    ScalarOfFailure(Products(m1, m1));
    ScalarOfFailure(Products(m2, m2));
    ScalarOfFailure(Products(m1, m2));
  }

  /** Every pair of distinct distributions has a similarity. */
  predicate SimilaritiesDefined(masses: seq<seq<Focal>>, curve: SimilarityCurve)
  {
    forall i, j {:trigger Similarity(masses[i], masses[j], curve)} :: 0 <= i < j < |masses| ==>
      Similarity(masses[i], masses[j], curve).Success?
  }

  /** One entry of the similarity matrix: one on the diagonal, otherwise the
      similarity computed with the lower index first. */
  function SimilarityEntry(masses: seq<seq<Focal>>, curve: SimilarityCurve, i: nat, j: nat): real
    requires SimilaritiesDefined(masses, curve) && i < |masses| && j < |masses|
  {
    if i == j then 1.0
    else if i < j then Similarity(masses[i], masses[j], curve).value
    else Similarity(masses[j], masses[i], curve).value
  }

  /** getSimilarityMatrix. */
  function SimilarityMatrix(masses: seq<seq<Focal>>, curve: SimilarityCurve): Result<seq<seq<real>>>
  {
    if SimilaritiesDefined(masses, curve) then
      Success(seq(|masses|, i requires 0 <= i < |masses| =>
        seq(|masses|, j requires 0 <= j < |masses| => SimilarityEntry(masses, curve, i, j))))
    else Failure(DivisionByZero)
  }

  /** A similarity failing between two distributions fails the matrix. */
  lemma SimilarityMatrixFailsAt(masses: seq<seq<Focal>>, curve: SimilarityCurve, i: nat, j: nat)
    requires i < j < |masses| && Similarity(masses[i], masses[j], curve).Failure?
    ensures SimilarityMatrix(masses, curve) == Failure(DivisionByZero)
  {
  }

  /** A table with ones on its diagonal and each similarity above it, written
      on both sides, is the similarity matrix. */
  lemma SimilarityMatrixFromTable(masses: seq<seq<Focal>>, curve: SimilarityCurve, rows: seq<seq<real>>)
    requires |rows| == |masses|
    requires forall a :: 0 <= a < |rows| ==> |rows[a]| == |masses| && rows[a][a] == 1.0
    requires forall a, b {:trigger Similarity(masses[a], masses[b], curve)} :: 0 <= a < b < |masses| ==>
      Similarity(masses[a], masses[b], curve) == Success(rows[a][b]) && rows[b][a] == rows[a][b]
    ensures SimilarityMatrix(masses, curve) == Success(rows)
  {
    forall a, b | 0 <= a < b < |masses| ensures Similarity(masses[a], masses[b], curve).Success? {
      assert Similarity(masses[a], masses[b], curve) == Success(rows[a][b]);
    }
    assert SimilaritiesDefined(masses, curve);
    var expected := SimilarityMatrix(masses, curve).value;
    forall a | 0 <= a < |masses| ensures rows[a] == expected[a] {
      forall b | 0 <= b < |masses| ensures rows[a][b] == expected[a][b] {
        assert expected[a][b] == SimilarityEntry(masses, curve, a, b);
      }
    }
    assert expected == rows;
  }

  /** The rows of a table computed so far agree, above the diagonal, with
      the similarities of the distributions. */
  predicate UpperAgrees(masses: seq<seq<Focal>>, curve: SimilarityCurve, upper: seq<seq<real>>)
  {
    |upper| <= |masses| &&
    (forall a :: 0 <= a < |upper| ==> |upper[a]| == |masses|) &&
    forall a, b {:trigger Similarity(masses[a], masses[b], curve)} :: 0 <= a < |upper| && a < b < |masses| ==>
      Similarity(masses[a], masses[b], curve) == Success(upper[a][b])
  }

  /** One more row of similarities keeps the table in agreement. */
  lemma UpperAgreesExtend(masses: seq<seq<Focal>>, curve: SimilarityCurve, upper: seq<seq<real>>, row: seq<real>)
    requires UpperAgrees(masses, curve, upper) && |upper| < |masses| && |row| == |masses|
    requires forall b {:trigger Similarity(masses[|upper|], masses[b], curve)} :: |upper| < b < |masses| ==>
      Similarity(masses[|upper|], masses[b], curve) == Success(row[b])
    ensures UpperAgrees(masses, curve, upper + [row])
  {
    var next := upper + [row];
    forall a, b | 0 <= a < |next| && a < b < |masses|
      ensures Similarity(masses[a], masses[b], curve) == Success(next[a][b])
    {
      if a < |upper| {
        assert next[a] == upper[a];
      } else {
        assert next[a] == row;
      }
    }
  }

  /** A full table in agreement, mirrored below a diagonal of ones, gives
      the similarity matrix. */
  lemma SimilarityMatrixFromUpper(masses: seq<seq<Focal>>, curve: SimilarityCurve, upper: seq<seq<real>>,
                                  rows: seq<seq<real>>)
    requires UpperAgrees(masses, curve, upper) && |upper| == |masses| && |rows| == |masses|
    requires forall a :: 0 <= a < |rows| ==> |rows[a]| == |masses| && rows[a][a] == 1.0
    requires forall a, b :: 0 <= a < b < |masses| ==> rows[a][b] == upper[a][b] && rows[b][a] == upper[a][b]
    ensures SimilarityMatrix(masses, curve) == Success(rows)
  {
    forall a, b | 0 <= a < b < |masses|
      ensures Similarity(masses[a], masses[b], curve) == Success(rows[a][b]) && rows[b][a] == rows[a][b]
    {
      assert Similarity(masses[a], masses[b], curve) == Success(upper[a][b]);
      assert rows[a][b] == upper[a][b];
    }
    SimilarityMatrixFromTable(masses, curve, rows);
  }

  /** A matrix with n rows of n entries. */
  predicate Square(matrix: seq<seq<real>>)
  {
    forall i :: 0 <= i < |matrix| ==> |matrix[i]| == |matrix|
  }

  function Sum(xs: seq<real>): real
  {
    if xs == [] then 0.0 else Sum(xs[..|xs| - 1]) + xs[|xs| - 1]
  }

  /** The first n entries of a row, leaving out the one at index i. */
  function SumExcept(row: seq<real>, i: nat, n: nat): real
    requires n <= |row|
  {
    if n == 0 then 0.0 else SumExcept(row, i, n - 1) + (if n - 1 == i then 0.0 else row[n - 1])
  }

  /** getSupportDegree: each row's sum off the diagonal. */
  function SupportDegree(matrix: seq<seq<real>>): seq<real>
    requires Square(matrix)
  {
    seq(|matrix|, i requires 0 <= i < |matrix| => SumExcept(matrix[i], i, |matrix|))
  }

  /** getCredibility: each support divided by their sum. When the sum is
      zero, the quotients are not finite numbers, which None stands for. */
  function Credibility(support: seq<real>): Option<seq<real>>
  {
    var total := Sum(support);
    if total == 0.0 && support != [] then None
    else Some(seq(|support|, i requires 0 <= i < |support| => support[i] / total))
  }

  /** The credibility-weighted sum of the bpas the distributions give e. */
  function WeightedBpa(masses: seq<seq<Focal>>, credibility: seq<real>, e: Element): real
    requires |credibility| == |masses|
  {
    if masses == [] then 0.0
    else
      var n := |masses| - 1;
      WeightedBpa(masses[..n], credibility[..n], e) + credibility[n] * BpaOf(masses[n], e)
  }

  /** Each element of the union with its credibility-weighted bpa. */
  function WeightedAverage(union: seq<Focal>, masses: seq<seq<Focal>>, credibility: seq<real>): seq<Focal>
    requires |credibility| == |masses|
  {
    seq(|union|, i requires 0 <= i < |union| =>
      Focal(union[i].element, WeightedBpa(masses, credibility, union[i].element)))
  }

  /** distance: the credibility-weighted average of the distributions on the
      union of all supports. */
  function DistanceRule(masses: seq<seq<Focal>>, curve: SimilarityCurve): Result<seq<Focal>>
    requires |masses| >= 2
  {
    match SimilarityMatrix(masses, curve)
    case Failure(e) => Failure(e)
    case Success(matrix) =>
      var union := UnionOfSupports(masses);
      var credibility := Credibility(SupportDegree(matrix));
      if credibility.None? then
        (if union == [] then Failure(NotValid) else Failure(NonFiniteBpa))
      else
        var joint := WeightedAverage(union, masses, credibility.value);
        if Valid(joint) then Success(joint) else Failure(NotValid)
  }

  /** count further steps of dempster, each combining dd with the result so far. */
  function Repeat(dd: seq<Focal>, joint: seq<Focal>, count: nat): Result<seq<Focal>>
  {
    if count == 0 then Success(joint)
    else
      match Repeat(dd, joint, count - 1)
      case Failure(e) => Failure(e)
      case Success(j) => DempsterRule(dd, j)
  }

  /** The steps of the distance-evidence branch after the weighted average:
      dempster of the average with itself, and then count steps of dempster
      of that with the running joint. */
  function DempsterRepeated(average: seq<Focal>, count: nat): Result<seq<Focal>>
  {
    match DempsterRule(average, average)
    case Failure(e) => Failure(e)
    case Success(dd) => Repeat(dd, average, count)
  }

  /** The distance-evidence branch: the weighted average, then
      |masses| - 2 repeated steps of dempster. */
  function DistanceOperator(masses: seq<seq<Focal>>, curve: SimilarityCurve): Result<seq<Focal>>
    requires |masses| >= 2
  {
    AfterDistance(DistanceRule(masses, curve), |masses| - 2)
  }

  /** The failure of distance, or the repeated steps of dempster on its average. */
  function AfterDistance(distance: Result<seq<Focal>>, count: nat): Result<seq<Focal>>
  {
    match distance
    case Failure(e) => Failure(e)
    case Success(average) => DempsterRepeated(average, count)
  }

  /** Once a step of dempster fails, the rest of the fold fails the same way. */
  lemma {:induction false} FoldFails(rule: (seq<Focal>, seq<Focal>) -> Result<seq<Focal>>, masses: seq<seq<Focal>>, j: nat)
    requires 2 <= j <= |masses| && Fold(rule, masses, j).Failure?
    ensures Fold(rule, masses, |masses|) == Fold(rule, masses, j)
    decreases |masses| - j
  {
    if j < |masses| {
      assert Fold(rule, masses, j + 1) == Fold(rule, masses, j);
      FoldFails(rule, masses, j + 1);
    }
  }

  /** Once a repeated step fails, the later steps fail the same way. */
  lemma {:induction false} RepeatFails(dd: seq<Focal>, joint: seq<Focal>, j: nat, n: nat)
    requires j <= n && Repeat(dd, joint, j).Failure?
    ensures Repeat(dd, joint, n) == Repeat(dd, joint, j)
    decreases n - j
  {
    if j < n {
      assert Repeat(dd, joint, j + 1) == Repeat(dd, joint, j);
      RepeatFails(dd, joint, j + 1, n);
    }
  }

  /** The joint distribution the operator's own rule computes, before its validity is checked. */
  function Branch(op: Operator, masses: seq<seq<Focal>>, ctx: Context): Result<seq<Focal>>
    requires |masses| >= 2
  {
    match op
    case Average => AverageRule(masses)
    case Dempster => DempsterFold(masses, |masses|)
    case Yager => Success(YagerFold(masses, |masses|, ctx.universal).joint)
    case DistanceEvidence => DistanceOperator(masses, ctx.curve)
  }

  /** applyOperator: the branch of the operator, then the validity check. */
  function Combine(op: Operator, masses: seq<seq<Focal>>, ctx: Context): Result<Joint>
    requires |masses| >= 2
  {
    match Branch(op, masses, ctx)
    case Failure(e) => Failure(e)
    case Success(joint) => if Valid(joint) then Success(Joint(joint, op)) else Failure(NotValid)
  }

  /** The four public entry points: a joint needs at least two distributions. */
  function JointOf(op: Operator, masses: seq<seq<Focal>>, ctx: Context): Result<Joint>
  {
    if |masses| > 1 then Combine(op, masses, ctx) else Failure(JointNotPossible)
  }
}
