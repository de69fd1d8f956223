/** JointManager: the combination operators, as loops over the
    distributions that mirror the source's. */
module JointManager {
  import opened Results
  import opened Elements
  import opened Masses
  import opened Pairs
  import opened Rules

  /** getConflict: the mass of the pairs with no common hypothesis. */
  method GetConflict(m1Elements: seq<Focal>, m2Elements: seq<Focal>) returns (conflict: real)
    ensures conflict == Conflict(m1Elements, m2Elements)
  {
    var m1, m2 := m1Elements, m2Elements;
    conflict := 0.0;
    for i := 0 to |m1|
      invariant conflict == ConflictOf(Products(m1[..i], m2))
    {
      VisitedRow(m1, m2, i);
      for j := 0 to |m2|
        invariant conflict == ConflictOf(Visited(m1, m2, i, j))
      {
        VisitedStep(m1, m2, i, j);
        ConflictOfSnoc(Visited(m1, m2, i, j), Pair(m1[i], m2[j]));
        conflict := AddIfDisjoint(conflict, m1[i], m2[j]);
      }
    }
    assert m1[..|m1|] == m1;
  }

  /** The body of the inner loop of getConflict: adds the pair's mass when
      its elements share no hypothesis. */
  method AddIfDisjoint(conflict: real, el1: Focal, el2: Focal) returns (sum: real)
    ensures sum == conflict + ConflictTerm(Pair(el1, el2))
  {
    sum := conflict;
    var intersection := GetIntersection(el1.element, el2.element);
    if intersection.None? {
      sum := sum + el1.bpa * el2.bpa;
    }
  }

  /** The body of the innermost loop of dempster and yager: adds the pair's
      mass when its intersection exists and is equal to the joint element. */
  method AddIfMeets(bpa: real, el1: Focal, el2: Focal, jointElement: Element) returns (sum: real)
    ensures sum == bpa + MassOnTerm(Pair(el1, el2), jointElement)
  {
    sum := bpa;
    var intersection := GetIntersection(el1.element, el2.element);
    if intersection.Some? && Equals(intersection.value, jointElement) {
      sum := sum + el1.bpa * el2.bpa;
    }
  }

  /** The nested loops shared by dempster and yager: the mass of the pairs
      whose intersection is equal to the joint element. */
  method MatchedMass(m1: seq<Focal>, m2: seq<Focal>, jointElement: Element) returns (bpa: real)
    ensures bpa == MassOn(Products(m1, m2), jointElement)
  {
    bpa := 0.0;
    for k := 0 to |m1|
      invariant bpa == MassOn(Products(m1[..k], m2), jointElement)
    {
      VisitedRow(m1, m2, k);
      for j := 0 to |m2|
        invariant bpa == MassOn(Visited(m1, m2, k, j), jointElement)
      {
        VisitedStep(m1, m2, k, j);
        MassOnSnoc(Visited(m1, m2, k, j), Pair(m1[k], m2[j]), jointElement);
        bpa := AddIfMeets(bpa, m1[k], m2[j], jointElement);
      }
    }
    assert m1[..|m1|] == m1;
  }

  /** dempster: fills in the bpa of each element of the union of the
      supports, then checks validity. */
  method Dempster(m1: seq<Focal>, m2: seq<Focal>) returns (r: Result<seq<Focal>>)
    ensures r == DempsterRule(m1, m2)
  {
    var conflict := GetConflict(m1, m2);
    var union := MassUnion(m1, m2);
    var elements := NormalizedElements(m1, m2, union, conflict);
    if elements.Failure? {
      return elements;
    }
    var joint := elements.value;
    var jointMass := new MassDistribution(Some(joint));
    var valid := jointMass.IsValid();
    if valid {
      r := Success(joint);
    } else {
      r := Failure(NotValid);
    }
  }

  /** The loop of dempster over the elements of the union: each gets the
      matched mass divided by 1 - K, which, for a conflict of one, is not a
      finite bpa. */
  method NormalizedElements(m1: seq<Focal>, m2: seq<Focal>, union: seq<Focal>, conflict: real)
    returns (r: Result<seq<Focal>>)
    ensures union == [] ==> r == Success([])
    ensures union != [] && conflict == 1.0 ==> r == Failure(NonFiniteBpa)
    ensures union != [] && conflict != 1.0 ==>
      r == Success(Normalize(Conjunctive(union, Products(m1, m2)), 1.0 - conflict))
  {
    var jointElements := new Focal[|union|](i requires 0 <= i < |union| => union[i]);
    for i := 0 to |union|
      invariant 0 < i ==> conflict != 1.0
      invariant forall k :: 0 <= k < i ==>
        jointElements[k] == Focal(union[k].element, MassOn(Products(m1, m2), union[k].element) / (1.0 - conflict))
      invariant forall k :: i <= k < |union| ==> jointElements[k] == union[k]
    {
      var element := jointElements[i].element;
      var bpa := MatchedMass(m1, m2, element);
      if conflict == 1.0 {
        return Failure(NonFiniteBpa);
      }
      jointElements[i] := Focal(element, bpa / (1.0 - conflict));
    }
    if union != [] {
      assert jointElements[..] == Normalize(Conjunctive(union, Products(m1, m2)), 1.0 - conflict);
    } else {
      assert jointElements[..] == [];
    }
    r := Success(jointElements[..]);
  }

  /** yager: the same loops without normalisation; the last step appends the
      universal element carrying the transferred conflict. */
  method Yager(m1: seq<Focal>, m2: seq<Focal>, last: bool, conflictTransfer: real, universal: Element)
    returns (joint: seq<Focal>)
    ensures joint == YagerStep(m1, m2, last, conflictTransfer, universal)
  {
    var union := MassUnion(m1, m2);
    var jointElements := new Focal[|union|](i requires 0 <= i < |union| => union[i]);
    for i := 0 to |union|
      invariant forall k :: 0 <= k < i ==>
        jointElements[k] == Focal(union[k].element, MassOn(Products(m1, m2), union[k].element))
      invariant forall k :: i <= k < |union| ==> jointElements[k] == union[k]
    {
      var element := jointElements[i].element;
      var bpa := MatchedMass(m1, m2, element);
      jointElements[i] := Focal(element, bpa);
    }
    joint := jointElements[..];
    if last {
      joint := joint + [Focal(universal, conflictTransfer)];
    }
  }

  /** The inner loops of average: the focal elements equal to e that the
      distributions hold, collected and then summed. */
  method SameElementsBpa(masses: seq<seq<Focal>>, e: Element) returns (bpa: real)
    ensures bpa == Total(Found(masses, e))
  {
    var sameElements: seq<Focal> := [];
    for j := 0 to |masses|
      invariant sameElements == Found(masses[..j], e)
    {
      assert masses[..j + 1][..j] == masses[..j];
      var same := FindElement(masses[j], e);
      if same.Some? {
        sameElements := sameElements + [same.value];
      }
    }
    assert masses[..|masses|] == masses;
    bpa := 0.0;
    for k := 0 to |sameElements|
      invariant bpa == Total(sameElements[..k])
    {
      assert sameElements[..k + 1][..k] == sameElements[..k];
      bpa := bpa + sameElements[k].bpa;
    }
    assert sameElements[..|sameElements|] == sameElements;
  }

  /** average: the union of all supports, folded in a loop, and for each of
      its elements the mean of the bpas the distributions give it. */
  method Average(masses: seq<seq<Focal>>) returns (r: Result<seq<Focal>>)
    requires |masses| >= 2
    ensures r == AverageRule(masses)
  {
    var union := MassUnion(masses[0], masses[1]);
    assert masses[..2] == [masses[0], masses[1]];
    for i := 2 to |masses|
      invariant union == UnionOfSupports(masses[..i])
    {
      assert masses[..i + 1][..i] == masses[..i];
      union := MassUnion(union, masses[i]);
    }
    assert masses[..|masses|] == masses;
    var jointElements := new Focal[|union|](i requires 0 <= i < |union| => union[i]);
    for i := 0 to |union|
      invariant forall k :: 0 <= k < i ==>
        jointElements[k] == Focal(union[k].element, Total(Found(masses, union[k].element)) / |masses| as real)
      invariant forall k :: i <= k < |union| ==> jointElements[k] == union[k]
    {
      var jointElement := jointElements[i];
      var bpa := SameElementsBpa(masses, jointElement.element);
      jointElements[i] := Focal(jointElement.element, bpa / |masses| as real);
    }
    var joint := jointElements[..];
    assert joint == Means(union, masses);
    var jointMass := new MassDistribution(Some(joint));
    var valid := jointMass.IsValid();
    if valid {
      r := Success(joint);
    } else {
      r := Failure(NotValid);
    }
  }

  /** The body of the inner loop of getScalarProduct: the pair's mass times
      the integer quotient of the intersection size by the union size. */
  method ScalarTermOf(el1: Focal, el2: Focal) returns (r: Result<real>)
    ensures r == ScalarTerm(Pair(el1, el2))
  {
    var intersection := GetIntersection(el1.element, el2.element);
    var union := Union(el1.element, el2.element);
    var intersectionSize := SizeOf(intersection);
    var unionSize := SizeOf(union);
    ScalarTermSizes(Pair(el1, el2), intersectionSize, unionSize);
    if unionSize == 0 {
      return Failure(DivisionByZero);
    }
    r := Success(Mass(Pair(el1, el2)) * (intersectionSize / unionSize) as real);
  }

  /** One pass of the outer loop of getScalarProduct: adds the terms of the
      pairs of row i, or stops at the first that fails. */
  method ScalarRow(m1: seq<Focal>, m2: seq<Focal>, i: nat, sum: real) returns (r: Result<real>, ghost failed: nat)
    requires i < |m1| && ScalarOf(Products(m1[..i], m2)) == Success(sum)
    ensures r.Success? ==> ScalarOf(Products(m1[..i + 1], m2)) == r
    ensures r.Failure? ==>
      r == Failure(DivisionByZero) && failed < |m2| && ScalarTerm(Pair(m1[i], m2[failed])).Failure?
  {
    var scalarProduct := sum;
    VisitedRow(m1, m2, i);
    for j := 0 to |m2|
      invariant ScalarOf(Visited(m1, m2, i, j)) == Success(scalarProduct)
    {
      var next := ScalarStep(m1, m2, i, j, scalarProduct);
      if next.Failure? {
        return Failure(DivisionByZero), j;
      }
      scalarProduct := next.value;
    }
    r, failed := Success(scalarProduct), 0;
  }

  /** One pass of the inner loop of getScalarProduct: adds the term of the
      pair (i, j), or fails with it. */
  method ScalarStep(m1: seq<Focal>, m2: seq<Focal>, i: nat, j: nat, sum: real) returns (r: Result<real>)
    requires i < |m1| && j < |m2| && ScalarOf(Visited(m1, m2, i, j)) == Success(sum)
    ensures r.Success? ==> ScalarOf(Visited(m1, m2, i, j + 1)) == r
    ensures r.Failure? ==> ScalarTerm(Pair(m1[i], m2[j])).Failure?
  {
    VisitedStep(m1, m2, i, j);
    var term := ScalarTermOf(m1[i], m2[j]);
    if term.Failure? {
      return term;
    }
    ScalarOfSnoc(Visited(m1, m2, i, j), Pair(m1[i], m2[j]), sum, term.value);
    r := Success(sum + term.value);
  }

  /** getScalarProduct: the sum of the terms of all pairs. */
  method GetScalarProduct(m1: seq<Focal>, m2: seq<Focal>) returns (r: Result<real>)
    ensures r == ScalarProduct(m1, m2)
  {
    var scalarProduct := 0.0;
    for i := 0 to |m1|
      invariant ScalarOf(Products(m1[..i], m2)) == Success(scalarProduct)
    {
      var row, failed := ScalarRow(m1, m2, i, scalarProduct);
      if row.Failure? {
        ScalarFailsOnPair(m1, m2, i, failed);
        return row;
      }
      scalarProduct := row.value;
    }
    assert m1[..|m1|] == m1;
    r := Success(scalarProduct);
  }

  /** getSimilarity, with getDistance: the two squared norms and the scalar
      product, given to the similarity curve. */
  method GetSimilarity(m1: seq<Focal>, m2: seq<Focal>, curve: SimilarityCurve) returns (r: Result<real>)
    ensures r == Similarity(m1, m2, curve)
  {
    var normM1 := GetScalarProduct(m1, m1);
    if normM1.Failure? {
      return Failure(normM1.error);
    }
    var normM2 := GetScalarProduct(m2, m2);
    if normM2.Failure? {
      return Failure(normM2.error);
    }
    var scalarProduct := GetScalarProduct(m1, m2);
    if scalarProduct.Failure? {
      return Failure(scalarProduct.error);
    }
    r := Success(curve(normM1.value, normM2.value, scalarProduct.value));
  }

  /** The rows of a matrix. */
  ghost function Rows(matrix: array2<real>): seq<seq<real>>
    reads matrix
  {
    seq(matrix.Length0, i requires 0 <= i < matrix.Length0 reads matrix =>
      seq(matrix.Length1, j requires 0 <= j < matrix.Length1 reads matrix => matrix[i, j]))
  }

  /** One pass of the outer loop of getSimilarityMatrix: a one on the
      diagonal, then each similarity of distribution i with a later one,
      written on both sides. Entries in earlier rows and columns are left as
      they were. */
  method FillRow(matrix: array2<real>, masses: seq<seq<Focal>>, curve: SimilarityCurve, i: nat,
                 ghost upper: seq<seq<real>>) returns (ok: bool, ghost row: seq<real>)
    requires matrix.Length0 == matrix.Length1 == |masses| && i < |masses|
    requires |upper| == i && UpperAgrees(masses, curve, upper)
    modifies matrix
    ensures !ok ==> SimilarityMatrix(masses, curve) == Failure(DivisionByZero)
    ensures ok ==> |row| == |masses| && UpperAgrees(masses, curve, upper + [row])
    ensures ok ==> matrix[i, i] == 1.0
    ensures ok ==> forall b :: i < b < |masses| ==> matrix[i, b] == row[b] && matrix[b, i] == row[b]
    ensures forall a, b :: 0 <= a < |masses| && 0 <= b < |masses| && (a < i || b < i) ==>
      matrix[a, b] == old(matrix[a, b])
  {
    var n := |masses|;
    row := seq(n, b => 0.0);
    for j := i to n
      invariant |row| == n
      invariant forall b {:trigger Similarity(masses[i], masses[b], curve)} :: i < b < j ==>
        Similarity(masses[i], masses[b], curve) == Success(row[b])
      invariant i < j ==> matrix[i, i] == 1.0
      invariant forall b :: i < b < j ==> matrix[i, b] == row[b] && matrix[b, i] == row[b]
      invariant forall a, b :: 0 <= a < n && 0 <= b < n && (a < i || b < i) ==> matrix[a, b] == old(matrix[a, b])
    {
      if i == j {
        matrix[i, j] := 1.0;
      } else {
        var similarity := GetSimilarity(masses[i], masses[j], curve);
        if similarity.Failure? {
          SimilarityMatrixFailsAt(masses, curve, i, j);
          return false, [];
        }
        matrix[i, j] := similarity.value;
        matrix[j, i] := similarity.value;
        row := row[j := similarity.value];
      }
    }
    UpperAgreesExtend(masses, curve, upper, row);
    ok := true;
  }

  /** getSimilarityMatrix: ones on the diagonal; each similarity above it is
      computed once and written on both sides. */
  method GetSimilarityMatrix(masses: seq<seq<Focal>>, curve: SimilarityCurve) returns (r: Result<array2<real>>)
    ensures r.Failure? <==> SimilarityMatrix(masses, curve).Failure?
    ensures r.Failure? ==> r.error == DivisionByZero
    ensures r.Success? ==> fresh(r.value) && r.value.Length0 == r.value.Length1 == |masses|
    ensures r.Success? ==> Rows(r.value) == SimilarityMatrix(masses, curve).value
  {
    var n := |masses|;
    var matrix := new real[n, n];
    // upper[a][b], for a < b, is the similarity written in row a.
    ghost var upper: seq<seq<real>> := [];
    for i := 0 to n
      invariant |upper| == i && UpperAgrees(masses, curve, upper)
      invariant forall a :: 0 <= a < i ==> matrix[a, a] == 1.0
      invariant forall a, b :: 0 <= a < i && a < b < n ==> matrix[a, b] == upper[a][b] && matrix[b, a] == upper[a][b]
    {
      var ok, row := FillRow(matrix, masses, curve, i, upper);
      if !ok {
        return Failure(DivisionByZero);
      }
      upper := upper + [row];
    }
    SimilarityMatrixFromUpper(masses, curve, upper, Rows(matrix));
    r := Success(matrix);
  }

  /** getSupportDegree: for each row, the sum of its entries off the diagonal. */
  method GetSupportDegree(similarityMatrix: array2<real>) returns (supportDegree: array<real>)
    requires similarityMatrix.Length0 == similarityMatrix.Length1
    ensures fresh(supportDegree)
    ensures supportDegree[..] == SupportDegree(Rows(similarityMatrix))
  {
    var n := similarityMatrix.Length0;
    ghost var rows := Rows(similarityMatrix);
    supportDegree := new real[n];
    for i := 0 to n
      invariant forall k :: 0 <= k < i ==> supportDegree[k] == SumExcept(rows[k], k, n)
    {
      supportDegree[i] := 0.0;
      for j := 0 to n
        invariant supportDegree[i] == SumExcept(rows[i], i, j)
        invariant forall k :: 0 <= k < i ==> supportDegree[k] == SumExcept(rows[k], k, n)
      {
        if i != j {
          supportDegree[i] := supportDegree[i] + similarityMatrix[i, j];
        }
      }
    }
  }

  /** getCredibility: each support divided by the sum of all supports. A sum
      of zero gives non-finite quotients, reported as None. */
  method GetCredibility(supportDegree: array<real>) returns (credibility: Option<array<real>>)
    ensures credibility.None? <==> Credibility(supportDegree[..]).None?
    ensures credibility.Some? ==>
      fresh(credibility.value) && credibility.value[..] == Credibility(supportDegree[..]).value
  {
    var summation := 0.0;
    for i := 0 to supportDegree.Length
      invariant summation == Sum(supportDegree[..i])
    {
      assert supportDegree[..i + 1][..i] == supportDegree[..i];
      summation := summation + supportDegree[i];
    }
    assert supportDegree[..supportDegree.Length] == supportDegree[..];
    if summation == 0.0 && supportDegree.Length > 0 {
      return None;
    }
    var values := new real[supportDegree.Length];
    for i := 0 to supportDegree.Length
      invariant forall k :: 0 <= k < i ==> values[k] == supportDegree[k] / summation
    {
      values[i] := supportDegree[i] / summation;
    }
    credibility := Some(values);
  }

  /** The inner loop of distance: the credibility-weighted sum of the bpas
      the distributions give the joint element. */
  method WeightedSum(masses: seq<seq<Focal>>, credibility: array<real>, jointElement: Element) returns (newBpa: real)
    requires credibility.Length == |masses|
    ensures newBpa == WeightedBpa(masses, credibility[..], jointElement)
  {
    newBpa := 0.0;
    for j := 0 to |masses|
      invariant newBpa == WeightedBpa(masses[..j], credibility[..j], jointElement)
    {
      assert masses[..j + 1][..j] == masses[..j];
      assert credibility[..j + 1][..j] == credibility[..j];
      var cred := credibility[j];
      var oldBpa := 0.0;
      var focalElement := FindElement(masses[j], jointElement);
      if focalElement.Some? {
        oldBpa := focalElement.value.bpa;
      }
      newBpa := newBpa + cred * oldBpa;
    }
    assert masses[..|masses|] == masses;
    assert credibility[..|masses|] == credibility[..];
  }

  /** The loop of distance over the union: each element takes the
      credibility-weighted sum of the bpas the distributions give it. */
  method WeightedElements(union: seq<Focal>, masses: seq<seq<Focal>>, credibility: array<real>)
    returns (joint: seq<Focal>)
    requires credibility.Length == |masses|
    ensures joint == WeightedAverage(union, masses, credibility[..])
  {
    var jointElements := new Focal[|union|](i requires 0 <= i < |union| => union[i]);
    for i := 0 to |union|
      invariant forall k :: 0 <= k < i ==>
        jointElements[k] == Focal(union[k].element, WeightedBpa(masses, credibility[..], union[k].element))
      invariant forall k :: i <= k < |union| ==> jointElements[k] == union[k]
    {
      var jointElement := jointElements[i];
      var newBpa := WeightedSum(masses, credibility, jointElement.element);
      jointElements[i] := Focal(jointElement.element, newBpa);
    }
    joint := jointElements[..];
  }

  /** distance: similarity matrix, supports, credibilities, and the weighted
      average of the distributions on the union of their supports. Without
      finite credibilities the first element of the union cannot take its
      bpa; with an empty union nothing is set and the empty result is
      refused as invalid. */
  method Distance(masses: seq<seq<Focal>>, curve: SimilarityCurve) returns (r: Result<seq<Focal>>)
    requires |masses| >= 2
    ensures r == DistanceRule(masses, curve)
  {
    var similarityMatrix := GetSimilarityMatrix(masses, curve);
    if similarityMatrix.Failure? {
      return Failure(similarityMatrix.error);
    }
    var supportDegree := GetSupportDegree(similarityMatrix.value);
    var credibility := GetCredibility(supportDegree);
    var unionOfSupports := GetMassUnionElement(masses);
    var union := unionOfSupports.value;
    var joint: seq<Focal>;
    if credibility.None? {
      if union != [] {
        return Failure(NonFiniteBpa);
      }
      joint := [];
    } else {
      joint := WeightedElements(union, masses, credibility.value);
    }
    var jointMass := new MassDistribution(Some(joint));
    var valid := jointMass.IsValid();
    if valid {
      r := Success(joint);
    } else {
      r := Failure(NotValid);
    }
  }

  /** The Dempster branch of applyOperator: dempster of the first two
      distributions, then of the joint with each later one. */
  method DempsterBranch(masses: seq<seq<Focal>>) returns (r: Result<seq<Focal>>)
    requires |masses| >= 2
    ensures r == DempsterFold(masses, |masses|)
  {
    var step := Dempster(masses[0], masses[1]);
    if step.Failure? {
      FoldFails(DempsterRule, masses, 2);
      return step;
    }
    var joint := step.value;
    for j := 2 to |masses|
      invariant DempsterFold(masses, j) == Success(joint)
    {
      step := Dempster(joint, masses[j]);
      if step.Failure? {
        assert DempsterFold(masses, j + 1) == step;
        FoldFails(DempsterRule, masses, j + 1);
        return step;
      }
      joint := step.value;
    }
    r := Success(joint);
  }

  /** The Yager branch of applyOperator: the conflict of each step is added
      to the running total, and the last step hands it to the universal
      element. */
  method YagerBranch(masses: seq<seq<Focal>>, universal: Element) returns (joint: seq<Focal>)
    requires |masses| >= 2
    ensures joint == YagerFold(masses, |masses|, universal).joint
  {
    var conflict := GetConflict(masses[0], masses[1]);
    joint := Yager(masses[0], masses[1], false, conflict, universal);
    for j := 2 to |masses|
      invariant YagerFold(masses, j, universal) == YagerState(joint, conflict)
    {
      var stepConflict := GetConflict(joint, masses[j]);
      YagerFoldStep(masses, j + 1, universal);
      conflict := conflict + stepConflict;
      var last := j == |masses| - 1;
      joint := Yager(joint, masses[j], last, conflict, universal);
    }
  }

  /** The steps of the distance-evidence branch of applyOperator after the
      weighted average: dempster of the average with itself, kept aside,
      and count steps of dempster of it with the running joint. */
  method RepeatDempster(distance: Result<seq<Focal>>, count: nat) returns (r: Result<seq<Focal>>)
    ensures r == AfterDistance(distance, count)
  {
    if distance.Failure? {
      return distance;
    }
    var average := distance.value;
    var dempsterDistribution := Dempster(average, average);
    if dempsterDistribution.Failure? {
      return dempsterDistribution;
    }
    var dd := dempsterDistribution.value;
    var joint := average;
    for j := 0 to count
      invariant Repeat(dd, average, j) == Success(joint)
    {
      var step := Dempster(dd, joint);
      if step.Failure? {
        RepeatFails(dd, average, j + 1, count);
        return step;
      }
      joint := step.value;
    }
    r := Success(joint);
  }

  /** applyOperator: the branch of the operator over the distributions, in
      their order, and then the validity check of the joint. */
  method ApplyOperator(masses: seq<seq<Focal>>, operator: Operator, ctx: Context) returns (r: Result<Joint>)
    requires |masses| >= 2
    ensures r == Combine(operator, masses, ctx)
  {
    var branch := OperatorBranch(masses, operator, ctx);
    if branch.Failure? {
      return Failure(branch.error);
    }
    var jointMass := new MassDistribution(Some(branch.value));
    var valid := jointMass.IsValid();
    if valid {
      r := Success(Joint(branch.value, operator));
    } else {
      r := Failure(NotValid);
    }
  }

  /** The switch of applyOperator: the rule the operator names. */
  method OperatorBranch(masses: seq<seq<Focal>>, operator: Operator, ctx: Context) returns (branch: Result<seq<Focal>>)
    requires |masses| >= 2
    ensures branch == Branch(operator, masses, ctx)
  {
    match operator {
      case Average =>
        branch := Average(masses);
        assert branch == Branch(operator, masses, ctx);
      case Dempster =>
        branch := DempsterBranch(masses);
        assert branch == Branch(operator, masses, ctx);
      case Yager =>
        var joint := YagerBranch(masses, ctx.universal);
        branch := Success(joint);
        assert branch == Branch(operator, masses, ctx);
      case DistanceEvidence =>
        var distance := Distance(masses, ctx.curve);
        branch := RepeatDempster(distance, |masses| - 2);
        assert branch == Branch(operator, masses, ctx);
    }
  }

  /** dempsterJoint: Dempster's rule over at least two distributions. */
  method DempsterJoint(masses: seq<seq<Focal>>, ctx: Context) returns (r: Result<Joint>)
    ensures r == JointOf(Operator.Dempster, masses, ctx)
  {
    if |masses| > 1 {
      r := ApplyOperator(masses, Operator.Dempster, ctx);
    } else {
      r := Failure(JointNotPossible);
    }
  }

  /** yagerJoint: Yager's rule over at least two distributions. */
  method YagerJoint(masses: seq<seq<Focal>>, ctx: Context) returns (r: Result<Joint>)
    ensures r == JointOf(Operator.Yager, masses, ctx)
  {
    if |masses| > 1 {
      r := ApplyOperator(masses, Operator.Yager, ctx);
    } else {
      r := Failure(JointNotPossible);
    }
  }

  /** averageJoint: the average rule over at least two distributions. */
  method AverageJoint(masses: seq<seq<Focal>>, ctx: Context) returns (r: Result<Joint>)
    ensures r == JointOf(Operator.Average, masses, ctx)
  {
    if |masses| > 1 {
      r := ApplyOperator(masses, Operator.Average, ctx);
    } else {
      r := Failure(JointNotPossible);
    }
  }

  /** distanceEvidenceJoint: the distance-evidence rule over at least two
      distributions. */
  method DistanceEvidenceJoint(masses: seq<seq<Focal>>, ctx: Context) returns (r: Result<Joint>)
    ensures r == JointOf(Operator.DistanceEvidence, masses, ctx)
  {
    if |masses| > 1 {
      r := ApplyOperator(masses, Operator.DistanceEvidence, ctx);
    } else {
      r := Failure(JointNotPossible);
    }
  }
}
