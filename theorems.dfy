/** Properties of the combination rules of JointManager, stated over the
    functions the methods are proved to compute. */
module Theorems {
  import opened Results
  import opened Elements
  import opened Masses
  import opened Pairs
  import opened Rules

  // ------------------------------------------------------------ the guards

  /** A result that is not the refusal of the public entry points. */
  predicate NotRefused<T>(r: Result<T>)
  {
    r.Failure? ==> r.error != JointNotPossible
  }

  lemma DempsterNotRefused(m1: seq<Focal>, m2: seq<Focal>)
    ensures NotRefused(DempsterRule(m1, m2))
  {
  }

  lemma {:induction false} FoldNotRefused(masses: seq<seq<Focal>>, n: nat)
    requires 2 <= n <= |masses|
    ensures NotRefused(DempsterFold(masses, n))
  {
    if n > 2 {
      FoldNotRefused(masses, n - 1);
    }
  }

  lemma {:induction false} RepeatNotRefused(dd: seq<Focal>, joint: seq<Focal>, count: nat)
    ensures NotRefused(Repeat(dd, joint, count))
  {
    if count > 0 {
      RepeatNotRefused(dd, joint, count - 1);
      if Repeat(dd, joint, count - 1).Success? {
        DempsterNotRefused(dd, Repeat(dd, joint, count - 1).value);
      }
    }
  }

  lemma AfterDistanceNotRefused(masses: seq<seq<Focal>>, curve: SimilarityCurve)
    requires |masses| >= 2
    ensures NotRefused(DistanceOperator(masses, curve))
  {
    DistanceRuleNotRefused(masses, curve);
    var distance := DistanceRule(masses, curve);
    if distance.Success? {
      var dd := DempsterRule(distance.value, distance.value);
      if dd.Success? {
        RepeatNotRefused(dd.value, distance.value, |masses| - 2);
      }
    }
  }

  lemma DistanceRuleNotRefused(masses: seq<seq<Focal>>, curve: SimilarityCurve)
    requires |masses| >= 2
    ensures NotRefused(DistanceRule(masses, curve))
  {
  }

  /** The branch each operator takes never fails with the refusal. */
  lemma BranchNotRefused(op: Operator, masses: seq<seq<Focal>>, ctx: Context)
    requires |masses| >= 2
    ensures NotRefused(Combine(op, masses, ctx))
  {
    match op {
      case Average =>
      case Dempster =>
        FoldNotRefused(masses, |masses|);
      case Yager =>
      case DistanceEvidence =>
        AfterDistanceNotRefused(masses, ctx.curve);
    }
  }

  /** Each of the four public operators refuses exactly the lists of fewer
      than two distributions; what it returns otherwise is a valid joint
      tagged with its own operator. */
  lemma RefusedIffFewerThanTwo(op: Operator, masses: seq<seq<Focal>>, ctx: Context)
    ensures JointOf(op, masses, ctx) == Failure(JointNotPossible) <==> |masses| < 2
    ensures JointOf(op, masses, ctx).Success? ==>
      Valid(JointOf(op, masses, ctx).value.elements) && JointOf(op, masses, ctx).value.operator == op
  {
    if |masses| >= 2 {
      BranchNotRefused(op, masses, ctx);
    }
  }

  // -------------------------------------------------------------- dempster

  /** Dividing every bpa by the same factor divides their total by it. */
  lemma {:induction false} NormalizeTotal(d: seq<Focal>, factor: real)
    requires factor != 0.0
    ensures Total(Normalize(d, factor)) == Total(d) / factor
  {
    if d != [] {
      var n := |d| - 1;
      NormalizeTotal(d[..n], factor);
      assert Normalize(d, factor)[..n] == Normalize(d[..n], factor);
      assert Total(Normalize(d, factor)) == Total(d[..n]) / factor + d[n].bpa / factor;
    }
  }

  lemma QuotientIsOne(x: real, y: real)
    requires y != 0.0
    ensures x / y == 1.0 <==> x == y
  {
    if x / y == 1.0 {
      assert x == (x / y) * y;
    }
  }

  /** dempster refuses an empty union as not valid and a conflict of one as
      not finite; otherwise it succeeds exactly when the conjunctive masses on
      the union add up to 1 - K, the mass left over by the conflict. */
  lemma DempsterValidIff(m1: seq<Focal>, m2: seq<Focal>)
    ensures MassUnion(m1, m2) == [] ==> DempsterRule(m1, m2) == Failure(NotValid)
    ensures MassUnion(m1, m2) != [] && Conflict(m1, m2) == 1.0 ==> DempsterRule(m1, m2) == Failure(NonFiniteBpa)
    ensures MassUnion(m1, m2) != [] && Conflict(m1, m2) != 1.0 ==>
      (DempsterRule(m1, m2).Success? <==>
         Total(Conjunctive(MassUnion(m1, m2), Products(m1, m2))) == 1.0 - Conflict(m1, m2))
  {
    var union, k := MassUnion(m1, m2), Conflict(m1, m2);
    if union != [] && k != 1.0 {
      var c := Conjunctive(union, Products(m1, m2));
      NormalizeTotal(c, 1.0 - k);
      QuotientIsOne(Total(c), 1.0 - k);
    }
  }

  /** No pair meeting e leaves e without mass. */
  lemma {:induction false} MassOnNoMeet(ps: seq<Pair>, e: Element)
    requires forall p :: p in ps ==> !Meets(p, e)
    ensures MassOn(ps, e) == 0.0
  {
    if ps != [] {
      MassOnNoMeet(ps[..|ps| - 1], e);
      assert ps[|ps| - 1] in ps;
    }
  }

  /** Elements of the union that no pair meets get no conjunctive mass. */
  lemma {:induction false} ConjunctiveNoMeet(union: seq<Focal>, ps: seq<Pair>)
    requires forall p, g :: p in ps && g in union ==> !Meets(p, g.element)
    ensures Total(Conjunctive(union, ps)) == 0.0
  {
    if union != [] {
      var n := |union| - 1;
      ConjunctiveNoMeet(union[..n], ps);
      assert Conjunctive(union, ps)[..n] == Conjunctive(union[..n], ps);
      assert union[n] in union;
      MassOnNoMeet(ps, union[n].element);
    }
  }

  /** dempster gives mass only to the elements of the two supports: when no
      pair's intersection is equal to one of them, all the mass of the
      non-conflicting pairs is lost and the combination fails. */
  lemma DempsterLosesOtherIntersections(m1: seq<Focal>, m2: seq<Focal>)
    requires forall p, g :: p in Products(m1, m2) && g in MassUnion(m1, m2) ==> !Meets(p, g.element)
    ensures DempsterRule(m1, m2).Failure?
  {
    var union, k := MassUnion(m1, m2), Conflict(m1, m2);
    if union != [] && k != 1.0 {
      var c := Conjunctive(union, Products(m1, m2));
      ConjunctiveNoMeet(union, Products(m1, m2));
      NormalizeTotal(c, 1.0 - k);
    }
  }

  lemma ExampleIntersection()
    ensures Intersection(["A", "B"], ["B", "C"]) == Some(["B"])
  {
    var e1, e2: Element := ["A", "B"], ["B", "C"];
    assert "A" !in e2 && "B" in e2;
    MatchesWithoutDuplicates("A", e2);
    MatchesWithoutDuplicates("B", e2);
    assert e1[..1] == ["A"] && ["A"][..0] == [];
    assert Common(["A"], e2) == [];
    assert Common(e1, e2) == Common(["A"], e2) + Matches("B", e2);
    assert Matches("B", e2) == ["B"];
    assert Common(e1, e2) == ["B"];
  }

  /** Two distributions of one focal element each make one pair. */
  lemma SinglePair(f1: Focal, f2: Focal)
    ensures Products([f1], [f2]) == [Pair(f1, f2)]
    ensures Conflict([f1], [f2]) == ConflictTerm(Pair(f1, f2))
  {
    assert [f1][..0] == [];
    assert Row(f1, [f2]) == [Pair(f1, f2)];
    ConflictOfSnoc([], Pair(f1, f2));
    assert [] + [Pair(f1, f2)] == [Pair(f1, f2)];
  }

  /** The union of the example holds only elements of two hypotheses. */
  lemma ExampleUnion(m1: seq<Focal>, m2: seq<Focal>)
    requires m1 == [Focal(["A", "B"], 1.0)] && m2 == [Focal(["B", "C"], 1.0)]
    ensures MassUnion(m1, m2) != []
    ensures forall g :: g in MassUnion(m1, m2) ==> |g.element| == 2
  {
    MassUnionProperties(m1, m2);
    assert Key(m1[0]) in Supports(m1);
  }

  /** {A, B} and {B, C}, each certain, meet only on {B}, which neither
      distribution supports: dempster refuses the result as not valid. */
  lemma DempsterExample()
    ensures DempsterRule([Focal(["A", "B"], 1.0)], [Focal(["B", "C"], 1.0)]) == Failure(NotValid)
  {
    var m1, m2 := [Focal(["A", "B"], 1.0)], [Focal(["B", "C"], 1.0)];
    var p := Pair(m1[0], m2[0]);
    SinglePair(m1[0], m2[0]);
    ExampleIntersection();
    ExampleUnion(m1, m2);
    forall q, g | q in Products(m1, m2) && g in MassUnion(m1, m2) ensures !Meets(q, g.element) {
      assert q == p && |g.element| == 2;
    }
    DempsterLosesOtherIntersections(m1, m2);
  }

  // ----------------------------------------------------------------- yager

  lemma QuotientTimes(x: real, y: real)
    requires y != 0.0
    ensures (x / y) * y == x
  {
  }

  /** yager computes dempster's masses without dividing by 1 - K: where
      dempster succeeds, each entry of a yager step over the union is the
      dempster bpa times 1 - K. */
  lemma YagerIsUnnormalisedDempster(m1: seq<Focal>, m2: seq<Focal>, last: bool, transfer: real, universal: Element)
    requires DempsterRule(m1, m2).Success?
    ensures var d := DempsterRule(m1, m2).value;
      var y := YagerStep(m1, m2, last, transfer, universal);
      |y| >= |d| &&
      forall i :: 0 <= i < |d| ==> y[i] == Focal(d[i].element, d[i].bpa * (1.0 - Conflict(m1, m2)))
  {
    var d := DempsterRule(m1, m2).value;
    var c := Conjunctive(MassUnion(m1, m2), Products(m1, m2));
    var y := YagerStep(m1, m2, last, transfer, universal);
    forall i | 0 <= i < |d| ensures y[i] == Focal(d[i].element, d[i].bpa * (1.0 - Conflict(m1, m2))) {
      assert y[i] == c[i];
      QuotientTimes(c[i].bpa, 1.0 - Conflict(m1, m2));
    }
  }

  /** What the step of the Yager branch after the first n distributions
      combined. */
  function YagerPrevious(masses: seq<seq<Focal>>, n: nat, universal: Element): seq<Focal>
    requires 2 <= n <= |masses|
  {
    if n == 2 then masses[0] else YagerFold(masses, n - 1, universal).joint
  }

  /** The conjunctive masses of the step of the Yager branch after the
      first n distributions, on the union of the running joint and the next
      distribution. */
  function YagerConjunctive(masses: seq<seq<Focal>>, n: nat, universal: Element): seq<Focal>
    requires 2 <= n <= |masses|
  {
    var prev := YagerPrevious(masses, n, universal);
    Conjunctive(MassUnion(prev, masses[n - 1]), Products(prev, masses[n - 1]))
  }

  /** Each step of the Yager branch but the last lists the union of the
      running joint and the next distribution with its conjunctive masses,
      without dividing by 1 - K; so does the only step of two distributions. */
  lemma YagerInnerStep(masses: seq<seq<Focal>>, n: nat, universal: Element)
    requires 2 <= n <= |masses| && (n < |masses| || n == 2)
    ensures YagerFold(masses, n, universal).joint == YagerConjunctive(masses, n, universal)
  {
    var c := YagerConjunctive(masses, n, universal);
    assert c + [] == c;
    if n > 2 {
      YagerFoldStep(masses, n, universal);
    }
  }

  lemma YagerStepLast(prev: seq<Focal>, m: seq<Focal>, conflict: real, universal: Element)
    ensures YagerStep(prev, m, true, conflict, universal) ==
      Conjunctive(MassUnion(prev, m), Products(prev, m)) + [Focal(universal, conflict)]
  {
  }

  /** The last step of three or more distributions appends the universal
      element with all the conflict accumulated. */
  lemma {:induction false} YagerLastStep(masses: seq<seq<Focal>>, universal: Element)
    requires |masses| >= 3
    ensures var s := YagerFold(masses, |masses|, universal);
      var c := YagerConjunctive(masses, |masses|, universal);
      |s.joint| == |c| + 1 && s.joint[..|c|] == c && s.joint[|c|] == Focal(universal, s.conflict)
  {
    var n, m := |masses|, masses[|masses| - 1];
    var prev := YagerFold(masses, n - 1, universal);
    LastStepFrom(masses, universal, prev);
  }

  lemma LastStepFrom(masses: seq<seq<Focal>>, universal: Element, prev: YagerState)
    requires |masses| >= 3 && YagerFold(masses, |masses| - 1, universal) == prev
    ensures var s := YagerFold(masses, |masses|, universal);
      var c := YagerConjunctive(masses, |masses|, universal);
      |s.joint| == |c| + 1 && s.joint[..|c|] == c && s.joint[|c|] == Focal(universal, s.conflict)
  {
    var n, m := |masses|, masses[|masses| - 1];
    var conflict := prev.conflict + Conflict(prev.joint, m);
    var c := Conjunctive(MassUnion(prev.joint, m), Products(prev.joint, m));
    YagerFoldStep(masses, n, universal);
    YagerStepLast(prev.joint, m, conflict, universal);
    assert YagerConjunctive(masses, n, universal) == c;
    assert (c + [Focal(universal, conflict)])[..|c|] == c;
  }

  /** The conflict the Yager branch accumulates over the first n
      distributions: the conflict of each step, between the running joint and
      the next distribution, added up. */
  lemma YagerConflict(masses: seq<seq<Focal>>, n: nat, universal: Element)
    requires 2 <= n <= |masses|
    ensures YagerFold(masses, n, universal).conflict ==
      (if n == 2 then 0.0 else YagerFold(masses, n - 1, universal).conflict) +
      Conflict(YagerPrevious(masses, n, universal), masses[n - 1])
  {
    if n > 2 {
      YagerFoldStep(masses, n, universal);
    }
  }

  /** The conflict of each step of the Yager branch over the first n
      distributions, in order: the step that takes in distribution n - 1
      contributes the conflict between the running joint before it and that
      distribution. */
  function StepConflicts(masses: seq<seq<Focal>>, n: nat, universal: Element): (cs: seq<real>)
    requires 2 <= n <= |masses|
    ensures |cs| == n - 1
  {
    var step := Conflict(YagerPrevious(masses, n, universal), masses[n - 1]);
    if n == 2 then [step] else StepConflicts(masses, n - 1, universal) + [step]
  }

  /** The conflict the Yager branch carries after the first n distributions
      is the sum of the conflicts of its steps. */
  lemma YagerConflictTotal(masses: seq<seq<Focal>>, n: nat, universal: Element)
    requires 2 <= n <= |masses|
    ensures YagerFold(masses, n, universal).conflict == Sum(StepConflicts(masses, n, universal))
  {
    YagerConflictFirst(masses, universal);
    var k := 2;
    while k < n
      invariant 2 <= k <= n
      invariant YagerFold(masses, k, universal).conflict == Sum(StepConflicts(masses, k, universal))
    {
      k := k + 1;
      YagerConflictAddsStep(masses, k, universal);
    }
  }

  /** The conflict after the first step is that step's conflict. */
  lemma YagerConflictFirst(masses: seq<seq<Focal>>, universal: Element)
    requires 2 <= |masses|
    ensures YagerFold(masses, 2, universal).conflict == Sum(StepConflicts(masses, 2, universal))
  {
    StepConflictsLast(masses, 2, universal);
    YagerConflict(masses, 2, universal);
  }

  /** Each further step adds its conflict to the sum. */
  lemma YagerConflictAddsStep(masses: seq<seq<Focal>>, n: nat, universal: Element)
    requires 3 <= n <= |masses|
    requires YagerFold(masses, n - 1, universal).conflict == Sum(StepConflicts(masses, n - 1, universal))
    ensures YagerFold(masses, n, universal).conflict == Sum(StepConflicts(masses, n, universal))
  {
    StepConflictsLast(masses, n, universal);
    YagerConflict(masses, n, universal);
    AddUp(YagerFold(masses, n, universal).conflict, Sum(StepConflicts(masses, n, universal)),
      YagerFold(masses, n - 1, universal).conflict, Sum(StepConflicts(masses, n - 1, universal)),
      Conflict(YagerPrevious(masses, n, universal), masses[n - 1]));
  }

  lemma AddUp(total: real, sum: real, before: real, sumBefore: real, step: real)
    requires total == before + step && sum == sumBefore + step && before == sumBefore
    ensures total == sum
  {
  }

  /** Summing the step conflicts one step further adds the last one. */
  lemma StepConflictsLast(masses: seq<seq<Focal>>, n: nat, universal: Element)
    requires 2 <= n <= |masses|
    ensures Sum(StepConflicts(masses, n, universal)) ==
      (if n == 2 then 0.0 else Sum(StepConflicts(masses, n - 1, universal))) +
      Conflict(YagerPrevious(masses, n, universal), masses[n - 1])
  {
    var cs := StepConflicts(masses, n, universal);
    assert cs[..n - 2] == if n == 2 then [] else StepConflicts(masses, n - 1, universal);
  }

  /** With two distributions the Yager branch appends no conflict entry: the
      joint is the conjunctive masses on the union, accepted only when they
      already sum to one. */
  lemma YagerTwoInputs(masses: seq<seq<Focal>>, ctx: Context)
    requires |masses| == 2
    ensures var c := Conjunctive(MassUnion(masses[0], masses[1]), Products(masses[0], masses[1]));
      JointOf(Yager, masses, ctx) == if Valid(c) then Success(Joint(c, Yager)) else Failure(NotValid)
  {
    YagerInnerStep(masses, 2, ctx.universal);
  }

  lemma DisjointExample()
    ensures Intersection(["A"], ["B"]) == None
  {
    assert ["A"][..0] == [];
    assert Matches("A", ["B"]) == [] by {
      assert ["B"][..0] == [];
    }
  }

  /** With two distributions and no pair whose intersection is an element
      of the union, the Yager joint is refused. */
  lemma YagerTwoInputsNoMeet(masses: seq<seq<Focal>>, ctx: Context)
    requires |masses| == 2
    requires forall p, g :: p in Products(masses[0], masses[1]) && g in MassUnion(masses[0], masses[1]) ==>
      !Meets(p, g.element)
    ensures JointOf(Yager, masses, ctx) == Failure(NotValid)
  {
    ConjunctiveNoMeet(MassUnion(masses[0], masses[1]), Products(masses[0], masses[1]));
    YagerTwoInputs(masses, ctx);
  }

  /** Two certain but contradictory distributions: the whole mass is
      conflict, which the two-input Yager branch does not transfer, so the
      joint is refused. */
  lemma YagerExample(ctx: Context)
    ensures JointOf(Yager, [[Focal(["A"], 1.0)], [Focal(["B"], 1.0)]], ctx) == Failure(NotValid)
  {
    var m1, m2 := [Focal(["A"], 1.0)], [Focal(["B"], 1.0)];
    var p := Pair(m1[0], m2[0]);
    SinglePair(m1[0], m2[0]);
    DisjointExample();
    forall q, g | q in Products(m1, m2) && g in MassUnion(m1, m2) ensures !Meets(q, g.element) {
      assert q == p;
    }
    YagerTwoInputsNoMeet([m1, m2], ctx);
  }

  // --------------------------------------------------------------- average

  /** The bpas the distributions give e, added up; a distribution without an
      element equal to e counts 0. */
  function BpaSum(masses: seq<seq<Focal>>, e: Element): real
  {
    if masses == [] then 0.0 else BpaSum(masses[..|masses| - 1], e) + BpaOf(masses[|masses| - 1], e)
  }

  /** The focal elements average finds for e add up to BpaSum. */
  lemma {:induction false} FoundTotal(masses: seq<seq<Focal>>, e: Element)
    ensures Total(Found(masses, e)) == BpaSum(masses, e)
  {
    if masses != [] {
      var n := |masses| - 1;
      FoundTotal(masses[..n], e);
      var tail := match FindElement(masses[n], e) case Some(f) => [f] case None => [];
      TotalAppend(Found(masses[..n], e), tail);
      assert [] + tail == tail;
      if tail != [] {
        assert tail[..0] == [];
      }
    }
  }

  /** average gives each element of the union of all supports the sum of the
      bpas the distributions give it, a missing element counting 0, divided
      by the number of distributions. */
  lemma AverageMeans(masses: seq<seq<Focal>>)
    requires |masses| >= 2 && AverageRule(masses).Success?
    ensures var r := AverageRule(masses).value;
      var union := UnionOfSupports(masses);
      && |r| == |union|
      && forall i :: 0 <= i < |r| ==>
           r[i] == Focal(union[i].element, BpaSum(masses, union[i].element) / |masses| as real)
  {
    var r := AverageRule(masses).value;
    var union := UnionOfSupports(masses);
    forall i | 0 <= i < |r|
      ensures r[i] == Focal(union[i].element, BpaSum(masses, union[i].element) / |masses| as real)
    {
      FoundTotal(masses, union[i].element);
    }
  }

  /** Two lists with the same elements, index by index, print the same
      elements in the same order. */
  lemma SameElements(r: seq<Focal>, u: seq<Focal>)
    requires |r| == |u| && forall i :: 0 <= i < |r| ==> r[i].element == u[i].element
    ensures Supports(r) == Supports(u)
    ensures Ascending(u) ==> Ascending(r)
  {
    assert forall i :: 0 <= i < |r| ==> Key(r[i]) == Key(u[i]);
  }

  /** The average lists every printed element of the inputs once, in
      compareTo order. */
  lemma AverageElements(masses: seq<seq<Focal>>)
    requires |masses| >= 2
    ensures Supports(Means(UnionOfSupports(masses), masses)) == AllSupports(masses)
    ensures Ascending(Means(UnionOfSupports(masses), masses))
  {
    var union := UnionOfSupports(masses);
    UnionOfSupportsProperties(masses);
    SameElements(Means(union, masses), union);
  }

  lemma {:induction false} BpaSumAppend(a: seq<seq<Focal>>, b: seq<seq<Focal>>, e: Element)
    ensures BpaSum(a + b, e) == BpaSum(a, e) + BpaSum(b, e)
    decreases |b|
  {
    if b == [] {
      assert a + b == a;
    } else {
      var n := |b| - 1;
      BpaSumAppend(a, b[..n], e);
      assert (a + b)[..|a + b| - 1] == a + b[..n];
    }
  }

  /** The sum does not depend on the order of the distributions. */
  lemma {:induction false} BpaSumPermutation(a: seq<seq<Focal>>, b: seq<seq<Focal>>, e: Element)
    requires multiset(a) == multiset(b)
    ensures BpaSum(a, e) == BpaSum(b, e)
    decreases |a|
  {
    if a != [] {
      var n := |a| - 1;
      var x := a[n];
      assert a == a[..n] + [x];
      assert x in multiset(b);
      var k :| 0 <= k < |b| && b[k] == x;
      var rest := b[..k] + b[k + 1..];
      assert b == b[..k] + [x] + b[k + 1..];
      assert multiset(b) == multiset(b[..k]) + multiset{x} + multiset(b[k + 1..]);
      assert multiset(rest) == multiset(b[..k]) + multiset(b[k + 1..]);
      assert multiset(rest) == multiset(b) - multiset{x};
      assert multiset(a) == multiset(a[..n]) + multiset{x};
      assert multiset(a[..n]) == multiset(a) - multiset{x};
      BpaSumPermutation(a[..n], rest, e);
      BpaSumAppend(b[..k] + [x], b[k + 1..], e);
      BpaSumAppend(b[..k], [x], e);
      BpaSumAppend(b[..k], b[k + 1..], e);
      assert BpaSum([x], e) == BpaOf(x, e) by {
        assert [x][..0] == [];
      }
    }
  }

  lemma {:induction false} AllSupportsMembers(masses: seq<seq<Focal>>, key: string)
    ensures key in AllSupports(masses) <==> exists m :: m in masses && key in Supports(m)
  {
    if masses != [] {
      var n := |masses| - 1;
      AllSupportsMembers(masses[..n], key);
      assert masses == masses[..n] + [masses[n]];
      if key in AllSupports(masses) && key !in Supports(masses[n]) {
        var m :| m in masses[..n] && key in Supports(m);
        assert m in masses;
      }
    }
  }

  /** The printed elements of the inputs do not depend on their order. */
  lemma AllSupportsPermutation(a: seq<seq<Focal>>, b: seq<seq<Focal>>)
    requires multiset(a) == multiset(b)
    ensures AllSupports(a) == AllSupports(b)
  {
    forall key ensures key in AllSupports(a) <==> key in AllSupports(b) {
      AllSupportsMembers(a, key);
      AllSupportsMembers(b, key);
      assert forall m :: m in a <==> m in multiset(a);
      assert forall m :: m in b <==> m in multiset(b);
    }
  }

  // ---------------------------------------------------------------- scalar

  /** A term of the scalar product fails exactly when both elements are empty. */
  lemma ScalarTermFails(p: Pair)
    ensures ScalarTerm(p).Failure? <==> p.left.element == [] && p.right.element == []
    ensures ScalarTerm(p).Failure? ==> ScalarTerm(p).error == DivisionByZero
  {
    UnionProperties(p.left.element, p.right.element);
  }

  lemma {:induction false} FilterMembers(e1: Element, e2: Element)
    requires NoDuplicates(e1)
    ensures NoDuplicates(Filter(e1, e2))
    ensures Members(Filter(e1, e2)) == Members(e1) * Members(e2)
  {
    if e1 != [] {
      var t, x := e1[..|e1| - 1], e1[|e1| - 1];
      assert NoDuplicates(t);
      FilterMembers(t, e2);
      assert e1 == t + [x];
      assert Members(e1) == Members(t) + {x};
      assert x !in Members(t);
      var f := Filter(t, e2);
      if x in e2 {
        var g := f + [x];
        assert Filter(e1, e2) == g;
        assert x !in Members(f);
        assert Members(g) == Members(f) + {x};
        forall i, j | 0 <= i < j < |g| ensures g[i] != g[j] {
          if j == |f| {
            assert g[i] == f[i] && f[i] in Members(f);
          } else {
            assert g[i] == f[i] && g[j] == f[j];
          }
        }
      } else {
        assert Filter(e1, e2) == f + [];
        assert x !in Members(e2);
        assert Members(e1) * Members(e2) == Members(t) * Members(e2);
      }
    }
  }

  /** A subset of a finite set is no larger, and as large only when it is
      the set itself. */
  lemma SubsetSize<T>(a: set<T>, b: set<T>)
    requires a <= b
    ensures |a| <= |b|
    ensures |a| == |b| ==> a == b
  {
    assert b == a + (b - a);
    assert |b| == |a| + |b - a|;
    if |a| == |b| {
      assert |b - a| == 0;
    }
  }

  /** Two sets meet in as many members as they have together exactly when
      they are equal. */
  lemma MeetJoinSize<T>(a: set<T>, b: set<T>)
    ensures |a * b| <= |a + b|
    ensures |a * b| == |a + b| <==> a == b
  {
    SubsetSize(a * b, a + b);
    if a == b {
      assert a * b == a + b;
    }
  }

  /** For elements without repeated hypotheses, the sizes getScalarProduct
      divides count the common hypotheses and all of them. */
  lemma ScalarSizes(e1: Element, e2: Element)
    requires NoDuplicates(e1) && NoDuplicates(e2)
    ensures SizeOf(Intersection(e1, e2)) == |Members(e1) * Members(e2)|
    ensures SizeOf(Union(e1, e2)) == |Members(e1) + Members(e2)|
  {
    IntersectionKeepsOrder(e1, e2);
    FilterMembers(e1, e2);
    DistinctCount(Common(e1, e2));
    UnionProperties(e1, e2);
    if Union(e1, e2).Some? {
      var u := Union(e1, e2).value;
      DistinctCount(u);
      assert Members(u) == Members(e1) + Members(e2);
    } else {
      assert Members(e1) == {} && Members(e2) == {};
    }
  }

  lemma WholeQuotient(i: int, n: int)
    requires 0 <= i <= n && n > 0
    ensures i / n == if i == n then 1 else 0
  {
  }

  /** getScalarProduct divides the intersection size by the union size as
      integers: for elements without repeated hypotheses a pair adds its
      mass when the two elements are equal and nothing otherwise. */
  lemma ScalarTermAllOrNothing(p: Pair)
    requires NoDuplicates(p.left.element) && NoDuplicates(p.right.element)
    requires p.left.element != [] || p.right.element != []
    ensures ScalarTerm(p) == Success(if Equals(p.left.element, p.right.element) then Mass(p) else 0.0)
  {
    var e1, e2 := p.left.element, p.right.element;
    ScalarSizes(e1, e2);
    ScalarTermFails(p);
    MeetJoinSize(Members(e1), Members(e2));
    WholeQuotient(|Members(e1) * Members(e2)|, |Members(e1) + Members(e2)|);
    EqualsIsSetEquality(e1, e2);
  }

  /** With a repeated hypothesis the intersection can outgrow the union:
      [h, h] and [h] are not equal, yet getIntersection lists h twice and the
      union holds h once, so the pair adds twice its mass. */
  lemma ScalarTermCountsRepeats(h: Hypothesis)
    ensures var p := Pair(Focal([h, h], 0.5), Focal([h], 0.5));
      && !Equals(p.left.element, p.right.element)
      && Mass(p) == 0.25
      && ScalarTerm(p) == Success(0.5)
  {
    RepeatSizes(h);
    ScalarTermSizes(Pair(Focal([h, h], 0.5), Focal([h], 0.5)), 2, 1);
  }

  lemma RepeatSizes(h: Hypothesis)
    ensures SizeOf(Intersection([h, h], [h])) == 2
    ensures SizeOf(Union([h, h], [h])) == 1
  {
    var hh, one: Element := [h, h], [h];
    assert Matches(h, one) == [h] by {
      assert one[..0] == [];
    }
    assert Common(one, one) == [h] by {
      assert one[..0] == [];
    }
    assert Common(hh, one) == Common(one, one) + Matches(h, one) by {
      assert hh[..1] == one;
    }
    UnionProperties(hh, one);
    var u := Union(hh, one).value;
    assert Members(u) == {h};
    DistinctCount(u);
  }

  // ------------------------------------------- similarity, support, credibility

  /** The similarity matrix has a row and a column per distribution, ones on
      its diagonal and is symmetric, each entry off the diagonal being the
      similarity of the two distributions with the lower index first. It
      fails only when a similarity fails, through a division by zero. */
  lemma SimilarityMatrixShape(masses: seq<seq<Focal>>, curve: SimilarityCurve)
    ensures SimilarityMatrix(masses, curve).Success? ==>
      var matrix := SimilarityMatrix(masses, curve).value;
      && |matrix| == |masses| && Square(matrix)
      && (forall i :: 0 <= i < |matrix| ==> matrix[i][i] == 1.0)
      && (forall i, j :: 0 <= i < |matrix| && 0 <= j < |matrix| ==> matrix[i][j] == matrix[j][i])
      && (forall i, j :: 0 <= i < j < |matrix| ==>
            Similarity(masses[i], masses[j], curve) == Success(matrix[i][j]))
    ensures SimilarityMatrix(masses, curve).Failure? <==>
      exists i, j :: 0 <= i < j < |masses| && Similarity(masses[i], masses[j], curve).Failure?
    ensures SimilarityMatrix(masses, curve).Failure? ==> SimilarityMatrix(masses, curve).error == DivisionByZero
  {
    if SimilarityMatrix(masses, curve).Success? {
      var matrix := SimilarityMatrix(masses, curve).value;
      forall i, j | 0 <= i < |matrix| && 0 <= j < |matrix| ensures matrix[i][j] == matrix[j][i] {
        assert matrix[i][j] == SimilarityEntry(masses, curve, i, j);
        assert matrix[j][i] == SimilarityEntry(masses, curve, j, i);
      }
      forall i, j | 0 <= i < j < |matrix| ensures Similarity(masses[i], masses[j], curve) == Success(matrix[i][j]) {
        assert matrix[i][j] == SimilarityEntry(masses, curve, i, j);
      }
    }
  }

  /** Leaving out the entry at index i of the first n entries subtracts it
      from their sum. */
  lemma {:induction false} SumExceptPrefix(row: seq<real>, i: nat, n: nat)
    requires n <= |row|
    ensures SumExcept(row, i, n) == Sum(row[..n]) - (if i < n then row[i] else 0.0)
  {
    if n > 0 {
      SumExceptPrefix(row, i, n - 1);
      assert row[..n][..n - 1] == row[..n - 1];
    }
  }

  /** getSupportDegree: the support of a distribution is the sum of its row
      of the similarity matrix without the diagonal entry, that is the sum of
      its similarities to all the other distributions. */
  lemma SupportIsOffDiagonalSum(matrix: seq<seq<real>>)
    requires Square(matrix)
    ensures |SupportDegree(matrix)| == |matrix|
    ensures forall i :: 0 <= i < |matrix| ==> SupportDegree(matrix)[i] == Sum(matrix[i]) - matrix[i][i]
  {
    forall i | 0 <= i < |matrix| ensures SupportDegree(matrix)[i] == Sum(matrix[i]) - matrix[i][i] {
      SumExceptPrefix(matrix[i], i, |matrix|);
      assert matrix[i][..|matrix|] == matrix[i];
    }
  }

  /** Dividing every entry by the same number divides the sum by it. */
  lemma {:induction false} ScaledSum(xs: seq<real>, total: real)
    requires total != 0.0
    ensures Sum(seq(|xs|, i requires 0 <= i < |xs| => xs[i] / total)) == Sum(xs) / total
  {
    var ys := seq(|xs|, i requires 0 <= i < |xs| => xs[i] / total);
    if xs != [] {
      var n := |xs| - 1;
      ScaledSum(xs[..n], total);
      assert ys[..n] == seq(n, i requires 0 <= i < n => xs[..n][i] / total);
      assert Sum(ys) == Sum(xs[..n]) / total + xs[n] / total;
    }
  }

  /** getCredibility: when the supports do not sum to zero the
      credibilities are the supports divided by their sum, and they sum to
      one; otherwise the credibilities are not finite. */
  lemma CredibilitySumsToOne(support: seq<real>)
    requires support != []
    ensures Credibility(support).None? <==> Sum(support) == 0.0
    ensures Credibility(support).Some? ==>
      |Credibility(support).value| == |support| && Sum(Credibility(support).value) == 1.0
  {
    if Sum(support) != 0.0 {
      ScaledSum(support, Sum(support));
      QuotientIsOne(Sum(support), Sum(support));
    }
  }

  // -------------------------------------------------------------- distance

  /** distance: when it succeeds, every element of the union of the supports
      carries the weighted sum of the bpas the distributions give it, with
      weights that are the credibilities, which sum to one. */
  lemma DistanceIsWeightedAverage(masses: seq<seq<Focal>>, curve: SimilarityCurve)
    requires |masses| >= 2 && DistanceRule(masses, curve).Success?
    ensures SimilarityMatrix(masses, curve).Success?
    ensures Square(SimilarityMatrix(masses, curve).value)
    ensures var matrix := SimilarityMatrix(masses, curve).value;
      var credibility := Credibility(SupportDegree(matrix));
      var union := UnionOfSupports(masses);
      var r := DistanceRule(masses, curve).value;
      && credibility.Some? && |credibility.value| == |masses| && Sum(credibility.value) == 1.0
      && |r| == |union|
      && forall i :: 0 <= i < |r| ==>
           r[i] == Focal(union[i].element, WeightedBpa(masses, credibility.value, union[i].element))
  {
    SimilarityMatrixShape(masses, curve);
    var matrix := SimilarityMatrix(masses, curve).value;
    CredibilitySumsToOne(SupportDegree(matrix));
  }

  /** With exactly two distributions the distance-evidence branch computes
      dempster of the weighted average with itself and then discards it: the
      weighted average is the result, unless that self-combination fails. */
  lemma DistanceTwoInputs(masses: seq<seq<Focal>>, curve: SimilarityCurve)
    requires |masses| == 2
    ensures DistanceOperator(masses, curve) ==
      match DistanceRule(masses, curve)
      case Failure(e) => Failure(e)
      case Success(average) =>
        var dd := DempsterRule(average, average);
        if dd.Failure? then Failure(dd.error) else Success(average)
  {
  }
}
