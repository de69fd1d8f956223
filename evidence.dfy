/** SourceOfEvidence.computeMass: turning the focal elements gathered from a
    source of evidence into a mass distribution. */
module Evidence {
  import opened Results
  import opened Elements
  import opened Masses

  /** No entry before entry i has an element equal to entry i's. */
  predicate FirstOccurrence(ev: seq<Focal>, i: nat)
    requires i < |ev|
  {
    forall k :: 0 <= k < i ==> !Equals(ev[k].element, ev[i].element)
  }

  /** The bpa the inner loop has gathered for entry i once it has looked at the
      entries before j: entry i's own bpa plus that of each later entry whose
      element entry i's element equals. */
  function Gathered(ev: seq<Focal>, i: nat, j: nat): real
    requires i < j <= |ev|
    decreases j
  {
    if j == i + 1 then ev[i].bpa
    else
      Gathered(ev, i, j - 1) +
        (if Equals(ev[i].element, ev[j - 1].element) then ev[j - 1].bpa else 0.0)
  }

  /** The body of evidence after the first n entries: one focal element per
      first occurrence, carrying the bpa gathered for it over all entries. */
  function MergedUpTo(ev: seq<Focal>, n: nat): seq<Focal>
    requires n <= |ev|
  {
    if n == 0 then []
    else
      MergedUpTo(ev, n - 1) +
        (if FirstOccurrence(ev, n - 1)
         then [Focal(ev[n - 1].element, Gathered(ev, n - 1, |ev|))]
         else [])
  }

  function Merged(ev: seq<Focal>): seq<Focal>
  {
    MergedUpTo(ev, |ev|)
  }

  /** The distribution computeMass builds: the merged body, and, when its bpas
      do not sum to one, the universal element carrying what is missing. */
  function ComputedMass(ev: seq<Focal>, universal: Element): seq<Focal>
  {
    Completed(Merged(ev), universal)
  }

  /** A body, followed, when its bpas do not sum to one, by the universal
      element carrying what is missing. */
  function Completed(body: seq<Focal>, universal: Element): seq<Focal>
  {
    if Valid(body) then body else body + [Focal(universal, 1.0 - Total(body))]
  }

  /** The indices, below n, of the entries that open a body entry. */
  function Kept(ev: seq<Focal>, n: nat): seq<nat>
    requires n <= |ev|
  {
    if n == 0 then []
    else Kept(ev, n - 1) + (if FirstOccurrence(ev, n - 1) then [n - 1] else [])
  }

  /** The elements of every entry are free of repeated hypotheses; on such
      evidence element equality is an equivalence. */
  predicate WellFormed(ev: seq<Focal>)
  {
    forall i :: 0 <= i < |ev| ==> NoDuplicates(ev[i].element)
  }

  /** The bpa of the entries whose element e equals. */
  function ClassSum(ev: seq<Focal>, e: Element): real
  {
    if ev == [] then 0.0
    else
      ClassSum(ev[..|ev| - 1], e) +
        (if Equals(e, ev[|ev| - 1].element) then ev[|ev| - 1].bpa else 0.0)
  }

  /** Kept lists, below n, first occurrences only. */
  lemma {:induction false} KeptSound(ev: seq<Focal>, n: nat)
    requires n <= |ev|
    ensures forall p :: 0 <= p < |Kept(ev, n)| ==>
      Kept(ev, n)[p] < n && FirstOccurrence(ev, Kept(ev, n)[p])
  {
    if n > 0 {
      KeptSound(ev, n - 1);
    }
  }

  /** Kept lists its indices in increasing order. */
  lemma {:induction false} KeptIncreasing(ev: seq<Focal>, n: nat)
    requires n <= |ev|
    ensures forall p, q :: 0 <= p < q < |Kept(ev, n)| ==> Kept(ev, n)[p] < Kept(ev, n)[q]
  {
    if n > 0 {
      KeptIncreasing(ev, n - 1);
      KeptSound(ev, n - 1);
    }
  }

  /** Kept lists every first occurrence below n. */
  lemma {:induction false} KeptComplete(ev: seq<Focal>, n: nat)
    requires n <= |ev|
    ensures forall i :: 0 <= i < n && FirstOccurrence(ev, i) ==> i in Kept(ev, n)
  {
    if n > 0 {
      KeptComplete(ev, n - 1);
    }
  }

  /** The body after n entries holds, position by position, the entries Kept
      names with their gathered bpa. */
  lemma {:induction false} MergedFollowsKept(ev: seq<Focal>, n: nat)
    requires n <= |ev|
    ensures |MergedUpTo(ev, n)| == |Kept(ev, n)|
    ensures forall p :: 0 <= p < |Kept(ev, n)| ==>
      Kept(ev, n)[p] < n &&
      MergedUpTo(ev, n)[p] == Focal(ev[Kept(ev, n)[p]].element, Gathered(ev, Kept(ev, n)[p], |ev|))
  {
    if n > 0 {
      MergedFollowsKept(ev, n - 1);
    }
  }

  lemma KeptProperties(ev: seq<Focal>, n: nat)
    requires n <= |ev|
    ensures forall p :: 0 <= p < |Kept(ev, n)| ==>
      Kept(ev, n)[p] < n && FirstOccurrence(ev, Kept(ev, n)[p])
    ensures forall p, q :: 0 <= p < q < |Kept(ev, n)| ==> Kept(ev, n)[p] < Kept(ev, n)[q]
    ensures forall i :: 0 <= i < n && FirstOccurrence(ev, i) ==> i in Kept(ev, n)
    ensures |MergedUpTo(ev, n)| == |Kept(ev, n)|
    ensures forall p :: 0 <= p < |Kept(ev, n)| ==>
      MergedUpTo(ev, n)[p] == Focal(ev[Kept(ev, n)[p]].element, Gathered(ev, Kept(ev, n)[p], |ev|))
  {
    KeptSound(ev, n);
    KeptIncreasing(ev, n);
    KeptComplete(ev, n);
    MergedFollowsKept(ev, n);
  }

  /** The body lists, in order, one entry for each first occurrence of an
      element, with that element and the bpa gathered for it. */
  lemma MergedEntries(ev: seq<Focal>)
    ensures |Merged(ev)| == |Kept(ev, |ev|)|
    ensures forall p :: 0 <= p < |Kept(ev, |ev|)| ==> Kept(ev, |ev|)[p] < |ev|
    ensures forall p, q :: 0 <= p < q < |Kept(ev, |ev|)| ==> Kept(ev, |ev|)[p] < Kept(ev, |ev|)[q]
    ensures forall i :: 0 <= i < |ev| ==> (i in Kept(ev, |ev|) <==> FirstOccurrence(ev, i))
    ensures forall p :: 0 <= p < |Merged(ev)| ==>
      Merged(ev)[p] == Focal(ev[Kept(ev, |ev|)[p]].element, Gathered(ev, Kept(ev, |ev|)[p], |ev|))
  {
    var n := |ev|;
    KeptProperties(ev, n);
    forall i | 0 <= i < n && i in Kept(ev, n) ensures FirstOccurrence(ev, i) {
      var p :| 0 <= p < |Kept(ev, n)| && Kept(ev, n)[p] == i;
    }
  }

  /** Each body entry after n entries carries the element of an earlier first occurrence. */
  lemma MergedElementsSound(ev: seq<Focal>, n: nat)
    requires n <= |ev|
    ensures forall x :: x in MergedUpTo(ev, n) ==>
      exists k :: 0 <= k < n && FirstOccurrence(ev, k) && x.element == ev[k].element
  {
    KeptSound(ev, n);
    MergedFollowsKept(ev, n);
    var m, kept := MergedUpTo(ev, n), Kept(ev, n);
    forall x | x in m
      ensures exists k :: 0 <= k < n && FirstOccurrence(ev, k) && x.element == ev[k].element
    {
      var p :| 0 <= p < |m| && m[p] == x;
      assert x.element == ev[kept[p]].element;
    }
  }

  /** Each first occurrence below n has its element in the body after n entries. */
  lemma MergedElementsComplete(ev: seq<Focal>, n: nat)
    requires n <= |ev|
    ensures forall k :: 0 <= k < n && FirstOccurrence(ev, k) ==>
      exists x :: x in MergedUpTo(ev, n) && x.element == ev[k].element
  {
    KeptComplete(ev, n);
    MergedFollowsKept(ev, n);
    var m, kept := MergedUpTo(ev, n), Kept(ev, n);
    forall k | 0 <= k < n && FirstOccurrence(ev, k)
      ensures exists x :: x in m && x.element == ev[k].element
    {
      var p :| 0 <= p < |kept| && kept[p] == k;
      assert m[p] in m;
    }
  }

  /** The body after n entries holds exactly the elements of the first occurrences below n. */
  lemma MergedElements(ev: seq<Focal>, n: nat)
    requires n <= |ev|
    ensures forall x :: x in MergedUpTo(ev, n) ==>
      exists k :: 0 <= k < n && FirstOccurrence(ev, k) && x.element == ev[k].element
    ensures forall k :: 0 <= k < n && FirstOccurrence(ev, k) ==>
      exists x :: x in MergedUpTo(ev, n) && x.element == ev[k].element
  {
    MergedElementsSound(ev, n);
    MergedElementsComplete(ev, n);
  }

  /** An entry equal to an earlier one is equal to a first occurrence no later
      than that one. */
  lemma {:induction false} EarliestEqual(ev: seq<Focal>, k: nat, i: nat)
    requires k < i < |ev| && Equals(ev[k].element, ev[i].element)
    ensures exists k0 :: 0 <= k0 <= k && FirstOccurrence(ev, k0) && Equals(ev[k0].element, ev[i].element)
    decreases k
  {
    if !FirstOccurrence(ev, k) {
      var k' :| 0 <= k' < k && Equals(ev[k'].element, ev[k].element);
      EqualsTransitive(ev[k'].element, ev[k].element, ev[i].element);
      EarliestEqual(ev, k', i);
    }
  }

  /** No element of the body built from the first i entries equals that of a
      first occurrence at i. */
  lemma FirstNotInMerged(ev: seq<Focal>, i: nat)
    requires i < |ev| && FirstOccurrence(ev, i)
    ensures forall f :: f in MergedUpTo(ev, i) ==> !Equals(f.element, ev[i].element)
  {
    MergedElements(ev, i);
    forall f | f in MergedUpTo(ev, i) ensures !Equals(f.element, ev[i].element) {
      var k :| 0 <= k < i && FirstOccurrence(ev, k) && f.element == ev[k].element;
    }
  }

  /** A first occurrence before n has its element in the body built from the
      first n entries. */
  lemma FirstInMerged(ev: seq<Focal>, n: nat, k: nat)
    requires k < n <= |ev| && FirstOccurrence(ev, k)
    ensures exists x :: x in MergedUpTo(ev, n) && x.element == ev[k].element
  {
    MergedElements(ev, n);
  }

  /** Some element of the body built from the first i entries equals that of
      an entry at i that repeats an earlier one. */
  lemma RepeatInMerged(ev: seq<Focal>, i: nat)
    requires i < |ev| && !FirstOccurrence(ev, i)
    ensures exists f :: f in MergedUpTo(ev, i) && Equals(f.element, ev[i].element)
  {
    var k :| 0 <= k < i && Equals(ev[k].element, ev[i].element);
    EarliestEqual(ev, k, i);
    var k0 :| 0 <= k0 <= k && FirstOccurrence(ev, k0) && Equals(ev[k0].element, ev[i].element);
    FirstInMerged(ev, i, k0);
    var x :| x in MergedUpTo(ev, i) && x.element == ev[k0].element;
    assert Equals(x.element, ev[i].element);
  }

  /** The body built from the first i entries has no element equal to entry
      i's exactly when entry i is a first occurrence. */
  lemma FindInMerged(ev: seq<Focal>, i: nat)
    requires i < |ev|
    ensures FindElement(MergedUpTo(ev, i), ev[i].element).None? <==> FirstOccurrence(ev, i)
  {
    FindElementFirst(MergedUpTo(ev, i), ev[i].element);
    if FirstOccurrence(ev, i) {
      FirstNotInMerged(ev, i);
    } else {
      RepeatInMerged(ev, i);
      var f :| f in MergedUpTo(ev, i) && Equals(f.element, ev[i].element);
    }
  }

  /** computeMass: for each entry, the nested loop gathers the bpa of the
      later entries with an equal element; the entry joins the body only when
      no equal element is already there. The universal element is appended
      when the body is not valid. */
  method ComputeMass(focalEvidence: seq<Focal>, universal: Element) returns (mass: MassDistribution)
    ensures fresh(mass)
    ensures mass.elements == Some(ComputedMass(focalEvidence, universal))
  {
    var ev := focalEvidence;
    var body: seq<Focal> := [];
    for i := 0 to |ev|
      invariant body == MergedUpTo(ev, i)
    {
      var focal := ev[i];
      var bpa := focal.bpa;
      for j := i + 1 to |ev|
        invariant bpa == Gathered(ev, i, j)
      {
        if Equals(focal.element, ev[j].element) {
          bpa := bpa + ev[j].bpa;
        }
      }
      FindInMerged(ev, i);
      if FindElement(body, focal.element).None? {
        body := body + [Focal(focal.element, bpa)];
      }
    }
    mass := new MassDistribution(Some(body));
    var valid := mass.IsValid();
    if !valid {
      var total := mass.TotalBpa();
      mass.AddElement(Focal(universal, 1.0 - total));
    }
  }

  /** No two entries of the body have equal elements. */
  lemma MergedPairwiseDistinct(ev: seq<Focal>)
    ensures forall p, q :: 0 <= p < q < |Merged(ev)| ==>
      !Equals(Merged(ev)[p].element, Merged(ev)[q].element)
  {
    MergedEntries(ev);
    var kept := Kept(ev, |ev|);
    forall p, q | 0 <= p < q < |Merged(ev)|
      ensures !Equals(Merged(ev)[p].element, Merged(ev)[q].element)
    {
      assert kept[q] in kept;
      assert FirstOccurrence(ev, kept[q]);
    }
  }

  /** Before a first occurrence, no entry is in its class. */
  lemma {:induction false} ClassSumBefore(ev: seq<Focal>, i: nat, n: nat)
    requires WellFormed(ev) && i < |ev| && FirstOccurrence(ev, i) && n <= i
    ensures ClassSum(ev[..n], ev[i].element) == 0.0
  {
    if n > 0 {
      ClassSumBefore(ev, i, n - 1);
      assert ev[..n][..n - 1] == ev[..n - 1];
      if Equals(ev[i].element, ev[n - 1].element) {
        EqualsSymmetric(ev[i].element, ev[n - 1].element);
        assert false;
      }
    }
  }

  /** From a first occurrence on, the class sum is what the inner loop gathers. */
  lemma {:induction false} ClassSumGathered(ev: seq<Focal>, i: nat, j: nat)
    requires WellFormed(ev) && i < j <= |ev| && FirstOccurrence(ev, i)
    ensures ClassSum(ev[..j], ev[i].element) == Gathered(ev, i, j)
    decreases j
  {
    assert ev[..j][..j - 1] == ev[..j - 1];
    if j == i + 1 {
      ClassSumBefore(ev, i, i);
    } else {
      ClassSumGathered(ev, i, j - 1);
    }
  }

  /** On well-formed evidence, each body entry carries the total bpa of the
      entries with an equal element. */
  lemma MergedBpaIsClassSum(ev: seq<Focal>)
    requires WellFormed(ev)
    ensures forall p :: 0 <= p < |Merged(ev)| ==>
      Merged(ev)[p].bpa == ClassSum(ev, Merged(ev)[p].element)
  {
    MergedEntries(ev);
    var kept := Kept(ev, |ev|);
    forall p | 0 <= p < |Merged(ev)|
      ensures Merged(ev)[p].bpa == ClassSum(ev, Merged(ev)[p].element)
    {
      assert kept[p] in kept;
      ClassSumGathered(ev, kept[p], |ev|);
      assert ev[..|ev|] == ev;
    }
  }

  /** Gathering looks only at the entries before j. */
  lemma {:induction false} GatheredPrefix(ev: seq<Focal>, m: nat, i: nat, j: nat)
    requires i < j <= m <= |ev|
    ensures Gathered(ev[..m], i, j) == Gathered(ev, i, j)
    decreases j
  {
    if j > i + 1 {
      GatheredPrefix(ev, m, i, j - 1);
    }
  }

  /** The mass the last entry adds to the first occurrences, before n, of
      elements equal to its own. */
  function LastShare(ev: seq<Focal>, n: nat): real
    requires n < |ev|
  {
    if n == 0 then 0.0
    else
      LastShare(ev, n - 1) +
        (if FirstOccurrence(ev, n - 1) && Equals(ev[n - 1].element, ev[|ev| - 1].element)
         then ev[|ev| - 1].bpa else 0.0)
  }

  /** Two elements equal to a third are equal to each other. */
  lemma EqualToSame(a: Element, b: Element, c: Element)
    requires NoDuplicates(b) && NoDuplicates(c) && Equals(a, c) && Equals(b, c)
    ensures Equals(a, b)
  {
    EqualsSymmetric(b, c);
    EqualsTransitive(a, c, b);
  }

  /** Some first occurrence before n has an element equal to the last entry's. */
  predicate SharesWithLast(ev: seq<Focal>, n: nat)
    requires n < |ev|
  {
    exists k :: 0 <= k < n && FirstOccurrence(ev, k) && Equals(ev[k].element, ev[|ev| - 1].element)
  }

  /** Equal elements have at most one first occurrence, so the last entry's
      bpa is shared out once or not at all. */
  lemma {:induction false} LastShareOnce(ev: seq<Focal>, n: nat)
    requires WellFormed(ev) && n < |ev|
    ensures LastShare(ev, n) == if SharesWithLast(ev, n) then ev[|ev| - 1].bpa else 0.0
  {
    if n > 0 {
      LastShareOnce(ev, n - 1);
      var last := ev[|ev| - 1].element;
      var k := n - 1;
      if FirstOccurrence(ev, k) && Equals(ev[k].element, last) {
        assert SharesWithLast(ev, n);
        if SharesWithLast(ev, k) {
          var k' :| 0 <= k' < k && FirstOccurrence(ev, k') && Equals(ev[k'].element, last);
          EqualToSame(ev[k'].element, ev[k].element, last);
          assert false;
        }
      } else if SharesWithLast(ev, n) {
        var k' :| 0 <= k' < n && FirstOccurrence(ev, k') && Equals(ev[k'].element, last);
        if k' == k {
          assert false;
        }
        assert SharesWithLast(ev, k);
      }
    }
  }

  /** The bpa of the body after the first n entries, added up entry by entry. */
  function MergedTotal(ev: seq<Focal>, n: nat): real
    requires n <= |ev|
  {
    if n == 0 then 0.0
    else MergedTotal(ev, n - 1) + (if FirstOccurrence(ev, n - 1) then Gathered(ev, n - 1, |ev|) else 0.0)
  }

  /** MergedTotal is the total of the body. */
  lemma {:induction false} MergedTotalIsTotal(ev: seq<Focal>, n: nat)
    requires n <= |ev|
    ensures Total(MergedUpTo(ev, n)) == MergedTotal(ev, n)
  {
    if n > 0 {
      MergedTotalIsTotal(ev, n - 1);
      var a := if FirstOccurrence(ev, n - 1) then [Focal(ev[n - 1].element, Gathered(ev, n - 1, |ev|))] else [];
      TotalAppend(MergedUpTo(ev, n - 1), a);
      if a != [] {
        assert a[..0] == [];
      }
    }
  }

  /** Whether an entry is a first occurrence does not depend on later entries. */
  lemma FirstOccurrencePrefix(ev: seq<Focal>, m: nat, k: nat)
    requires k < m <= |ev|
    ensures FirstOccurrence(ev[..m], k) == FirstOccurrence(ev, k)
  {
    assert forall j :: 0 <= j <= k ==> ev[..m][j] == ev[j];
  }

  /** Dropping the last entry takes its bpa away from the body entries whose
      elements equal it and leaves the others unchanged. */
  lemma {:induction false} DropLast(ev: seq<Focal>, n: nat)
    requires 0 < |ev| && n < |ev|
    ensures MergedTotal(ev, n) == MergedTotal(ev[..|ev| - 1], n) + LastShare(ev, n)
  {
    var ev' := ev[..|ev| - 1];
    if n > 0 {
      var k := n - 1;
      DropLast(ev, k);
      FirstOccurrencePrefix(ev, |ev| - 1, k);
      GatheredPrefix(ev, |ev| - 1, k, |ev| - 1);
      assert Gathered(ev', k, |ev'|) == Gathered(ev, k, |ev| - 1);
    }
  }

  /** On well-formed evidence, merging neither loses nor duplicates mass: the
      body's bpas add up to those of the evidence. */
  lemma {:induction false} MassConserved(ev: seq<Focal>)
    requires WellFormed(ev)
    ensures Total(Merged(ev)) == Total(ev)
    decreases |ev|
  {
    if ev != [] {
      var n := |ev| - 1;
      var ev' := ev[..n];
      MassConserved(ev');
      MergedTotalIsTotal(ev', n);
      MergedTotalIsTotal(ev, |ev|);
      DropLast(ev, n);
      LastShareOnce(ev, n);
      if FirstOccurrence(ev, n) {
        assert !SharesWithLast(ev, n);
      } else {
        var k :| 0 <= k < n && Equals(ev[k].element, ev[n].element);
        EarliestEqual(ev, k, n);
        assert SharesWithLast(ev, n);
      }
    }
  }

  /** computeMass always yields a valid distribution: the body, unchanged,
      followed by at most one further entry. */
  lemma ComputedMassIsValid(ev: seq<Focal>, universal: Element)
    ensures Valid(ComputedMass(ev, universal))
    ensures ComputedMass(ev, universal)[..|Merged(ev)|] == Merged(ev)
    ensures |Merged(ev)| <= |ComputedMass(ev, universal)| <= |Merged(ev)| + 1
    ensures Valid(Merged(ev)) <==> ComputedMass(ev, universal) == Merged(ev)
  {
    var body := Merged(ev);
    if !Valid(body) {
      TotalAppend(body, [Focal(universal, 1.0 - Total(body))]);
      assert (body + [Focal(universal, 1.0 - Total(body))])[..|body|] == body;
    }
  }

  /** On well-formed evidence whose bpas do not sum to one, the universal
      element is appended with exactly the mass the evidence lacks. */
  lemma UniversalTakesRemainder(ev: seq<Focal>, universal: Element)
    requires WellFormed(ev) && Total(ev) != 1.0
    ensures ComputedMass(ev, universal) == Merged(ev) + [Focal(universal, 1.0 - Total(ev))]
  {
    MassConserved(ev);
  }

  /** The universal element is appended as a new entry even when the body
      already holds it. */
  lemma UniversalAppendedEvenIfPresent()
    ensures ComputedMass([Focal(["A", "B"], 0.5)], ["A", "B"]) ==
      [Focal(["A", "B"], 0.5), Focal(["A", "B"], 0.5)]
  {
    var ev := [Focal(["A", "B"], 0.5)];
    assert FirstOccurrence(ev, 0);
    assert MergedUpTo(ev, 0) == [];
    assert Gathered(ev, 0, 1) == 0.5;
    assert Merged(ev) == [Focal(["A", "B"], 0.5)];
    assert Total(Merged(ev)) == 0.5 by {
      assert Merged(ev)[..0] == [];
    }
  }

  lemma SingleTotals(d: seq<Focal>)
    ensures forall i :: 0 <= i < |d| ==> Total([d[i]]) == d[i].bpa
  {
    forall i | 0 <= i < |d| ensures Total([d[i]]) == d[i].bpa {
      assert [d[i]][..0] == [];
    }
  }

  /** Off well-formed evidence the merge can create mass. Element equality
      only checks sizes and that the other element holds each hypothesis, so
      [A, B] equals both [A, A] and [B, B] and its bpa is added to each. The
      input sums to one; the body sums to 1.5 and the universal element is
      appended with bpa -0.5. */
  lemma DuplicatesCreateMass(universal: Element)
    ensures var ev := [Focal(["A", "A"], 0.2), Focal(["B", "B"], 0.3), Focal(["A", "B"], 0.5)];
      && !WellFormed(ev)
      && Total(ev) == 1.0
      && Merged(ev) == [Focal(["A", "A"], 0.7), Focal(["B", "B"], 0.8)]
      && Total(Merged(ev)) == 1.5
      && ComputedMass(ev, universal) == Merged(ev) + [Focal(universal, -0.5)]
  {
    var a, b, ab: Element := ["A", "A"], ["B", "B"], ["A", "B"];
    var ev := [Focal(a, 0.2), Focal(b, 0.3), Focal(ab, 0.5)];
    assert !NoDuplicates(a) by {
      assert a[0] == a[1];
    }
    assert !Equals(a, b) by {
      assert "A" in a && "A" !in b;
    }
    assert Equals(a, ab) && Equals(b, ab);
    assert ev[0].element == a && ev[1].element == b && ev[2].element == ab;
    assert FirstOccurrence(ev, 0) && FirstOccurrence(ev, 1) && !FirstOccurrence(ev, 2);
    assert Gathered(ev, 0, 3) == 0.7;
    assert Gathered(ev, 1, 3) == 0.8;
    assert MergedUpTo(ev, 1) == [Focal(a, 0.7)];
    assert MergedUpTo(ev, 2) == [Focal(a, 0.7), Focal(b, 0.8)];
    assert Total(ev) == 1.0 by {
      SingleTotals([ev[0], ev[1], ev[2]]);
      TotalAppend([ev[0]], [ev[1]]);
      TotalAppend([ev[0], ev[1]], [ev[2]]);
      assert ev == [ev[0], ev[1]] + [ev[2]];
    }
    var body := Merged(ev);
    assert Total(body) == 1.5 by {
      SingleTotals(body);
      TotalAppend([body[0]], [body[1]]);
      assert body == [body[0]] + [body[1]];
    }
  }
}
