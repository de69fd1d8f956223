/** Element.java: subsets of the frame of discernment and their set algebra,
    and the lookups the combination rules make on lists of focal elements. */
module Elements {
  import opened Results
  import JavaStrings
  import TreeSets

  /** A hypothesis of the frame of discernment, identified by its name. Its
      printed form and its order are those of the name. */
  type Hypothesis = string

  /** An element of the power set: its hypotheses, in the order of its list. */
  type Element = seq<Hypothesis>

  /** An element together with its basic probability assignment (bpa). */
  datatype Focal = Focal(element: Element, bpa: real)

  /** The set of hypotheses of e. */
  ghost function Members(e: Element): set<Hypothesis>
  {
    set h | h in e
  }

  predicate NoDuplicates(e: Element)
  {
    forall i, j :: 0 <= i < j < |e| ==> e[i] != e[j]
  }

  /** Element.isSingleton. */
  function IsSingleton(e: Element): (b: bool)
    ensures b <==> exists h :: e == [h]
  {
    assert |e| == 1 ==> e == [e[0]];
    |e| == 1
  }

  // ---------------------------------------------------------------- equals

  /** Element.equals: the other element has as many hypotheses as this one and
      contains every one of them. */
  predicate Equals(a: Element, b: Element)
  {
    |b| == |a| && forall h :: h in a ==> h in b
  }

  lemma EqualsTransitive(a: Element, b: Element, c: Element)
    requires Equals(a, b) && Equals(b, c)
    ensures Equals(a, c)
  {
  }

  /** A list without duplicates has as many distinct hypotheses as entries. */
  lemma {:induction false} DistinctCount(e: Element)
    requires NoDuplicates(e)
    ensures |Members(e)| == |e|
  {
    if e != [] {
      var t, x := e[..|e| - 1], e[|e| - 1];
      assert NoDuplicates(t) by {
        forall i, j | 0 <= i < j < |t| ensures t[i] != t[j] {
          assert t[i] == e[i] && t[j] == e[j];
        }
      }
      DistinctCount(t);
      assert x !in Members(t) by {
        forall i | 0 <= i < |t| ensures t[i] != x {
          assert t[i] == e[i];
        }
      }
      assert e == t + [x];
      assert Members(e) == Members(t) + {x};
    }
  }

  /** Without duplicates, equals is equality of the hypothesis sets: it does
      not depend on the order of the lists. */
  lemma EqualsIsSetEquality(a: Element, b: Element)
    requires NoDuplicates(a) && NoDuplicates(b)
    ensures Equals(a, b) <==> Members(a) == Members(b)
  {
    var sa, sb := Members(a), Members(b);
    DistinctCount(a);
    DistinctCount(b);
    if Equals(a, b) {
      assert sa <= sb;
      assert |sb - sa| == |sb| - |sa|;
      assert sb - sa == {};
      assert sb <= sa;
    } else if sa == sb {
      assert |a| == |b|;
      forall h | h in a ensures h in b {
        assert h in sa;
      }
      assert false;
    }
  }

  lemma EqualsSymmetric(a: Element, b: Element)
    requires NoDuplicates(a) && NoDuplicates(b) && Equals(a, b)
    ensures Equals(b, a)
  {
    EqualsIsSetEquality(a, b);
    forall h | h in b ensures h in a {
      assert h in Members(b);
      assert h in Members(a);
    }
  }

  // ------------------------------------------------------------- compareTo

  /** The hypotheses printed one after the other, separated by ", ". */
  function Join(e: Element): string
  {
    if |e| == 0 then ""
    else if |e| == 1 then e[0]
    else e[0] + ", " + Join(e[1..])
  }

  /** The hypothesis list as ArrayList.toString prints it. */
  function Render(e: Element): string
  {
    "[" + Join(e) + "]"
  }

  /** Element.compareTo: the printed form of the OTHER list compared with that
      of this one, so the order is the reverse of the order of the strings. */
  function CompareTo(a: Element, b: Element): (r: int)
    ensures r == 0 <==> Render(a) == Render(b)
    ensures r == -JavaStrings.CompareTo(Render(a), Render(b))
  {
    JavaStrings.CompareToAntisymmetric(Render(a), Render(b));
    JavaStrings.CompareTo(Render(b), Render(a))
  }

  /** compareTo sees the order of the hypotheses where equals does not. */
  lemma CompareToSeesOrder()
    ensures Equals(["A", "B"], ["B", "A"])
    ensures CompareTo(["A", "B"], ["B", "A"]) > 0
  {
    assert Render(["A", "B"]) == "[A, B]";
    assert Render(["B", "A"]) == "[B, A]";
    assert JavaStrings.CompareTo("[B, A]", "[A, B]") == JavaStrings.CompareTo("B, A]", "A, B]");
  }

  // ---------------------------------------------------------- intersection

  /** One copy of h for each occurrence of h in e. */
  function Matches(h: Hypothesis, e: Element): seq<Hypothesis>
  {
    if e == [] then []
    else Matches(h, e[..|e| - 1]) + (if e[|e| - 1] == h then [h] else [])
  }

  /** The hypotheses the nested loops of getIntersection collect: each
      hypothesis of e1, in e1's order, once for every time it occurs in e2. */
  function Common(e1: Element, e2: Element): seq<Hypothesis>
  {
    if e1 == [] then []
    else Common(e1[..|e1| - 1], e2) + Matches(e1[|e1| - 1], e2)
  }

  /** Element.getIntersection; None stands for the null it returns when the
      two elements have no hypothesis in common. */
  function Intersection(e1: Element, e2: Element): Option<Element>
  {
    var c := Common(e1, e2);
    if |c| > 0 then Some(c) else None
  }

  lemma {:induction false} MatchesMembers(h: Hypothesis, e: Element)
    ensures forall x :: x in Matches(h, e) <==> x == h && h in e
  {
    if e != [] {
      MatchesMembers(h, e[..|e| - 1]);
      assert e == e[..|e| - 1] + [e[|e| - 1]];
    }
  }

  lemma {:induction false} CommonMembers(e1: Element, e2: Element)
    ensures forall h :: h in Common(e1, e2) <==> h in e1 && h in e2
  {
    if e1 != [] {
      CommonMembers(e1[..|e1| - 1], e2);
      MatchesMembers(e1[|e1| - 1], e2);
      assert e1 == e1[..|e1| - 1] + [e1[|e1| - 1]];
    }
  }

  /** The intersection is missing exactly when the elements share no
      hypothesis, and otherwise holds exactly the shared hypotheses. */
  lemma IntersectionMembers(e1: Element, e2: Element)
    ensures Intersection(e1, e2).None? <==> forall h :: h in e1 ==> h !in e2
    ensures Intersection(e1, e2).Some? ==>
      forall h :: h in Intersection(e1, e2).value <==> h in e1 && h in e2
  {
    var c := Common(e1, e2);
    CommonMembers(e1, e2);
    if c != [] {
      assert c[0] in c;
    }
  }

  /** The hypotheses of e1 that occur in e2, in e1's order. */
  function Filter(e1: Element, e2: Element): seq<Hypothesis>
  {
    if e1 == [] then []
    else Filter(e1[..|e1| - 1], e2) + (if e1[|e1| - 1] in e2 then [e1[|e1| - 1]] else [])
  }

  lemma {:induction false} MatchesWithoutDuplicates(h: Hypothesis, e: Element)
    requires NoDuplicates(e)
    ensures Matches(h, e) == if h in e then [h] else []
  {
    if e != [] {
      var t := e[..|e| - 1];
      assert NoDuplicates(t);
      MatchesWithoutDuplicates(h, t);
      assert e == t + [e[|e| - 1]];
    }
  }

  /** When e2 has no duplicates, the intersection lists the common hypotheses
      once each, in e1's order. */
  lemma {:induction false} IntersectionKeepsOrder(e1: Element, e2: Element)
    requires NoDuplicates(e2)
    ensures Common(e1, e2) == Filter(e1, e2)
  {
    if e1 != [] {
      IntersectionKeepsOrder(e1[..|e1| - 1], e2);
      MatchesWithoutDuplicates(e1[|e1| - 1], e2);
    }
  }

  /** getIntersection, with its nested loops. */
  method GetIntersection(element1: Element, element2: Element) returns (r: Option<Element>)
    ensures r == Intersection(element1, element2)
  {
    var common: seq<Hypothesis> := [];
    for i := 0 to |element1|
      invariant common == Common(element1[..i], element2)
    {
      var h1 := element1[i];
      for j := 0 to |element2|
        invariant common == Common(element1[..i], element2) + Matches(h1, element2[..j])
      {
        assert element2[..j + 1][..j] == element2[..j];
        if h1 == element2[j] {
          common := common + [h1];
        }
      }
      assert element2[..|element2|] == element2;
      assert element1[..i + 1][..i] == element1[..i];
    }
    assert element1[..|element1|] == element1;
    if |common| > 0 {
      r := Some(common);
    } else {
      r := None;
    }
  }

  // ----------------------------------------------------------------- union

  function HypothesisKey(h: Hypothesis): string
  {
    h
  }

  /** Element.getUnion: a TreeSet of the hypotheses of both elements; None
      stands for the null it returns when that set is empty. */
  function Union(e1: Element, e2: Element): Option<Element>
  {
    var u := TreeSets.AddAll(TreeSets.FromList(e1, HypothesisKey, false), e2, HypothesisKey, false);
    if |u| > 0 then Some(u) else None
  }

  lemma HypothesisKeys(s: seq<Hypothesis>)
    ensures TreeSets.Keys(s, HypothesisKey) == Members(s)
  {
    assert forall h :: h in s ==> exists i :: 0 <= i < |s| && s[i] == h;
  }

  /** The union holds every hypothesis of either element, each once, in name
      order; it is null only when both elements are empty. */
  lemma UnionProperties(e1: Element, e2: Element)
    ensures Union(e1, e2).None? <==> e1 == [] && e2 == []
    ensures Union(e1, e2).Some? ==>
              && (forall h :: h in Union(e1, e2).value <==> h in e1 || h in e2)
              && NoDuplicates(Union(e1, e2).value)
              && TreeSets.Sorted(Union(e1, e2).value, HypothesisKey, false)
  {
    var s := TreeSets.FromList(e1, HypothesisKey, false);
    var u := TreeSets.AddAll(s, e2, HypothesisKey, false);
    TreeSets.AddAllKeys([], e1, HypothesisKey, false);
    TreeSets.AddAllKeys(s, e2, HypothesisKey, false);
    TreeSets.AddAllSorted([], e1, HypothesisKey, false);
    TreeSets.AddAllSorted(s, e2, HypothesisKey, false);
    HypothesisKeys([]);
    HypothesisKeys(e1);
    HypothesisKeys(e2);
    HypothesisKeys(s);
    HypothesisKeys(u);
    assert TreeSets.Keys([], HypothesisKey) == {};
    assert TreeSets.Keys(s, HypothesisKey) == TreeSets.Keys(e1, HypothesisKey);
    assert Members(u) == Members(e1) + Members(e2);
    forall i, j | 0 <= i < j < |u| ensures u[i] != u[j] {
      TreeSets.SortedKeysDistinct(u, HypothesisKey, false, i, j);
    }
    forall h ensures h in u <==> h in e1 || h in e2 {
      assert h in u <==> h in Members(u);
      assert h in e1 <==> h in Members(e1);
      assert h in e2 <==> h in Members(e2);
    }
    if e1 != [] {
      assert e1[0] in e1;
    } else if e2 != [] {
      assert e2[0] in e2;
    }
  }

  // ------------------------------------------------- union of the supports

  /** The key a TreeSet of focal elements orders by: the printed element. */
  function Key(f: Focal): string
  {
    Render(f.element)
  }

  /** The printed elements of a list of focal elements. */
  ghost function Supports(l: seq<Focal>): set<string>
  {
    TreeSets.Keys(l, Key)
  }

  /** Strictly ascending in the order of Element.compareTo. */
  ghost predicate Ascending(l: seq<Focal>)
  {
    forall i, j :: 0 <= i < j < |l| ==> CompareTo(l[i].element, l[j].element) < 0
  }

  lemma AscendingIsSorted(l: seq<Focal>)
    ensures Ascending(l) <==> TreeSets.Sorted(l, Key, true)
  {
    assert forall f, g :: TreeSets.Compare(Key, true, f, g) == CompareTo(f.element, g.element);
  }

  /** Element.getMassUnionElement(list1, list2): new TreeSet(list1).addAll(new TreeSet(list2)). */
  function MassUnion(l1: seq<Focal>, l2: seq<Focal>): seq<Focal>
  {
    TreeSets.AddAll(TreeSets.FromList(l1, Key, true), TreeSets.FromList(l2, Key, true), Key, true)
  }

  lemma FromListProperties(l: seq<Focal>)
    ensures TreeSets.Sorted(TreeSets.FromList(l, Key, true), Key, true)
    ensures Supports(TreeSets.FromList(l, Key, true)) == Supports(l)
    ensures forall g :: g in TreeSets.FromList(l, Key, true) ==> g in l
  {
    TreeSets.AddAllSorted([], l, Key, true);
    TreeSets.AddAllKeys([], l, Key, true);
    TreeSets.AddAllMembers([], l, Key, true);
  }

  /** The union is ordered by compareTo, so no two of its entries compare
      equal; it represents every element of either list; and an entry comes
      from list2 only when list1 had no element printing the same. */
  lemma MassUnionProperties(l1: seq<Focal>, l2: seq<Focal>)
    ensures Ascending(MassUnion(l1, l2))
    ensures Supports(MassUnion(l1, l2)) == Supports(l1) + Supports(l2)
    ensures forall g :: g in MassUnion(l1, l2) ==>
              g in l1 || (g in l2 && Key(g) !in Supports(l1))
  {
    var s1 := TreeSets.FromList(l1, Key, true);
    var s2 := TreeSets.FromList(l2, Key, true);
    FromListProperties(l1);
    FromListProperties(l2);
    TreeSets.AddAllSorted(s1, s2, Key, true);
    TreeSets.AddAllKeys(s1, s2, Key, true);
    TreeSets.AddAllMembers(s1, s2, Key, true);
    AscendingIsSorted(MassUnion(l1, l2));
  }

  /** The left fold of the pairwise union over the first n distributions. */
  function UnionOfSupports(masses: seq<seq<Focal>>): seq<Focal>
    requires |masses| >= 2
    decreases |masses|
  {
    if |masses| == 2 then MassUnion(masses[0], masses[1])
    else MassUnion(UnionOfSupports(masses[..|masses| - 1]), masses[|masses| - 1])
  }

  /** Element.getMassUnionElement(masses); None stands for the null it returns
      for fewer than two distributions. */
  function MassUnionAll(masses: seq<seq<Focal>>): Option<seq<Focal>>
  {
    if |masses| >= 2 then Some(UnionOfSupports(masses)) else None
  }

  /** The printed elements of all the distributions. */
  ghost function AllSupports(masses: seq<seq<Focal>>): set<string>
  {
    if masses == [] then {} else AllSupports(masses[..|masses| - 1]) + Supports(masses[|masses| - 1])
  }

  /** The union of the supports is ordered by compareTo and represents every
      element of every distribution. */
  lemma {:induction false} UnionOfSupportsProperties(masses: seq<seq<Focal>>)
    requires |masses| >= 2
    ensures Ascending(UnionOfSupports(masses))
    ensures Supports(UnionOfSupports(masses)) == AllSupports(masses)
    decreases |masses|
  {
    var n := |masses|;
    var prefix := masses[..n - 1];
    var u := UnionOfSupports(masses);
    if n == 2 {
      assert u == MassUnion(masses[0], masses[1]);
      MassUnionProperties(masses[0], masses[1]);
      assert prefix[..0] == [];
      assert AllSupports(prefix) == Supports(masses[0]);
    } else {
      assert u == MassUnion(UnionOfSupports(prefix), masses[n - 1]);
      UnionOfSupportsProperties(prefix);
      MassUnionProperties(UnionOfSupports(prefix), masses[n - 1]);
    }
  }

  /** Each entry of the union of the supports is taken from one of the distributions. */
  lemma {:induction false} UnionOfSupportsMembers(masses: seq<seq<Focal>>, g: Focal)
    requires |masses| >= 2 && g in UnionOfSupports(masses)
    ensures exists k :: 0 <= k < |masses| && g in masses[k]
    decreases |masses|
  {
    var n := |masses|;
    if n == 2 {
      MassUnionProperties(masses[0], masses[1]);
      assert g in masses[0] || g in masses[1];
    } else {
      var prefix := masses[..n - 1];
      MassUnionProperties(UnionOfSupports(prefix), masses[n - 1]);
      if g in UnionOfSupports(prefix) {
        UnionOfSupportsMembers(prefix, g);
        var k :| 0 <= k < n - 1 && g in prefix[k];
        assert g in masses[k];
      } else {
        assert g in masses[n - 1];
      }
    }
  }

  /** getMassUnionElement(masses), with its fold loop. */
  method GetMassUnionElement(masses: seq<seq<Focal>>) returns (union: Option<seq<Focal>>)
    ensures union == MassUnionAll(masses)
  {
    union := None;
    if |masses| >= 2 {
      var u := MassUnion(masses[0], masses[1]);
      assert masses[..2] == [masses[0], masses[1]];
      for i := 2 to |masses|
        invariant u == UnionOfSupports(masses[..i])
      {
        assert masses[..i + 1][..i] == masses[..i];
        u := MassUnion(u, masses[i]);
      }
      assert masses[..|masses|] == masses;
      union := Some(u);
    }
  }

  // ------------------------------------------------------------ findElement

  /** FocalElement.findElement: the first focal element of the list whose
      element equals e (Element.equals), or None. */
  function FindElement(list: seq<Focal>, e: Element): Option<Focal>
  {
    if list == [] then None
    else if Equals(list[0].element, e) then Some(list[0])
    else FindElement(list[1..], e)
  }

  /** findElement finds nothing exactly when no element of the list equals e,
      and otherwise the first focal element whose element equals e. */
  lemma {:induction false} FindElementFirst(list: seq<Focal>, e: Element)
    ensures FindElement(list, e).None? <==> forall f :: f in list ==> !Equals(f.element, e)
    ensures FindElement(list, e).Some? ==> exists i :: (0 <= i < |list| && list[i] == FindElement(list, e).value
              && Equals(list[i].element, e)
              && forall k :: 0 <= k < i ==> !Equals(list[k].element, e))
  {
    if list != [] && !Equals(list[0].element, e) {
      FindElementFirst(list[1..], e);
      assert list == [list[0]] + list[1..];
      if FindElement(list[1..], e).Some? {
        FindElementShift(list, e);
      }
    }
  }

  /** A match found in the tail, at tail position i, is the first match of the
      whole list, at position i + 1. */
  lemma FindElementShift(list: seq<Focal>, e: Element)
    requires list != [] && !Equals(list[0].element, e) && FindElement(list[1..], e).Some?
    requires exists i :: (0 <= i < |list[1..]| && list[1..][i] == FindElement(list[1..], e).value
              && Equals(list[1..][i].element, e)
              && forall k :: 0 <= k < i ==> !Equals(list[1..][k].element, e))
    ensures exists i :: (0 <= i < |list| && list[i] == FindElement(list, e).value
              && Equals(list[i].element, e)
              && forall k :: 0 <= k < i ==> !Equals(list[k].element, e))
  {
    var r := FindElement(list[1..], e);
    var i :| 0 <= i < |list[1..]| && list[1..][i] == r.value && Equals(list[1..][i].element, e)
      && forall k :: 0 <= k < i ==> !Equals(list[1..][k].element, e);
    assert FindElement(list, e) == r;
    assert list[i + 1] == r.value;
    forall k | 0 <= k < i + 1 ensures !Equals(list[k].element, e) {
      if k > 0 {
        assert list[k] == list[1..][k - 1];
      }
    }
  }

  /** The bpa a list assigns to e: that of the focal element findElement
      returns, and 0 when there is none. */
  function BpaOf(list: seq<Focal>, e: Element): real
  {
    match FindElement(list, e)
    case None => 0.0
    case Some(f) => f.bpa
  }
}
