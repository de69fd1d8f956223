/** BackUp/MassDistribution.java: a list of focal elements and its validity. */
module Masses {
  import opened Results
  import opened Elements

  /** The sum of the bpas of a list, added front to back. */
  function Total(d: seq<Focal>): real
  {
    if d == [] then 0.0 else Total(d[..|d| - 1]) + d[|d| - 1].bpa
  }

  /** A distribution is valid when its bpas sum to exactly one. */
  predicate Valid(d: seq<Focal>)
  {
    Total(d) == 1.0
  }

  lemma {:induction false} TotalAppend(a: seq<Focal>, b: seq<Focal>)
    ensures Total(a + b) == Total(a) + Total(b)
    decreases |b|
  {
    if b == [] {
      assert a + b == a;
    } else {
      var b' := b[..|b| - 1];
      TotalAppend(a, b');
      assert (a + b)[..|a + b| - 1] == a + b';
    }
  }

  /** The list a null one stands for when an element is added to it. */
  function ListOf(l: Option<seq<Focal>>): seq<Focal>
  {
    if l.None? then [] else l.value
  }

  class MassDistribution {
    /** The focal elements; None stands for a null list. */
    var elements: Option<seq<Focal>>

    constructor (mass: Option<seq<Focal>>)
      ensures elements == mass
    {
      elements := mass;
    }

    method GetElements() returns (r: Option<seq<Focal>>)
      ensures r == elements
    {
      r := elements;
    }

    method SetElements(mass: Option<seq<Focal>>)
      modifies this
      ensures elements == mass
    {
      elements := mass;
    }

    /** Appends an element, starting a new list when there is none. */
    method AddElement(element: Focal)
      modifies this
      ensures elements == Some(ListOf(old(elements)) + [element])
      ensures |elements.value| == |ListOf(old(elements))| + 1
    {
      if elements.None? {
        elements := Some([]);
      }
      elements := Some(elements.value + [element]);
    }

    /** The bpa sum the source reads through getTotalBpa; the distribution
        is valid exactly when it is one. */
    function TotalBpa(): (total: real)
      reads this
      requires elements.Some?
      ensures total == 1.0 <==> Valid(elements.value)
      ensures elements.value == [] ==> total == 0.0
    {
      Total(elements.value)
    }

    /** isValid: sums the bpas with an iterator and compares the sum with 1
        exactly. The null list is the caller's to avoid. */
    method IsValid() returns (valid: bool)
      requires elements.Some?
      ensures valid <==> Valid(elements.value)
      ensures elements.value == [] ==> !valid
    {
      var list := elements.value;
      var sum := 0.0;
      for i := 0 to |list|
        invariant sum == Total(list[..i])
      {
        assert list[..i + 1][..i] == list[..i];
        sum := sum + list[i].bpa;
      }
      assert list[..|list|] == list;
      valid := sum == 1.0;
    }
  }
}
