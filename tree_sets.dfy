/** java.util.TreeSet under the natural ordering, as the core uses it: a sorted
    sequence without two elements that compare equal. Elements are ordered by
    String.compareTo on a key, ascending, or descending when the element type's
    compareTo compares the other way round. */
module TreeSets {
  import JavaStrings

  /** The comparator of the set: negative when x sorts before y, zero when they
      are the same element for the set. */
  function Compare<T>(key: T -> string, descending: bool, x: T, y: T): int
  {
    if descending then JavaStrings.CompareTo(key(y), key(x))
    else JavaStrings.CompareTo(key(x), key(y))
  }

  lemma CompareAntisymmetric<T>(key: T -> string, descending: bool, x: T, y: T)
    ensures Compare(key, descending, x, y) == -Compare(key, descending, y, x)
  {
    JavaStrings.CompareToAntisymmetric(key(x), key(y));
  }

  lemma CompareTransitive<T>(key: T -> string, descending: bool, x: T, y: T, z: T)
    requires Compare(key, descending, x, y) < 0 && Compare(key, descending, y, z) < 0
    ensures Compare(key, descending, x, z) < 0
  {
    if descending {
      JavaStrings.CompareToTransitive(key(z), key(y), key(x));
    } else {
      JavaStrings.CompareToTransitive(key(x), key(y), key(z));
    }
  }

  /** The order a TreeSet keeps its elements in: strictly ascending. */
  ghost predicate Sorted<T>(s: seq<T>, key: T -> string, descending: bool)
  {
    forall i, j :: 0 <= i < j < |s| ==> Compare(key, descending, s[i], s[j]) < 0
  }

  /** The keys of the elements of s. */
  ghost function Keys<T>(s: seq<T>, key: T -> string): set<string>
  {
    set i | 0 <= i < |s| :: key(s[i])
  }

  /** TreeSet.add: x goes to its place in the order, unless an element that
      compares equal to it is already there, which is then kept. */
  function Add<T>(s: seq<T>, x: T, key: T -> string, descending: bool): seq<T>
    decreases |s|
  {
    if s == [] then [x]
    else
      var c := Compare(key, descending, x, s[0]);
      if c < 0 then [x] + s
      else if c == 0 then s
      else [s[0]] + Add(s[1..], x, key, descending)
  }

  /** TreeSet.addAll of a list: its elements added one by one, in list order. */
  function AddAll<T>(s: seq<T>, xs: seq<T>, key: T -> string, descending: bool): seq<T>
    decreases |xs|
  {
    if xs == [] then s
    else AddAll(Add(s, xs[0], key, descending), xs[1..], key, descending)
  }

  /** new TreeSet(list). */
  function FromList<T>(xs: seq<T>, key: T -> string, descending: bool): seq<T>
  {
    AddAll([], xs, key, descending)
  }

  lemma KeysCons<T>(x: T, s: seq<T>, key: T -> string)
    ensures Keys([x] + s, key) == {key(x)} + Keys(s, key)
  {
    var t := [x] + s;
    forall k | k in Keys(t, key) ensures k in {key(x)} + Keys(s, key) {
      var i :| 0 <= i < |t| && key(t[i]) == k;
      if i > 0 { assert key(s[i - 1]) == k; }
    }
    forall k | k in Keys(s, key) ensures k in Keys(t, key) {
      var i :| 0 <= i < |s| && key(s[i]) == k;
      assert key(t[i + 1]) == k;
    }
    assert key(t[0]) == key(x);
  }

  lemma KeysSplit<T>(s: seq<T>, key: T -> string)
    requires s != []
    ensures Keys(s, key) == {key(s[0])} + Keys(s[1..], key)
  {
    assert s == [s[0]] + s[1..];
    KeysCons(s[0], s[1..], key);
  }

  /** Adding an element adds its key and nothing else. */
  lemma {:induction false} AddKeys<T>(s: seq<T>, x: T, key: T -> string, descending: bool)
    ensures Keys(Add(s, x, key, descending), key) == Keys(s, key) + {key(x)}
    decreases |s|
  {
    if s == [] {
      assert Keys([x], key) == {key(x)} by { KeysCons(x, [], key); }
    } else {
      var c := Compare(key, descending, x, s[0]);
      KeysSplit(s, key);
      if c < 0 {
        KeysCons(x, s, key);
      } else if c == 0 {
      } else {
        AddKeys(s[1..], x, key, descending);
        KeysCons(s[0], Add(s[1..], x, key, descending), key);
      }
    }
  }

  /** Every element of the result is x or was already there, and nothing is lost. */
  lemma {:induction false} AddMembers<T>(s: seq<T>, x: T, key: T -> string, descending: bool)
    ensures forall y :: y in Add(s, x, key, descending) ==> y == x || y in s
    ensures forall y :: y in s ==> y in Add(s, x, key, descending)
    decreases |s|
  {
    if s != [] && Compare(key, descending, x, s[0]) > 0 {
      AddMembers(s[1..], x, key, descending);
      assert s == [s[0]] + s[1..];
    }
  }

  /** Adding keeps the set sorted. */
  lemma {:induction false} AddSorted<T>(s: seq<T>, x: T, key: T -> string, descending: bool)
    requires Sorted(s, key, descending)
    ensures Sorted(Add(s, x, key, descending), key, descending)
    decreases |s|
  {
    if s != [] {
      var c := Compare(key, descending, x, s[0]);
      if c < 0 {
        var r := [x] + s;
        forall i, j | 0 <= i < j < |r| ensures Compare(key, descending, r[i], r[j]) < 0 {
          if i == 0 && j > 1 {
            CompareTransitive(key, descending, x, s[0], s[j - 1]);
          }
        }
      } else if c > 0 {
        var t := Add(s[1..], x, key, descending);
        AddSorted(s[1..], x, key, descending);
        AddMembers(s[1..], x, key, descending);
        CompareAntisymmetric(key, descending, x, s[0]);
        var r := [s[0]] + t;
        forall i, j | 0 <= i < j < |r| ensures Compare(key, descending, r[i], r[j]) < 0 {
          if i == 0 {
            assert r[j] in t;
            if r[j] != x {
              var k :| 0 <= k < |s[1..]| && s[1..][k] == r[j];
              assert s[k + 1] == r[j];
            }
          }
        }
      }
    }
  }

  /** In a sorted set no two elements share a key. */
  lemma SortedKeysDistinct<T>(s: seq<T>, key: T -> string, descending: bool, i: int, j: int)
    requires Sorted(s, key, descending)
    requires 0 <= i < |s| && 0 <= j < |s| && i != j
    ensures key(s[i]) != key(s[j])
  {
    if i < j {
      assert Compare(key, descending, s[i], s[j]) < 0;
    } else {
      assert Compare(key, descending, s[j], s[i]) < 0;
    }
  }

  /** An element whose key is present already leaves a sorted set unchanged. */
  lemma {:induction false} AddPresent<T>(s: seq<T>, x: T, key: T -> string, descending: bool)
    requires Sorted(s, key, descending) && key(x) in Keys(s, key)
    ensures Add(s, x, key, descending) == s
    decreases |s|
  {
    KeysSplit(s, key);
    if key(x) == key(s[0]) {
      assert Compare(key, descending, x, s[0]) == 0;
    } else {
      PresentFurther(s, x, key, descending);
      AddPresent(s[1..], x, key, descending);
      assert s == [s[0]] + s[1..];
    }
  }

  lemma PresentFurther<T>(s: seq<T>, x: T, key: T -> string, descending: bool)
    requires Sorted(s, key, descending) && s != []
    requires key(x) in Keys(s[1..], key)
    ensures Compare(key, descending, x, s[0]) > 0
    ensures Sorted(s[1..], key, descending)
  {
    var k :| 0 <= k < |s[1..]| && key(s[1..][k]) == key(x);
    assert Compare(key, descending, s[0], s[k + 1]) < 0;
    CompareAntisymmetric(key, descending, s[0], s[k + 1]);
  }

  lemma {:induction false} AddAllSorted<T>(s: seq<T>, xs: seq<T>, key: T -> string, descending: bool)
    requires Sorted(s, key, descending)
    ensures Sorted(AddAll(s, xs, key, descending), key, descending)
    decreases |xs|
  {
    if xs != [] {
      AddSorted(s, xs[0], key, descending);
      AddAllSorted(Add(s, xs[0], key, descending), xs[1..], key, descending);
    }
  }

  lemma {:induction false} AddAllKeys<T>(s: seq<T>, xs: seq<T>, key: T -> string, descending: bool)
    ensures Keys(AddAll(s, xs, key, descending), key) == Keys(s, key) + Keys(xs, key)
    decreases |xs|
  {
    if xs != [] {
      AddKeys(s, xs[0], key, descending);
      AddAllKeys(Add(s, xs[0], key, descending), xs[1..], key, descending);
      KeysSplit(xs, key);
    }
  }

  /** An element of the result either was in s, or came from xs with a key s
      did not have: on a tie the element already in the set is kept. */
  lemma {:induction false} AddAllMembers<T>(s: seq<T>, xs: seq<T>, key: T -> string, descending: bool)
    requires Sorted(s, key, descending)
    ensures forall y :: y in AddAll(s, xs, key, descending) ==>
              y in s || (y in xs && key(y) !in Keys(s, key))
    ensures forall y :: y in s ==> y in AddAll(s, xs, key, descending)
    decreases |xs|
  {
    if xs != [] {
      var s' := Add(s, xs[0], key, descending);
      AddMembers(s, xs[0], key, descending);
      AddSorted(s, xs[0], key, descending);
      AddKeys(s, xs[0], key, descending);
      AddAllMembers(s', xs[1..], key, descending);
      if key(xs[0]) in Keys(s, key) {
        AddPresent(s, xs[0], key, descending);
      }
      forall y | y in AddAll(s, xs, key, descending)
        ensures y in s || (y in xs && key(y) !in Keys(s, key))
      {
        if y !in s {
          if y in s' {
            assert y == xs[0];
          } else {
            assert y in xs[1..];
          }
        }
      }
    }
  }
}
