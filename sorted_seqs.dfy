/**
 * The value-level meaning of the sorted string list: its contents are a
 * sequence kept in strcmp order, insertion puts a value where the cursor of
 * insertNodeInSortedList stops, and removal drops the value at an index.
 */
module SortedSeqs {
  import opened CStrings

  /** Contents in non-decreasing strcmp order. */
  ghost predicate Sorted(s: seq<string>)
  {
    forall i, j :: 0 <= i < j < |s| ==> Compare(s[i], s[j]) <= 0
  }

  /**
   * Where the cursor of insertNodeInSortedList stops when it starts at node
   * `k`: it moves on while the next node exists and sorts before `v`, and the
   * new node goes right after it.
   */
  function Advance(s: seq<string>, v: string, k: nat): (p: nat)
    requires k < |s|
    ensures k < p <= |s|
    decreases |s| - k
  {
    if k + 1 < |s| && Compare(v, s[k + 1]) > 0 then Advance(s, v, k + 1) else k + 1
  }

  /** The index the new value takes: 0 on an empty list or before a greater head, else after the cursor. */
  function InsertionPoint(s: seq<string>, v: string): (p: nat)
    ensures p <= |s|
  {
    if s == [] || Compare(v, s[0]) < 0 then 0 else Advance(s, v, 0)
  }

  /** The contents after insertNodeInSortedList(list, v) succeeds. */
  function InsertSorted(s: seq<string>, v: string): (r: seq<string>)
    ensures |r| == |s| + 1
    ensures r[InsertionPoint(s, v)] == v
  {
    var p := InsertionPoint(s, v);
    s[..p] + [v] + s[p..]
  }

  /** The contents after removeNodeFromSortedList(list, i) succeeds. */
  function RemoveAt(s: seq<string>, i: nat): (r: seq<string>)
    requires i < |s|
    ensures |r| == |s| - 1
  {
    s[..i] + s[i + 1..]
  }

  /** What the cursor walked past sorts before `v`, and every node past the stop sorts after it. */
  lemma {:induction false} AdvanceSplits(s: seq<string>, v: string, k: nat)
    requires k < |s| && Compare(s[k], v) <= 0
    requires forall i :: 0 <= i <= k ==> Compare(s[i], v) <= 0
    ensures forall i :: 0 <= i < Advance(s, v, k) ==> Compare(s[i], v) <= 0
    ensures Advance(s, v, k) < |s| ==> Compare(v, s[Advance(s, v, k)]) <= 0
    decreases |s| - k
  {
    if k + 1 < |s| && Compare(v, s[k + 1]) > 0 {
      CompareAntisymmetric(v, s[k + 1]);
      AdvanceSplits(s, v, k + 1);
    }
  }

  /** The insertion point splits a sorted list into the values not after `v` and the values not before it. */
  lemma InsertionPointSplits(s: seq<string>, v: string)
    requires Sorted(s)
    ensures forall i :: 0 <= i < InsertionPoint(s, v) ==> Compare(s[i], v) <= 0
    ensures forall i :: InsertionPoint(s, v) <= i < |s| ==> Compare(v, s[i]) <= 0
  {
    var p := InsertionPoint(s, v);
    if s != [] && Compare(v, s[0]) >= 0 {
      CompareAntisymmetric(v, s[0]);
      AdvanceSplits(s, v, 0);
    }
    forall i | p <= i < |s|
      ensures Compare(v, s[i]) <= 0
    {
      if i > p {
        CompareTransitive(v, s[p], s[i]);
      }
    }
  }

  /** Inserting keeps the list sorted. */
  lemma InsertSortedKeepsOrder(s: seq<string>, v: string)
    requires Sorted(s)
    ensures Sorted(InsertSorted(s, v))
  {
    var p := InsertionPoint(s, v);
    var r := InsertSorted(s, v);
    InsertionPointSplits(s, v);
    forall i, j | 0 <= i < j < |r|
      ensures Compare(r[i], r[j]) <= 0
    {
      if j < p || i > p {
      } else if i == p {
        assert r[j] == s[j - 1];
      } else if j == p {
        assert r[i] == s[i];
      } else {
        assert r[i] == s[i] && r[j] == s[j - 1];
        CompareTransitive(s[i], v, s[j - 1]);
      }
    }
  }

  /** Inserting adds exactly the one value. */
  lemma InsertSortedAddsValue(s: seq<string>, v: string)
    ensures multiset(InsertSorted(s, v)) == multiset(s) + multiset{v}
  {
    var p := InsertionPoint(s, v);
    assert s == s[..p] + s[p..];
  }

  /** Removing the value just inserted gives the list back. */
  lemma RemoveUndoesInsert(s: seq<string>, v: string)
    ensures RemoveAt(InsertSorted(s, v), InsertionPoint(s, v)) == s
  {
    var p := InsertionPoint(s, v);
    var r := InsertSorted(s, v);
    assert r[..p] == s[..p];
    assert r[p + 1..] == s[p..];
  }

  /** Removing keeps the list sorted. */
  lemma RemoveKeepsOrder(s: seq<string>, i: nat)
    requires Sorted(s) && i < |s|
    ensures Sorted(RemoveAt(s, i))
  {
    var r := RemoveAt(s, i);
    forall a, b | 0 <= a < b < |r|
      ensures Compare(r[a], r[b]) <= 0
    {
      var a', b' := if a < i then a else a + 1, if b < i then b else b + 1;
      assert r[a] == s[a'] && r[b] == s[b'];
    }
  }

  /** Removing takes away exactly the value at the index. */
  lemma RemoveDropsValue(s: seq<string>, i: nat)
    requires i < |s|
    ensures multiset(RemoveAt(s, i)) == multiset(s) - multiset{s[i]}
  {
    assert s == s[..i] + [s[i]] + s[i + 1..];
  }

  /** Past a node that sorts after `v`, a sorted list cannot hold `v`: the early exit of sortedListContains. */
  lemma NotBeyondGreater(s: seq<string>, v: string, k: nat)
    requires Sorted(s) && k < |s| && Compare(s[k], v) > 0
    ensures v !in s[k..]
  {
    forall j | k <= j < |s|
      ensures s[j] != v
    {
      CompareZeroIffEqual(s[k], v);
      if j > k {
        assert Compare(s[k], s[j]) <= 0;
      }
    }
  }

  /** The head of a sorted list sorts before every value in it. */
  lemma HeadIsLeast(s: seq<string>, x: string)
    requires Sorted(s) && x in s
    ensures Compare(s[0], x) <= 0
  {
    var i :| 0 <= i < |s| && s[i] == x;
    if i == 0 {
      CompareZeroIffEqual(s[0], x);
    }
  }

  lemma SameTails(a: seq<string>, b: seq<string>)
    requires a != [] && b != [] && a[0] == b[0] && multiset(a) == multiset(b)
    ensures multiset(a[1..]) == multiset(b[1..])
  {
    assert a == [a[0]] + a[1..] && b == [b[0]] + b[1..];
    assert multiset(a) == multiset{a[0]} + multiset(a[1..]);
    assert multiset(b) == multiset{b[0]} + multiset(b[1..]);
    assert multiset(a[1..]) == multiset(a) - multiset{a[0]};
    assert multiset(b[1..]) == multiset(b) - multiset{b[0]};
  }

  /** Two sorted lists holding the same values are the same list. */
  lemma {:induction false} SortedUnique(a: seq<string>, b: seq<string>)
    requires Sorted(a) && Sorted(b) && multiset(a) == multiset(b)
    ensures a == b
  {
    if a != [] {
      assert a[0] in multiset(b);
      assert b[0] in multiset(a);
      HeadIsLeast(b, a[0]);
      HeadIsLeast(a, b[0]);
      CompareAntisymmetric(a[0], b[0]);
      CompareZeroIffEqual(a[0], b[0]);
      SameTails(a, b);
      SortedUnique(a[1..], b[1..]);
      assert a == [a[0]] + a[1..] && b == [b[0]] + b[1..];
    } else {
      assert |b| == |multiset(b)|;
    }
  }

  /** The contents of a list built by inserting `vs` one after the other into an empty list. */
  function InsertAll(vs: seq<string>): (r: seq<string>)
    ensures |r| == |vs|
  {
    if vs == [] then [] else InsertSorted(InsertAll(vs[..|vs| - 1]), vs[|vs| - 1])
  }

  /** Inserting values one by one yields them sorted, each exactly once. */
  lemma {:induction false} InsertAllSortsValues(vs: seq<string>)
    ensures Sorted(InsertAll(vs))
    ensures multiset(InsertAll(vs)) == multiset(vs)
  {
    if vs != [] {
      var init := vs[..|vs| - 1];
      InsertAllSortsValues(init);
      InsertSortedKeepsOrder(InsertAll(init), vs[|vs| - 1]);
      InsertSortedAddsValue(InsertAll(init), vs[|vs| - 1]);
      assert vs == init + [vs[|vs| - 1]];
    }
  }

  /** Inserting the values of a sorted list, in order, rebuilds that list. */
  lemma InsertAllOfSorted(vs: seq<string>)
    requires Sorted(vs)
    ensures InsertAll(vs) == vs
  {
    InsertAllSortsValues(vs);
    SortedUnique(InsertAll(vs), vs);
  }

  /** The text printSortedList and serializeSortedList write: each value followed by a newline. */
  function Lines(values: seq<string>): (text: string)
    ensures |text| >= |values|
  {
    if values == [] then [] else values[0] + "\n" + Lines(values[1..])
  }
}
