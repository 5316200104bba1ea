/**
 * The heap side of the sorted list exercise (node.h, sorted_list.h and
 * their commented twins): singly linked nodes owning a C string each, a
 * list header pointing at the first node, and the free functions of the C
 * API, which take possibly-NULL pointers.
 */
module SortedLists {
  import opened Wrappers
  import opened CStrings
  import opened SortedSeqs

  /** A list node wrapping a string value (struct Node of node.h). */
  class Node {
    var value: string
    var next: Node?

    constructor (value: string)
      ensures this.value == value && next == null
    {
      this.value := value;
      next := null;
    }
  }

  /** A sorted list header (SortedList of sorted_list.h). */
  class SortedList {
    var first: Node?
    /** The nodes reachable from `first`, in order. */
    ghost var nodes: seq<Node>
    /** The values of `nodes`, in order. */
    ghost var Contents: seq<string>
    ghost var Repr: set<object>

    /** The header and its nodes form one NULL-terminated chain, each node visited once. */
    ghost predicate Linked()
      reads this, Repr
    {
      && this in Repr
      && (forall i :: 0 <= i < |nodes| ==> nodes[i] in Repr)
      && |Contents| == |nodes|
      && first == (if nodes == [] then null else nodes[0])
      && (forall i :: 0 <= i < |nodes| ==> nodes[i].value == Contents[i])
      && (forall i :: 0 <= i < |nodes| - 1 ==> nodes[i].next == nodes[i + 1])
      && (nodes != [] ==> nodes[|nodes| - 1].next == null)
      && (forall i, j :: 0 <= i < j < |nodes| ==> nodes[i] != nodes[j])
    }

    /** A well-formed list: linked, holding C strings, in strcmp order. */
    ghost predicate Valid()
      reads this, Repr
    {
      && Linked()
      && (forall i :: 0 <= i < |Contents| ==> Nul !in Contents[i])
      && Sorted(Contents)
    }

    /** createEmptySortedList: a header with no first node. */
    constructor ()
      ensures Valid() && fresh(Repr)
      ensures Contents == []
    {
      first := null;
      nodes := [];
      Contents := [];
      Repr := {this};
    }
  }

  /** The successor of node i is node i+1, or NULL after the last node. */
  lemma NextOf(list: SortedList, i: nat)
    requires list.Linked() && i < |list.nodes|
    ensures list.nodes[i].next == (if i + 1 < |list.nodes| then list.nodes[i + 1] else null)
  {
  }

  /** createNode: NULL for a NULL value, else a fresh unlinked node holding a copy of the C string. */
  method CreateNode(value: Option<string>) returns (node: Node?)
    ensures node == null <==> value.None?
    ensures node != null ==> fresh(node) && node.next == null
    ensures node != null ==> Some(node.value) == Strdup(value)
  {
    if value.None? {
      return null;
    }
    var duplicate := Strdup(value);
    node := new Node(duplicate.value);
  }

  /** cloneNode: a fresh unlinked node with the same value, or NULL for a NULL node. */
  method CloneNode(node: Node?) returns (copy: Node?)
    requires node != null ==> Nul !in node.value
    ensures copy == null <==> node == null
    ensures copy != null ==> fresh(copy) && copy.next == null && copy.value == node.value
  {
    if node == null {
      return null;
    }
    copy := CreateNode(Some(node.value));
  }

  /** destroyNode: -1 for NULL, 0 once the node would be released. */
  method DestroyNode(node: Node?) returns (status: int)
    ensures status == (if node == null then -1 else 0)
  {
    if node == null {
      return -1;
    }
    return 0;
  }

  /** getSortedListSize: -1 for a NULL list, else the number of nodes, counted along the chain. */
  method GetSortedListSize(list: SortedList?) returns (size: int)
    requires list != null ==> list.Valid()
    ensures list == null ==> size == -1
    ensures list != null ==> size == |list.Contents|
  {
    if list == null {
      return -1;
    }
    if list.first == null {
      return 0;
    }
    var count := 0;
    var current := list.first;
    while current != null
      invariant 0 <= count <= |list.nodes|
      invariant current == (if count < |list.nodes| then list.nodes[count] else null)
      decreases |list.nodes| - count
    {
      count := count + 1;
      current := current.next;
    }
    return count;
  }

  /**
   * sortedListContains: false for a NULL list or value; otherwise walks the
   * chain and stops at the first node that does not sort before the value.
   * On a sorted list that early exit misses nothing.
   */
  method SortedListContains(list: SortedList?, value: Option<string>) returns (found: bool)
    requires list != null ==> list.Valid()
    ensures found <==> list != null && value.Some? && CString(value.value) in list.Contents
  {
    if list == null || value.None? {
      return false;
    }
    if list.first == null {
      return false;
    }
    var v := CString(value.value);
    var current := list.first;
    ghost var i := 0;
    while current != null
      invariant 0 <= i <= |list.nodes|
      invariant current == (if i < |list.nodes| then list.nodes[i] else null)
      invariant v !in list.Contents[..i]
      decreases |list.nodes| - i
    {
      var cmp := Compare(current.value, v);
      if cmp == 0 {
        CompareZeroIffEqual(current.value, v);
        return true;
      }
      if cmp > 0 {
        NotBeyondGreater(list.Contents, v, i);
        assert list.Contents == list.Contents[..i] + list.Contents[i..];
        return false;
      }
      CompareZeroIffEqual(current.value, v);
      assert list.Contents[..i + 1] == list.Contents[..i] + [list.Contents[i]];
      current := current.next;
      i := i + 1;
    }
    assert list.Contents[..i] == list.Contents;
    return false;
  }

  /** printSortedList: the text it prints, each value on its own line; nothing for NULL. */
  method PrintSortedList(list: SortedList?) returns (output: string)
    requires list != null ==> list.Valid()
    ensures output == (if list == null then "" else Lines(list.Contents))
  {
    output := "";
    if list == null {
      return;
    }
    if list.first == null {
      return;
    }
    var current := list.first;
    ghost var i := 0;
    while current != null
      invariant 0 <= i <= |list.nodes|
      invariant current == (if i < |list.nodes| then list.nodes[i] else null)
      invariant output + Lines(list.Contents[i..]) == Lines(list.Contents)
      decreases |list.nodes| - i
    {
      LinesStep(output, list.Contents, i);
      output := output + current.value + "\n";
      current := current.next;
      i := i + 1;
    }
  }

  lemma LinesStep(printed: string, values: seq<string>, i: nat)
    requires i < |values|
    ensures printed + Lines(values[i..]) == (printed + values[i] + "\n") + Lines(values[i + 1..])
  {
    assert values[i..][1..] == values[i + 1..];
  }

  /** Links an unlinked node in front of the first node. */
  method LinkAtHead(list: SortedList, n: Node)
    requires list.Linked() && n !in list.Repr && n.next == null
    modifies list, n
    ensures list.Linked()
    ensures list.nodes == [n] + old(list.nodes) && list.Contents == [n.value] + old(list.Contents)
    ensures list.Repr == old(list.Repr) + {n} && n.value == old(n.value)
  {
    n.next := list.first;
    list.first := n;
    list.nodes := [n] + list.nodes;
    list.Contents := [n.value] + list.Contents;
    list.Repr := list.Repr + {n};
  }

  /** Links an unlinked node right after node k. */
  method LinkAfter(list: SortedList, ghost k: nat, current: Node, n: Node)
    requires list.Linked() && k < |list.nodes| && current == list.nodes[k]
    requires n !in list.Repr && n.next == null
    modifies list, current, n
    ensures list.Linked()
    ensures list.nodes == old(list.nodes[..k + 1] + [n] + list.nodes[k + 1..])
    ensures list.Contents == old(list.Contents[..k + 1] + [n.value] + list.Contents[k + 1..])
    ensures list.Repr == old(list.Repr) + {n} && n.value == old(n.value)
  {
    ghost var nodes := list.nodes;
    ghost var values := list.Contents;
    n.next := current.next;
    current.next := n;
    list.nodes := nodes[..k + 1] + [n] + nodes[k + 1..];
    list.Contents := values[..k + 1] + [n.value] + values[k + 1..];
    list.Repr := list.Repr + {n};
    SplicedChain(list, nodes, values, k, n);
  }

  /** The chain facts after splicing n in after node k, one index at a time. */
  lemma SplicedChain(list: SortedList, nodes: seq<Node>, values: seq<string>, k: nat, n: Node)
    requires k < |nodes| && |values| == |nodes| && n !in nodes
    requires forall i, j :: 0 <= i < j < |nodes| ==> nodes[i] != nodes[j]
    requires forall i :: 0 <= i < |nodes| ==> nodes[i].value == values[i]
    requires list.nodes == nodes[..k + 1] + [n] + nodes[k + 1..]
    requires list.Contents == values[..k + 1] + [n.value] + values[k + 1..]
    requires list in list.Repr && (forall i :: 0 <= i < |nodes| ==> nodes[i] in list.Repr)
    requires n in list.Repr && list.first == nodes[0]
    requires nodes[k].next == n
    requires n.next == (if k + 1 < |nodes| then nodes[k + 1] else null)
    requires forall i :: 0 <= i < |nodes| - 1 && i != k ==> nodes[i].next == nodes[i + 1]
    requires k != |nodes| - 1 ==> nodes[|nodes| - 1].next == null
    ensures list.Linked()
  {
    var spliced := list.nodes;
    forall i | 0 <= i < |spliced|
      ensures spliced[i] in list.Repr && spliced[i].value == list.Contents[i]
    {
    }
    forall i | 0 <= i < |spliced| - 1
      ensures spliced[i].next == spliced[i + 1]
    {
      if i < k {
        assert spliced[i] == nodes[i] && spliced[i + 1] == nodes[i + 1];
      } else if i > k + 1 {
        assert spliced[i] == nodes[i - 1] && spliced[i + 1] == nodes[i];
      }
    }
    forall i, j | 0 <= i < j < |spliced|
      ensures spliced[i] != spliced[j]
    {
      var i' := if i <= k then i else i - 1;
      var j' := if j <= k then j else j - 1;
      if i != k + 1 && j != k + 1 {
        assert spliced[i] == nodes[i'] && spliced[j] == nodes[j'];
      }
    }
  }

  /** Every value of an insertion result is the inserted value or an old one. */
  lemma InsertSortedValues(s: seq<string>, v: string)
    ensures forall x :: x in InsertSorted(s, v) ==> x == v || x in s
  {
    InsertSortedAddsValue(s, v);
    forall x | x in InsertSorted(s, v)
      ensures x == v || x in s
    {
      assert x in multiset(InsertSorted(s, v));
    }
  }

  /** A linked list holding the sorted insertion of a C string into sorted C strings is valid. */
  lemma ValidAfterInsert(list: SortedList, before: seq<string>, v: string)
    requires list.Linked() && list.Contents == InsertSorted(before, v)
    requires Sorted(before) && Nul !in v
    requires forall i :: 0 <= i < |before| ==> Nul !in before[i]
    ensures list.Valid()
  {
    InsertSortedKeepsOrder(before, v);
    InsertSortedValues(before, v);
  }

  /**
   * insertNodeInSortedList: -1 for a NULL list or value; otherwise a new
   * node goes at the head when the list is empty or the value sorts before
   * the first value, and else right after the last node, reached from the
   * head, whose successor does not sort after it.
   */
  method InsertNodeInSortedList(list: SortedList?, value: Option<string>) returns (status: int)
    requires list != null ==> list.Valid()
    modifies if list == null then {} else list.Repr
    ensures status == (if list == null || value.None? then -1 else 0)
    ensures list != null ==> list.Valid() && fresh(list.Repr - old(list.Repr))
    ensures list != null && value.None? ==> list.Contents == old(list.Contents)
    ensures list != null && value.Some? ==>
      list.Contents == InsertSorted(old(list.Contents), CString(value.value))
  {
    if list == null || value.None? {
      return -1;
    }
    var newNode := CreateNode(value);
    var v := newNode.value;
    ghost var before := list.Contents;
    ghost var p := InsertionPoint(before, v);
    if list.first == null || Compare(v, list.first.value) < 0 {
      assert p == 0;
      assert InsertSorted(before, v) == [v] + before;
      LinkAtHead(list, newNode);
      ValidAfterInsert(list, before, v);
      return 0;
    }
    var current := list.first;
    ghost var k := 0;
    while current.next != null && Compare(v, current.next.value) > 0
      invariant 0 <= k < |list.nodes| && current == list.nodes[k]
      invariant Advance(before, v, k) == p
      decreases |list.nodes| - k
    {
      current := current.next;
      k := k + 1;
    }
    assert p == k + 1;
    LinkAfter(list, k, current, newNode);
    ValidAfterInsert(list, before, v);
    return 0;
  }

  /** Unlinks the first node and clears its `next`. */
  method UnlinkHead(list: SortedList) returns (removed: Node)
    requires list.Linked() && list.nodes != []
    modifies list, list.nodes[0]
    ensures list.Linked() && removed == old(list.nodes[0]) && removed.next == null
    ensures list.nodes == old(list.nodes[1..]) && list.Contents == old(list.Contents[1..])
    ensures list.Repr == old(list.Repr) - {removed} && removed.value == old(removed.value)
  {
    ghost var nodes := list.nodes;
    ghost var values := list.Contents;
    NextOf(list, 0);
    removed := list.first;
    list.first := removed.next;
    removed.next := null;
    list.nodes := nodes[1..];
    list.Contents := values[1..];
    list.Repr := list.Repr - {removed};
    UnlinkedHeadChain(list, nodes, values);
  }

  /** The chain facts after the first node is bypassed. */
  lemma UnlinkedHeadChain(list: SortedList, nodes: seq<Node>, values: seq<string>)
    requires nodes != [] && |values| == |nodes|
    requires forall i, j :: 0 <= i < j < |nodes| ==> nodes[i] != nodes[j]
    requires forall i :: 0 < i < |nodes| ==> nodes[i].value == values[i]
    requires list.nodes == nodes[1..] && list.Contents == values[1..]
    requires list in list.Repr && (forall i :: 0 < i < |nodes| ==> nodes[i] in list.Repr)
    requires list.first == (if 1 < |nodes| then nodes[1] else null)
    requires forall i :: 0 < i < |nodes| - 1 ==> nodes[i].next == nodes[i + 1]
    requires 1 < |nodes| ==> nodes[|nodes| - 1].next == null
    ensures list.Linked()
  {
    var rest := list.nodes;
    forall i | 0 <= i < |rest|
      ensures rest[i] in list.Repr && rest[i].value == list.Contents[i]
    {
      assert rest[i] == nodes[i + 1];
    }
    forall i | 0 <= i < |rest| - 1
      ensures rest[i].next == rest[i + 1]
    {
      assert rest[i] == nodes[i + 1] && rest[i + 1] == nodes[i + 2];
    }
    forall i, j | 0 <= i < j < |rest|
      ensures rest[i] != rest[j]
    {
      assert rest[i] == nodes[i + 1] && rest[j] == nodes[j + 1];
    }
  }

  /** Unlinks the node after node k and clears its `next`. */
  method UnlinkAfter(list: SortedList, ghost k: nat, current: Node) returns (removed: Node)
    requires list.Linked() && k + 1 < |list.nodes| && current == list.nodes[k]
    modifies list, current, list.nodes[k + 1]
    ensures list.Linked() && removed == old(list.nodes[k + 1]) && removed.next == null
    ensures list.nodes == old(list.nodes[..k + 1] + list.nodes[k + 2..])
    ensures list.Contents == old(list.Contents[..k + 1] + list.Contents[k + 2..])
    ensures list.Repr == old(list.Repr) - {removed} && removed.value == old(removed.value)
  {
    ghost var nodes := list.nodes;
    ghost var values := list.Contents;
    removed := current.next;
    current.next := removed.next;
    removed.next := null;
    list.nodes := nodes[..k + 1] + nodes[k + 2..];
    list.Contents := values[..k + 1] + values[k + 2..];
    list.Repr := list.Repr - {removed};
    UnlinkedChain(list, nodes, values, k);
  }

  /** The chain facts after the node after node k is bypassed. */
  lemma UnlinkedChain(list: SortedList, nodes: seq<Node>, values: seq<string>, k: nat)
    requires k + 1 < |nodes| && |values| == |nodes|
    requires forall i, j :: 0 <= i < j < |nodes| ==> nodes[i] != nodes[j]
    requires forall i :: 0 <= i < |nodes| ==> i != k + 1 ==> nodes[i].value == values[i]
    requires list.nodes == nodes[..k + 1] + nodes[k + 2..]
    requires list.Contents == values[..k + 1] + values[k + 2..]
    requires list in list.Repr && (forall i :: 0 <= i < |nodes| && i != k + 1 ==> nodes[i] in list.Repr)
    requires list.first == nodes[0]
    requires nodes[k].next == (if k + 2 < |nodes| then nodes[k + 2] else null)
    requires forall i :: 0 <= i < |nodes| - 1 && i != k && i != k + 1 ==> nodes[i].next == nodes[i + 1]
    requires k + 1 != |nodes| - 1 ==> nodes[|nodes| - 1].next == null
    ensures list.Linked()
  {
    var rest := list.nodes;
    forall i | 0 <= i < |rest|
      ensures rest[i] in list.Repr && rest[i].value == list.Contents[i]
    {
      if i > k {
        assert rest[i] == nodes[i + 1];
      }
    }
    forall i | 0 <= i < |rest| - 1
      ensures rest[i].next == rest[i + 1]
    {
      if i < k {
        assert rest[i] == nodes[i] && rest[i + 1] == nodes[i + 1];
      } else if i > k {
        assert rest[i] == nodes[i + 1] && rest[i + 1] == nodes[i + 2];
      }
    }
    if rest != [] && |rest| - 1 > k {
      assert rest[|rest| - 1] == nodes[|nodes| - 1];
    }
    forall i, j | 0 <= i < j < |rest|
      ensures rest[i] != rest[j]
    {
      var i' := if i <= k then i else i + 1;
      var j' := if j <= k then j else j + 1;
      assert rest[i] == nodes[i'] && rest[j] == nodes[j'];
    }
  }

  /** A linked list holding sorted C strings with one value taken out is valid. */
  lemma ValidAfterRemove(list: SortedList, before: seq<string>, i: nat)
    requires i < |before| && list.Linked() && list.Contents == RemoveAt(before, i)
    requires Sorted(before)
    requires forall j :: 0 <= j < |before| ==> Nul !in before[j]
    ensures list.Valid()
  {
    RemoveKeepsOrder(before, i);
    forall j | 0 <= j < |list.Contents|
      ensures Nul !in list.Contents[j]
    {
      assert list.Contents[j] == before[if j < i then j else j + 1];
    }
  }

  /**
   * removeNodeFromSortedList: NULL for a NULL list, a negative index, an
   * empty list or an index past the end; otherwise the node at the index,
   * unlinked, with its `next` cleared.
   */
  method RemoveNodeFromSortedList(list: SortedList?, index: int) returns (removed: Node?)
    requires list != null ==> list.Valid()
    modifies if list == null then {} else list.Repr
    ensures removed == null <==> list == null || index < 0 || index >= |old(list.Contents)|
    ensures list != null ==> list.Valid() && list.Repr <= old(list.Repr)
    ensures list != null && removed == null ==> list.Contents == old(list.Contents)
    ensures list != null && removed != null ==>
      && list.Contents == RemoveAt(old(list.Contents), index)
      && removed == old(list.nodes)[index]
      && removed.value == old(list.Contents)[index] && removed.next == null
      && removed !in list.Repr
  {
    if list == null || index < 0 {
      return null;
    }
    if list.first == null {
      return null;
    }
    ghost var before := list.Contents;
    if index == 0 {
      removed := UnlinkHead(list);
      assert RemoveAt(before, 0) == before[1..];
      ValidAfterRemove(list, before, 0);
      return removed;
    }
    var current := list.first;
    var currentIndex := 0;
    while current.next != null && currentIndex < index - 1
      invariant 0 <= currentIndex < |list.nodes| && current == list.nodes[currentIndex]
      invariant currentIndex <= index - 1
      invariant list.nodes == old(list.nodes)
      decreases |list.nodes| - currentIndex
    {
      current := current.next;
      currentIndex := currentIndex + 1;
    }
    NextOf(list, currentIndex);
    if current.next == null {
      return null;
    }
    removed := UnlinkAfter(list, currentIndex, current);
    ValidAfterRemove(list, before, index);
    return removed;
  }

  /** A linked list holding the values of a valid list is valid. */
  lemma ValidCopy(copy: SortedList, values: seq<string>)
    requires copy.Linked() && copy.Contents == values
    requires (forall j :: 0 <= j < |values| ==> Nul !in values[j]) && Sorted(values)
    ensures copy.Valid()
  {
  }

  /** The facts about a valid list that cloneSortedList walks by, stated node by node. */
  lemma ChainFacts(list: SortedList)
    requires list.Valid()
    ensures |list.nodes| == |list.Contents| && list.first == (if list.nodes == [] then null else list.nodes[0])
    ensures forall j :: 0 <= j < |list.nodes| ==> list.nodes[j].next == (if j + 1 < |list.nodes| then list.nodes[j + 1] else null)
    ensures forall j :: 0 <= j < |list.nodes| ==> list.nodes[j].value == list.Contents[j] && Nul !in list.Contents[j]
    ensures Sorted(list.Contents)
  {
  }

  /** A node of a null-terminated chain whose next is null is the last one. */
  lemma LastOfChain(nodes: seq<Node>, i: nat)
    requires i < |nodes| && nodes[i].next == null
    requires forall j :: i <= j < |nodes| ==> nodes[j].next == (if j + 1 < |nodes| then nodes[j + 1] else null)
    ensures i + 1 == |nodes|
  {
    var k := if i + 1 < |nodes| then i + 1 else i;
    var after := nodes[k];
    assert nodes[i].next == (if i + 1 < |nodes| then after else null);
  }

  lemma PrefixGrows(values: seq<string>, i: nat)
    requires i + 1 < |values|
    ensures values[..i + 2] == values[..i + 1] + [values[i + 1]]
  {
  }

  /** The first step of cloneSortedList: a fresh list holding a clone of `first` alone. */
  method StartClone(first: Node) returns (copy: SortedList, head: Node)
    requires Nul !in first.value
    ensures copy.Linked() && fresh(copy.Repr) && head.next == null
    ensures copy.nodes == [head] && copy.Contents == [first.value]
  {
    copy := new SortedList();
    var cloned := CloneNode(first);
    head := cloned;
    LinkAtHead(copy, head);
  }

  /** One step of cloneSortedList: a clone of `source` linked after the last node `temp` of `copy`. */
  method AppendClone(copy: SortedList, ghost i: nat, temp: Node, source: Node) returns (next: Node)
    requires copy.Linked() && |copy.nodes| == i + 1 && temp == copy.nodes[i] && temp.next == null
    requires Nul !in source.value
    modifies copy, temp
    ensures copy.Linked() && fresh(next) && next.next == null
    ensures copy.nodes == old(copy.nodes) + [next] && copy.Contents == old(copy.Contents) + [old(source.value)]
    ensures copy.Repr == old(copy.Repr) + {next}
  {
    var cloned := CloneNode(source);
    next := cloned;
    LinkAfter(copy, i, temp, next);
    assert old(copy.nodes)[..i + 1] == old(copy.nodes) && old(copy.nodes)[i + 1..] == [];
    assert old(copy.Contents)[..i + 1] == old(copy.Contents) && old(copy.Contents)[i + 1..] == [];
  }

  /**
   * cloneSortedList: NULL for a NULL list, otherwise a fresh list whose
   * nodes copy the values of the original ones, in the same order.
   */
  method CloneSortedList(list: SortedList?) returns (copy: SortedList?)
    requires list != null ==> list.Valid()
    ensures copy == null <==> list == null
    ensures copy != null ==> copy.Valid() && fresh(copy.Repr) && copy.Contents == list.Contents
  {
    if list == null {
      return null;
    }
    if list.first == null {
      copy := new SortedList();
      return copy;
    }
    ghost var nodes, values := list.nodes, list.Contents;
    ChainFacts(list);
    var temp;
    copy, temp := StartClone(list.first);
    var original := list.first;
    ghost var i := 0;
    while original.next != null
      invariant 0 <= i < |nodes| && original == nodes[i]
      invariant copy.Linked() && fresh(copy.Repr)
      invariant |copy.nodes| == i + 1 && temp == copy.nodes[i] && temp.next == null
      invariant copy.Contents == values[..i + 1]
      decreases |nodes| - i
    {
      assert original.next == nodes[i + 1];
      assert Nul !in original.next.value;
      var next := AppendClone(copy, i, temp, original.next);
      PrefixGrows(values, i);
      temp := next;
      original := original.next;
      i := i + 1;
    }
    LastOfChain(nodes, i);
    assert values[..i + 1] == values;
    ValidCopy(copy, values);
  }

  /**
   * destroySortedList: -1 for a NULL list, else 0 after releasing every
   * node from the head on (`released`, in order) and then the header.
   */
  method DestroySortedList(list: SortedList?) returns (status: int, ghost released: seq<Node>)
    requires list != null ==> list.Valid()
    ensures status == (if list == null then -1 else 0)
    ensures released == (if list == null then [] else list.nodes)
  {
    released := [];
    if list == null {
      return -1, released;
    }
    if list.first == null {
      return 0, released;
    }
    var current := list.first;
    while current != null
      invariant |released| <= |list.nodes| && released == list.nodes[..|released|]
      invariant current == (if |released| < |list.nodes| then list.nodes[|released|] else null)
      decreases |list.nodes| - |released|
    {
      var nextNode := current.next;
      var _ := DestroyNode(current);
      released := released + [current];
      current := nextNode;
    }
    return 0, released;
  }
}
