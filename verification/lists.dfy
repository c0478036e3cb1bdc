/** Singly linked lists (lib/list.cc), with the contents as a ghost sequence. */
module Lists {

  /** Where SortedList::Insert puts an item: before the first element that compares bigger. */
  function Inserted<T>(s: seq<T>, item: T, compare: (T, T) -> int): (r: seq<T>)
    ensures |r| == |s| + 1
  {
    if s == [] || compare(item, s[0]) < 0 then [item] + s else [s[0]] + Inserted(s[1..], item, compare)
  }

  /** How many elements at the front do not compare bigger than the item. */
  function Place<T>(s: seq<T>, item: T, compare: (T, T) -> int): (k: nat)
    ensures k <= |s|
    ensures forall i :: 0 <= i < k ==> compare(item, s[i]) >= 0
    ensures k < |s| ==> compare(item, s[k]) < 0
  {
    if s == [] || compare(item, s[0]) < 0 then 0 else 1 + Place(s[1..], item, compare)
  }

  /** The place of the first occurrence. */
  function IndexOf<T(==)>(s: seq<T>, item: T): (k: nat)
    requires item in s
    ensures k < |s| && s[k] == item && item !in s[..k]
  {
    if s[0] == item then 0
    else
      assert s == [s[0]] + s[1..];
      var k := 1 + IndexOf(s[1..], item);
      assert s[..k] == [s[0]] + s[1..][..k - 1];
      k
  }

  lemma IndexOfFirst<T>(s: seq<T>, item: T, k: nat)
    requires k < |s| && s[k] == item
    ensures IndexOf(s, item) <= k
  {
    var i := IndexOf(s, item);
    assert forall j :: 0 <= j < i ==> s[j] == s[..i][j];
  }

  function Spliced<X>(s: seq<X>, k: nat, x: X): (r: seq<X>)
    requires k <= |s|
    ensures |r| == |s| + 1 && r[k] == x
    ensures forall i :: 0 <= i < |r| && i != k ==> r[i] == s[if i < k then i else i - 1]
  {
    s[..k] + [x] + s[k..]
  }

  function Cut<X>(s: seq<X>, k: nat): (r: seq<X>)
    requires k < |s|
    ensures |r| == |s| - 1
    ensures forall i :: 0 <= i < |r| ==> r[i] == s[if i < k then i else i + 1]
  {
    s[..k] + s[k + 1..]
  }

  lemma SplicedEnds<X>(s: seq<X>, k: nat, x: X)
    requires k <= |s|
    ensures k == 0 ==> Spliced(s, k, x) == [x] + s
    ensures k == |s| ==> Spliced(s, k, x) == s + [x]
  {
    hide Spliced;
  }

  lemma SplicedTail<X>(s: seq<X>, k: nat, x: X)
    requires 0 < k <= |s|
    ensures Spliced(s, k, x) == [s[0]] + Spliced(s[1..], k - 1, x)
  {
    hide Spliced;
  }

  lemma {:induction false} InsertedAt<T>(s: seq<T>, item: T, compare: (T, T) -> int)
    ensures Inserted(s, item, compare) == Spliced(s, Place(s, item, compare), item)
  {
    hide Spliced;
    if s == [] || compare(item, s[0]) < 0 {
      SplicedEnds(s, 0, item);
    } else {
      SplicedTail(s, Place(s, item, compare), item);
      InsertedAt(s[1..], item, compare);
    }
  }

  /** What was on the list before is on it still, and the item is. */
  lemma InsertedElements<T>(s: seq<T>, item: T, compare: (T, T) -> int)
    ensures forall x :: x in Inserted(s, item, compare) <==> x == item || x in s
  {
    if s != [] && compare(item, s[0]) >= 0 {
      InsertedElements(s[1..], item, compare);
    }
  }

  class ListElement<T> {
    var item: T
    var next: ListElement?<T>

    constructor (item: T)
      ensures this.item == item && next == null
    {
      this.item := item;
      next := null;
    }
  }

  class List<T(==)> {
    var first: ListElement?<T>
    var last: ListElement?<T>
    var numInList: nat
    ghost var nodes: seq<ListElement<T>>
    ghost var contents: seq<T>
    ghost var Repr: set<ListElement<T>>

    ghost predicate Valid()
      reads this, Repr
    {
      && (forall i :: 0 <= i < |nodes| ==> nodes[i] in Repr)
      && |contents| == |nodes| == numInList
      && (if nodes == [] then first == null && last == null else first == nodes[0] && last == nodes[|nodes| - 1])
      && (forall i, j :: 0 <= i < j < |nodes| ==> nodes[i] != nodes[j])
      && (forall i :: 0 <= i < |nodes| ==> nodes[i].item == contents[i])
      && (forall i, j :: 0 <= i && j == i + 1 < |nodes| ==> nodes[i].next == nodes[j])
      && (last != null ==> last.next == null)
    }

    constructor ()
      ensures Valid() && contents == [] && Repr == {}
    {
      first, last, numInList := null, null, 0;
      nodes, contents, Repr := [], [], {};
    }

    function IsEmpty(): (empty: bool)
      requires Valid()
      reads this, Repr
      ensures empty <==> contents == []
    {
      first == null
    }

    method IsInList(item: T) returns (found: bool)
      requires Valid()
      ensures found <==> item in contents
    {
      var ptr := first;
      ghost var i := 0;
      while ptr != null
        invariant i <= |nodes| && ptr == (if i < |nodes| then nodes[i] else null)
        invariant item !in contents[..i]
        decreases |nodes| - i
      {
        if item == ptr.item {
          return true;
        }
        ptr, i := ptr.next, i + 1;
      }
      assert contents[..i] == contents;
      return false;
    }

    method Append(item: T)
      requires Valid() && item !in contents
      modifies this, Repr
      ensures Valid() && contents == old(contents) + [item] && fresh(Repr - old(Repr))
    {
      var element := new ListElement<T>(item);
      if first == null {
        first := element;
      } else {
        last.next := element;
      }
      last := element;
      numInList := numInList + 1;
      nodes, contents, Repr := nodes + [element], contents + [item], Repr + {element};
    }

    method Prepend(item: T)
      requires Valid() && item !in contents
      modifies this, Repr
      ensures Valid() && contents == [item] + old(contents) && fresh(Repr - old(Repr))
    {
      var element := new ListElement<T>(item);
      if first == null {
        last := element;
      } else {
        element.next := first;
      }
      first := element;
      numInList := numInList + 1;
      ghost var was := nodes;
      nodes, contents, Repr := [element] + nodes, [item] + contents, Repr + {element};
      forall i, j | 0 <= i && j == i + 1 < |nodes| ensures nodes[i].next == nodes[j] {
        assert nodes[j] == was[i];
        assert i > 0 ==> nodes[i] == was[i - 1] && was[i - 1].next == was[i];
      }
    }

    method RemoveFront() returns (thing: T)
      requires Valid() && contents != []
      modifies this
      ensures Valid() && thing == old(contents[0]) && contents == old(contents[1..]) && Repr == old(Repr)
    {
      thing := first.item;
      if first == last {
        first, last := null, null;
      } else {
        first := first.next;
      }
      numInList := numInList - 1;
      ghost var was := nodes;
      nodes, contents := nodes[1..], contents[1..];
      assert forall i :: 0 <= i < |nodes| ==> nodes[i] == was[i + 1];
    }

    /** Unlinks the first occurrence. */
    method Remove(item: T)
      requires Valid() && item in contents
      modifies this, Repr
      ensures Valid() && contents == Cut(old(contents), IndexOf(old(contents), item)) && Repr == old(Repr)
    {
      hide Cut, IndexOf;
      ghost var place := IndexOf(contents, item);
      assert place > 0 ==> item != contents[..place][0];
      if item == first.item {
        assert contents[1..] == Cut(contents, 0);
        var removed := RemoveFront();
      } else {
        var prev, ptr := first, first.next;
        ghost var k := 1;
        while ptr.item != item
          invariant 0 < k <= place && prev == nodes[k - 1] && ptr == nodes[k]
          decreases |nodes| - k
        {
          prev, ptr, k := ptr, ptr.next, k + 1;
        }
        IndexOfFirst(contents, item, k);
        UnlinkAfter(prev, ptr, k);
      }
    }

    /** Takes `ptr`, which is behind `prev`, off the list. */
    method UnlinkAfter(prev: ListElement<T>, ptr: ListElement<T>, ghost k: nat)
      requires Valid() && 0 < k < |nodes| && prev == nodes[k - 1] && ptr == nodes[k]
      modifies this, Repr
      ensures Valid() && contents == Cut(old(contents), k) && Repr == old(Repr)
    {
      hide Cut;
      assert k + 1 < |nodes| ==> ptr.next == nodes[k + 1];
      prev.next := ptr.next;
      if prev.next == null {
        last := prev;
      }
      numInList := numInList - 1;
      ghost var was := nodes;
      nodes, contents := Cut(nodes, k), Cut(contents, k);
      forall i, j | 0 <= i && j == i + 1 < |nodes| ensures nodes[i].next == nodes[j] {
        assert i + 1 < k ==> was[i].next == was[i + 1];
        assert i >= k ==> was[i + 1].next == was[i + 2];
      }
    }

    /** Links a new element behind `ptr`, which is not the last. */
    method LinkAfter(ptr: ListElement<T>, item: T, ghost k: nat)
      requires Valid() && 0 < k < |nodes| && ptr == nodes[k - 1]
      modifies this, Repr
      ensures Valid() && contents == Spliced(old(contents), k, item) && fresh(Repr - old(Repr))
    {
      hide Spliced;
      var element := new ListElement<T>(item);
      ghost var was := nodes;
      assert ptr.next == was[k];
      element.next := ptr.next;
      ptr.next := element;
      numInList := numInList + 1;
      nodes, contents, Repr := Spliced(was, k, element), Spliced(contents, k, item), Repr + {element};
      forall i, j | 0 <= i && j == i + 1 < |nodes| ensures nodes[i].next == nodes[j] {
        assert i + 1 < k ==> was[i].next == was[i + 1];
        assert i > k ==> was[i - 1].next == was[i];
      }
    }

    /** SortedList::Insert. */
    method Insert(item: T, compare: (T, T) -> int)
      requires Valid() && item !in contents
      modifies this, Repr
      ensures Valid() && contents == Inserted(old(contents), item, compare) && fresh(Repr - old(Repr))
    {
      ghost var k := Place(contents, item, compare);
      InsertedAt(contents, item, compare);
      SplicedEnds(contents, k, item);
      hide Place, Inserted, Spliced;
      if first == null || compare(item, first.item) < 0 {
        Prepend(item);
        return;
      }
      var ptr := first;
      ghost var i := 0;
      while ptr.next != null
        invariant i < |nodes| && ptr == nodes[i] && i < k
        invariant i + 1 < |nodes| ==> ptr.next == nodes[i + 1]
        decreases |nodes| - i
      {
        if compare(item, ptr.next.item) < 0 {
          LinkAfter(ptr, item, k);
          return;
        }
        ptr, i := ptr.next, i + 1;
      }
      Append(item);
    }
  }
}
