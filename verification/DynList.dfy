/** The intrusive circular doubly linked list of the kernel, here with messages as its nodes. */
module DynList {

  type byte = x: int | 0 <= x < 256

  /** struct msg: the list node comes first, the payload after it. */
  class Msg {
    var list: List?
    var prev: Msg?
    var next: Msg?
    var buffer: seq<byte>
    var length: nat

    constructor (buffer: seq<byte>)
      ensures list == null && prev == null && next == null && this.buffer == buffer && length == 0
    {
      list, prev, next := null, null, null;
      this.buffer := buffer;
      length := 0;
    }

    /** In no list. */
    predicate Free()
      reads this
    {
      list == null && prev == null && next == null
    }
  }

  /** struct dynList; `nodes` is the sequence the pointers form, from the head on. */
  class List {
    var head: Msg?
    var noElem: int
    ghost var nodes: seq<Msg>

    ghost predicate Valid()
      reads this, (set m | m in nodes)`list, (set m | m in nodes)`prev, (set m | m in nodes)`next
    {
      && noElem == |nodes|
      && (forall i, j :: 0 <= i < j < |nodes| ==> nodes[i] != nodes[j])
      && head == (if nodes == [] then null else nodes[0])
      && (forall i :: 0 <= i < |nodes| ==> nodes[i].list == this)
      && (forall i :: 0 <= i < |nodes| - 1 ==> nodes[i].next == nodes[i + 1])
      && (forall i :: 1 <= i < |nodes| ==> nodes[i].prev == nodes[i - 1])
      && (nodes != [] ==> nodes[|nodes| - 1].next == nodes[0] && nodes[0].prev == nodes[|nodes| - 1])
    }

    /** DynListInit */
    constructor ()
      ensures Valid() && nodes == []
    {
      head, noElem, nodes := null, 0, [];
    }

    /** DynListInsertHead: a node already in the list stays where it is. */
    method InsertHead(e: Msg) returns (r: int)
      requires Valid() && (e.list == null ==> e.Free()) && (e.list != null ==> e.list == this)
      modifies this, e`list, e`prev, e`next, (set m | m in nodes)`prev, (set m | m in nodes)`next
      ensures Valid() && r == 0
      ensures nodes == if old(e.list) == null then [e] + old(nodes) else old(nodes)
    {
      if e.list != null { return 0; }
      if head != null {
        e.next := head;
        e.prev := head.prev;
        head.prev.next := e;
        head.prev := e;
      } else {
        e.prev, e.next := e, e;
      }
      head := e;
      noElem := noElem + 1;
      e.list := this;
      nodes := [e] + nodes;
      return 0;
    }

    /** DynListInsertTail */
    method InsertTail(e: Msg) returns (r: int)
      requires Valid() && (e.list == null ==> e.Free()) && (e.list != null ==> e.list == this)
      modifies this, e`list, e`prev, e`next, (set m | m in nodes)`prev, (set m | m in nodes)`next
      ensures Valid() && r == 0
      ensures nodes == if old(e.list) == null then old(nodes) + [e] else old(nodes)
    {
      if e.list != null { return 0; }
      if head != null {
        e.next := head;
        e.prev := head.prev;
        head.prev.next := e;
        head.prev := e;
      } else {
        e.prev, e.next := e, e;
        head := e;
      }
      noElem := noElem + 1;
      e.list := this;
      nodes := nodes + [e];
      return 0;
    }

    /** DynListRemoveHead */
    method RemoveHead() returns (e: Msg?)
      requires Valid()
      modifies this, (set m | m in nodes)`list, (set m | m in nodes)`prev, (set m | m in nodes)`next
      ensures Valid()
      ensures if old(nodes) == [] then e == null && nodes == []
              else e == old(nodes)[0] && e.Free() && nodes == old(nodes)[1..]
    {
      e := null;
      if head != null {
        assert |nodes| > 1 ==> nodes[0].next == nodes[1];
        e := head;
        head := e.next;
        e.prev.next := e.next;
        e.next.prev := e.prev;
        e.prev, e.next := null, null;
        e.list := null;
        noElem := noElem - 1;
        if noElem == 0 { head := null; }
        nodes := nodes[1..];
      }
    }

    /** DynListRemoveTail */
    method RemoveTail() returns (e: Msg?)
      requires Valid()
      modifies this, (set m | m in nodes)`list, (set m | m in nodes)`prev, (set m | m in nodes)`next
      ensures Valid()
      ensures if old(nodes) == [] then e == null && nodes == []
              else e == old(nodes)[|old(nodes)| - 1] && e.Free() && nodes == old(nodes)[..|old(nodes)| - 1]
    {
      e := null;
      if head != null {
        assert |nodes| > 1 ==> nodes[|nodes| - 1].prev == nodes[|nodes| - 2];
        e := head.prev;
        e.prev.next := e.next;
        e.next.prev := e.prev;
        e.prev, e.next := null, null;
        e.list := null;
        noElem := noElem - 1;
        if noElem == 0 { head := null; }
        nodes := nodes[..|nodes| - 1];
      }
    }

    /** DynListRemoveElement: takes one node out of the middle, wherever it is. */
    method RemoveElement(e: Msg, ghost k: nat) returns (r: int)
      requires Valid() && k < |nodes| && e == nodes[k]
      modifies this, (set m | m in nodes)`list, (set m | m in nodes)`prev, (set m | m in nodes)`next
      ensures Valid() && r == 0 && e.Free()
      ensures nodes == old(nodes)[..k] + old(nodes)[k + 1..]
    {
      ghost var was := nodes;
      assert e.next == if k + 1 < |nodes| then nodes[k + 1] else nodes[0];
      assert e.prev == if k > 0 then nodes[k - 1] else nodes[|nodes| - 1];
      e.prev.next := e.next;
      e.next.prev := e.prev;
      if head == e { head := e.next; }
      e.prev, e.next := null, null;
      e.list := null;
      noElem := noElem - 1;
      if noElem == 0 { head := null; }
      nodes := nodes[..k] + nodes[k + 1..];
      Without(was, k);
      return 0;
    }

    lemma Without(was: seq<Msg>, k: nat)
      requires k < |was|
      ensures var s := was[..k] + was[k + 1..];
              && |s| == |was| - 1
              && (forall i :: 0 <= i < k ==> s[i] == was[i])
              && (forall i :: k <= i < |s| ==> s[i] == was[i + 1])
    {}
  }
}
