/** The intrusive lists of queue.h as they stand in memory: SLIST, LIST with its pointers to the
    previous next field, and SIMPLEQ with its pointer to the last next field. Each keeps a ghost
    sequence of its elements; `Valid` says that every pointer agrees with it. */
module Queues {

  // ----- SLIST -----

  /** An element with a next pointer only. */
  class Cell<T> {
    var data: T
    var next: Cell?<T>

    constructor (data: T)
      ensures this.data == data
    {
      this.data, next := data, null;
    }
  }

  class SingleList<T> {
    var first: Cell?<T>
    ghost var cells: seq<Cell<T>>

    ghost predicate Valid()
      reads this, cells
    {
      && (forall i, j :: 0 <= i < j < |cells| ==> cells[i] != cells[j])
      && first == (if cells == [] then null else cells[0])
      && forall i {:trigger cells[i].next} :: 0 <= i < |cells| ==>
           cells[i].next == if i + 1 < |cells| then cells[i + 1] else null
    }

    ghost function Contents(): (s: seq<T>)
      reads this, cells
      ensures |s| == |cells| && forall i :: 0 <= i < |s| ==> s[i] == cells[i].data
    {
      seq(|cells|, i requires 0 <= i < |cells| reads this, cells => cells[i].data)
    }

    constructor ()
      ensures Valid() && cells == []
    {
      first, cells := null, [];
    }

    /** SLIST_INSERT_HEAD */
    method InsertHead(elm: Cell<T>)
      requires Valid() && elm !in cells
      modifies this, elm`next
      ensures Valid() && cells == [elm] + old(cells)
      ensures Contents() == [elm.data] + old(Contents())
    {
      elm.next := first;
      first := elm;
      cells := [elm] + cells;
    }

    /** SLIST_REMOVE_HEAD */
    method RemoveHead()
      requires Valid() && cells != []
      modifies this
      ensures Valid() && cells == old(cells)[1..]
      ensures Contents() == old(Contents())[1..]
    {
      first := first.next;
      cells := cells[1..];
    }
  }

  // ----- SIMPLEQ -----

  /** The address of a pointer to an element: the first field of a queue, or a next field. */
  datatype CellSlot<!T> = FirstOf(q: SimpleQueue<T>) | NextOf(cell: Cell<T>)

  class SimpleQueue<T> {
    var first: Cell?<T>
    var last: CellSlot<T>
    ghost var cells: seq<Cell<T>>

    ghost predicate Valid()
      reads this, cells
    {
      && (forall i, j :: 0 <= i < j < |cells| ==> cells[i] != cells[j])
      && first == (if cells == [] then null else cells[0])
      && last == (if cells == [] then FirstOf(this) else NextOf(cells[|cells| - 1]))
      && forall i {:trigger cells[i].next} :: 0 <= i < |cells| ==>
           cells[i].next == if i + 1 < |cells| then cells[i + 1] else null
    }

    ghost function Contents(): (s: seq<T>)
      reads this, cells
      ensures |s| == |cells| && forall i :: 0 <= i < |s| ==> s[i] == cells[i].data
    {
      seq(|cells|, i requires 0 <= i < |cells| reads this, cells => cells[i].data)
    }

    constructor ()
      ensures Valid() && cells == []
    {
      first, cells := null, [];
      last := FirstOf(this);
    }

    /** SIMPLEQ_INSERT_TAIL: stores through the pointer to the last next field. */
    method InsertTail(elm: Cell<T>)
      requires Valid() && elm !in cells
      modifies this, elm`next, cells
      ensures Valid() && cells == old(cells) + [elm]
      ensures Contents() == old(Contents()) + [old(elm.data)]
    {
      elm.next := null;
      match last {
        case FirstOf(q) => q.first := elm;
        case NextOf(cell) => cell.next := elm;
      }
      last := NextOf(elm);
      cells := cells + [elm];
    }

    /** SIMPLEQ_REMOVE_HEAD, given the first element. */
    method RemoveHead(elm: Cell<T>)
      requires Valid() && elm == first
      modifies this
      ensures Valid() && old(cells) != [] && cells == old(cells)[1..]
      ensures Contents() == old(Contents())[1..]
    {
      first := elm.next;
      if first == null {
        last := FirstOf(this);
      }
      cells := cells[1..];
    }
  }

  // ----- LIST -----

  /** The address of a pointer to an element: the first field of a list, or a next field. */
  datatype NodeSlot<!T> = Unset | HeadOf(list: LinkedList<T>) | AfterNode(node: Node<T>)

  class Node<T> {
    var data: T
    var next: Node?<T>
    var prev: NodeSlot<T>

    constructor (data: T)
      ensures this.data == data
    {
      this.data, next, prev := data, null, Unset;
    }
  }

  lemma WithoutOne<X>(s: seq<X>, k: nat)
    requires k < |s| && forall i, j :: 0 <= i < j < |s| ==> s[i] != s[j]
    ensures var r := s[..k] + s[k + 1..];
            && |r| == |s| - 1
            && (forall i :: 0 <= i < k ==> r[i] == s[i])
            && (forall i :: k <= i < |r| ==> r[i] == s[i + 1])
            && forall i, j :: 0 <= i < j < |r| ==> r[i] != r[j]
  {
  }

  class LinkedList<T> {
    var first: Node?<T>
    ghost var nodes: seq<Node<T>>

    ghost predicate Valid()
      reads this, nodes
    {
      && (forall i, j :: 0 <= i < j < |nodes| ==> nodes[i] != nodes[j])
      && first == (if nodes == [] then null else nodes[0])
      && (forall i {:trigger nodes[i].next} :: 0 <= i < |nodes| ==>
            nodes[i].next == if i + 1 < |nodes| then nodes[i + 1] else null)
      && forall i {:trigger nodes[i].prev} :: 0 <= i < |nodes| ==>
           nodes[i].prev == if i == 0 then HeadOf(this) else AfterNode(nodes[i - 1])
    }

    ghost function Contents(): (s: seq<T>)
      reads this, nodes
      ensures |s| == |nodes| && forall i :: 0 <= i < |s| ==> s[i] == nodes[i].data
    {
      seq(|nodes|, i requires 0 <= i < |nodes| reads this, nodes => nodes[i].data)
    }

    constructor ()
      ensures Valid() && nodes == []
    {
      first, nodes := null, [];
    }

    /** `*slot`, for any back pointer of the list: it is the node that holds the pointer. */
    lemma BackPointer(i: nat)
      requires Valid() && i < |nodes|
      ensures match nodes[i].prev
              case HeadOf(list) => list == this && list.first == nodes[i]
              case AfterNode(node) => node in nodes && node.next == nodes[i]
              case Unset => false
    {
      if i > 0 {
        assert nodes[i - 1].next == nodes[i];
      }
    }

    /** Assigns the payload of an element; the links do not move. */
    method SetData(elm: Node<T>, data: T, ghost k: nat)
      requires Valid() && k < |nodes| && nodes[k] == elm
      modifies elm`data
      ensures Valid() && elm.data == data
      ensures Contents() == old(Contents())[k := data]
    {
      elm.data := data;
    }

    /** LIST_INSERT_HEAD */
    method InsertHead(elm: Node<T>)
      requires Valid() && elm !in nodes
      modifies this, elm`next, elm`prev, nodes
      ensures Valid() && nodes == [elm] + old(nodes)
      ensures Contents() == [old(elm.data)] + old(Contents())
    {
      elm.next := first;
      if elm.next != null {
        first.prev := AfterNode(elm);
      }
      first := elm;
      elm.prev := HeadOf(this);
      nodes := [elm] + nodes;
    }

    function NodeAt(all: seq<Node<T>>, i: nat): Node?<T> {
      if i < |all| then all[i] else null
    }

    /** The pointers lead past element `k` of `all`. */
    ghost predicate SkipsOver(all: seq<Node<T>>, k: nat)
      reads this, all
    {
      && first == NodeAt(all, if k == 0 then 1 else 0)
      && (forall i {:trigger all[i].next} :: 0 <= i < |all| && i != k ==>
            all[i].next == NodeAt(all, if i + 1 == k then k + 1 else i + 1))
      && forall i {:trigger all[i].prev} :: 0 <= i < |all| && i != k ==>
           all[i].prev == if i == 0 || (i == 1 && k == 0) then HeadOf(this) else AfterNode(all[if i == k + 1 then i - 2 else i - 1])
    }

    lemma SkippingIsValid(all: seq<Node<T>>, k: nat)
      requires k < |all| && SkipsOver(all, k) && nodes == all[..k] + all[k + 1..]
      requires forall i, j :: 0 <= i < j < |all| ==> all[i] != all[j]
      ensures Valid()
    {
      WithoutOne(all, k);
    }

    lemma ContentsWithout(all: seq<Node<T>>, k: nat, before: seq<T>)
      requires k < |all| == |before| && nodes == all[..k] + all[k + 1..]
      requires forall i :: 0 <= i < |all| ==> before[i] == all[i].data
      ensures Contents() == before[..k] + before[k + 1..]
    {
    }

    /** The pointers around an element let go of it: the one that leads to it goes to the next
        element, and that one's back pointer to where the element's was. */
    method Unlink(elm: Node<T>, ghost k: nat)
      requires Valid() && k < |nodes| && nodes[k] == elm
      modifies this`first, nodes
      ensures SkipsOver(nodes, k)
      ensures forall i :: 0 <= i < |nodes| ==> nodes[i].data == old(nodes[i].data)
    {
      BackPointer(k);
      if elm.next != null {
        elm.next.prev := elm.prev;
      }
      match elm.prev {
        case HeadOf(list) => list.first := elm.next;
        case AfterNode(n) => n.next := elm.next;
      }
    }

    /** LIST_REMOVE: unlinks an element wherever it stands. */
    method Remove(elm: Node<T>, ghost k: nat)
      requires Valid() && k < |nodes| && nodes[k] == elm
      modifies this, nodes
      ensures Valid() && nodes == old(nodes)[..k] + old(nodes)[k + 1..]
      ensures Contents() == old(Contents())[..k] + old(Contents())[k + 1..]
    {
      ghost var all, before := nodes, Contents();
      Unlink(elm, k);
      nodes := all[..k] + all[k + 1..];
      SkippingIsValid(all, k);
      ContentsWithout(all, k, before);
    }

    lemma ContentsWith(all: seq<Node<T>>, k: nat, elm2: Node<T>, before: seq<T>)
      requires k < |all| == |before| && nodes == all[k := elm2]
      requires forall i :: 0 <= i < |all| && i != k ==> before[i] == all[i].data
      ensures Contents() == before[k := elm2.data]
    {
    }

    /** The pointers lead through `elm2` in place of element `k` of `all`. */
    ghost predicate LeadsThrough(all: seq<Node<T>>, k: nat, elm2: Node<T>)
      requires k < |all|
      reads this, all, elm2
    {
      var now := all[k := elm2];
      && first == now[0]
      && elm2.next == NodeAt(all, k + 1)
      && elm2.prev == (if k == 0 then HeadOf(this) else AfterNode(all[k - 1]))
      && (forall i {:trigger all[i].next} :: 0 <= i < |all| && i != k ==> all[i].next == NodeAt(now, i + 1))
      && forall i {:trigger all[i].prev} :: 0 <= i < |all| && i != k ==>
           all[i].prev == if i == 0 then HeadOf(this) else AfterNode(now[i - 1])
    }

    lemma LeadingIsValid(all: seq<Node<T>>, k: nat, elm2: Node<T>)
      requires k < |all| && LeadsThrough(all, k, elm2) && nodes == all[k := elm2] && elm2 !in all
      requires forall i, j :: 0 <= i < j < |all| ==> all[i] != all[j]
      ensures Valid()
    {
    }

    /** The pointers of the macro. */
    method Splice(elm: Node<T>, elm2: Node<T>, ghost k: nat)
      requires Valid() && k < |nodes| && nodes[k] == elm && elm2 !in nodes
      modifies this`first, nodes, elm2`next, elm2`prev
      ensures LeadsThrough(nodes, k, elm2) && elm2.data == old(elm2.data)
      ensures forall i :: 0 <= i < |nodes| ==> nodes[i].data == old(nodes[i].data)
    {
      BackPointer(k);
      elm2.next := elm.next;
      if elm2.next != null {
        elm2.next.prev := AfterNode(elm2);
      }
      elm2.prev := elm.prev;
      match elm2.prev {
        case HeadOf(list) => list.first := elm2;
        case AfterNode(n) => n.next := elm2;
      }
    }

    /** LIST_REPLACE: puts another element in the place of one. */
    method Replace(elm: Node<T>, elm2: Node<T>, ghost k: nat)
      requires Valid() && k < |nodes| && nodes[k] == elm && elm2 !in nodes
      modifies this, nodes, elm2`next, elm2`prev
      ensures Valid() && nodes == old(nodes)[k := elm2]
      ensures Contents() == old(Contents())[k := old(elm2.data)]
    {
      ghost var all, before := nodes, Contents();
      Splice(elm, elm2, k);
      nodes := all[k := elm2];
      LeadingIsValid(all, k, elm2);
      ContentsWith(all, k, elm2, before);
    }
  }
}
