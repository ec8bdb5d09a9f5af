/**
 The two linked lists of stream_sort.c, relinked in place: the doubly linked time list,
 whose head has a stale `prev`, and the circular list of addresses.
 */
module SortLists {
  import opened Media

  /** The first index at which `ps` has `p`; |ps| when it has none. */
  function FirstAt(ps: seq<nat>, p: nat): (i: nat)
    ensures i <= |ps| && (i < |ps| ==> ps[i] == p)
    ensures forall j :: 0 <= j < i ==> ps[j] != p
  {
    if ps == [] || ps[0] == p then 0 else 1 + FirstAt(ps[1..], p)
  }

  datatype Cell = Cell(position: nat, len: nat, ts: nat, kind: int, priority: int)

  /** The first cell later than `ts`. */
  function LaterAt(cells: seq<Cell>, ts: nat): (i: nat)
    ensures i <= |cells| && (i < |cells| ==> cells[i].ts > ts)
    ensures forall j :: 0 <= j < i ==> cells[j].ts <= ts
  {
    if cells == [] || cells[0].ts > ts then 0 else 1 + LaterAt(cells[1..], ts)
  }

  /** SC_ssnode; `position` is the offset of the node's pointer into the arena. */
  class SortNode {
    var position: nat
    var len: nat
    var timestamp: nat
    var kind: int
    var priority: int
    var prev: SortNode?
    var next: SortNode?

    constructor ()
      ensures prev == null && next == null
    {
      position, len, timestamp, kind, priority, prev, next := 0, 0, 0, 0, 0, null, null;
    }

    ghost function Data(): Cell
      reads this
    {
      Cell(position, len, timestamp, kind, priority)
    }

    method Fill(pos: nat, frameLen: nat, ts: nat, frameKind: int, prio: int)
      modifies this`position, this`len, this`timestamp, this`kind, this`priority
      ensures Data() == Cell(pos, frameLen, ts, frameKind, prio)
    {
      kind, len, position, timestamp, priority := frameKind, frameLen, pos, ts, prio;
    }
  }

  class TimeList {
    var head: SortNode?
    ghost var nodes: seq<SortNode>

    ghost function Repr(): set<SortNode>
      reads this
    {
      set n | n in nodes
    }

    ghost predicate Valid()
      reads this, Repr()`prev, Repr()`next
    {
      && (nodes == [] <==> head == null)
      && (nodes != [] ==> head == nodes[0])
      && (forall i, j :: 0 <= i < j < |nodes| ==> nodes[i] != nodes[j])
      && (forall i :: 0 <= i < |nodes| - 1 ==> nodes[i].next == nodes[i + 1])
      && (nodes != [] ==> nodes[|nodes| - 1].next == null)
      && (forall i :: 1 <= i < |nodes| ==> nodes[i].prev == nodes[i - 1])
    }

    ghost function Cells(): (r: seq<Cell>)
      reads this, Repr()
      ensures |r| == |nodes| && forall i :: 0 <= i < |r| ==> r[i] == nodes[i].Data()
    {
      seq(|nodes|, i requires 0 <= i < |nodes| reads this, Repr() => nodes[i].Data())
    }

    constructor ()
      ensures Valid() && nodes == []
    {
      head, nodes := null, [];
    }

    method Empty()
      modifies this
      ensures Valid() && nodes == [] && Cells() == []
    {
      head, nodes := null, [];
    }

    twostate lemma Unmoved()
      requires old(Valid()) && unchanged(this) && forall n :: n in nodes ==> unchanged(n)
      ensures Valid() && Cells() == old(Cells())
    {
      forall i | 0 <= i < |nodes| ensures unchanged(nodes[i]) {
        assert nodes[i] in nodes;
      }
    }

    /** The very first node: its `prev` is itself. */
    method InsertOnly(nd: SortNode)
      requires Valid() && nodes == []
      modifies this, nd`prev, nd`next
      ensures Valid() && nodes == [nd] && Cells() == [old(nd.Data())]
    {
      head := nd;
      nd.prev := nd;
      nd.next := null;
      nodes := [nd];
    }

    /** In front of the head; the new head gets the old one's stale `prev`. */
    method InsertHead(nd: SortNode)
      requires Valid() && nodes != [] && nd !in nodes
      modifies this, nd`prev, nd`next, Repr()
      ensures Valid() && nodes == [nd] + old(nodes) && Repr() == old(Repr()) + {nd}
      ensures Cells() == [old(nd.Data())] + old(Cells())
    {
      nd.prev := head.prev;
      nd.next := head;
      head.prev := nd;
      head := nd;
      nodes := [nd] + nodes;
    }

    /** In front of the first later node; only nodes behind the head have their `prev`
        followed.  Returns the timestamp of the node before. */
    method InsertSortMiddle(nd: SortNode) returns (before: nat, ghost i: nat)
      requires Valid() && nodes != [] && nd !in nodes
      requires nodes[0].timestamp <= nd.timestamp < nodes[|nodes| - 1].timestamp
      modifies this`nodes, nd`prev, nd`next, Repr()
      ensures Repr() == old(Repr()) + {nd}
      ensures 0 < i < |old(nodes)| && i == LaterAt(old(Cells()), nd.timestamp) && before == old(Cells())[i - 1].ts
      ensures Valid() && nodes == old(nodes)[..i] + [nd] + old(nodes)[i..]
      ensures Cells() == old(Cells())[..i] + [old(nd.Data())] + old(Cells())[i..]
    {
      hide Valid, LaterAt, Cells;
      var p;
      p, i := FindLater(nd.timestamp);
      before := p.prev.timestamp;
      ghost var was, cells := nodes, Cells();
      LinkBefore(p, nd, i);
      Spliced(was, cells, i, nd);
    }

    lemma Spliced(was: seq<SortNode>, cells: seq<Cell>, i: nat, nd: SortNode)
      requires |cells| == |was| && forall j :: 0 <= j < |was| ==> was[j].Data() == cells[j]
      requires i <= |was| && nodes == was[..i] + [nd] + was[i..]
      ensures Cells() == cells[..i] + [nd.Data()] + cells[i..]
      ensures Repr() == (set n | n in was) + {nd}
    {
      assert was == was[..i] + was[i..];
    }

    /** The first node later than `ts`, which is not the head, so its `prev` is right. */
    method FindLater(ts: nat) returns (p: SortNode, ghost i: nat)
      requires Valid() && nodes != [] && nodes[0].timestamp <= ts < nodes[|nodes| - 1].timestamp
      ensures 0 < i < |nodes| && p == nodes[i] && p.prev == nodes[i - 1]
      ensures i == LaterAt(Cells(), ts) && p == nodes[LaterAt(Cells(), ts)]
    {
      ghost var later := LaterAt(Cells(), ts);
      p := head;
      i := 0;
      while p.timestamp <= ts
        invariant 0 <= i < |nodes| && p == nodes[i] && i <= later
        decreases |nodes| - i
      {
        assert Cells()[i].ts == p.timestamp;
        assert i < |nodes| - 1 && p.next == nodes[i + 1];
        p := p.next;
        i := i + 1;
      }
      assert Cells()[i].ts == p.timestamp;
    }

    method LinkBefore(p: SortNode, nd: SortNode, ghost i: nat)
      requires Valid() && nd !in nodes && 0 < i < |nodes| && p == nodes[i]
      modifies this`nodes, nd`prev, nd`next, Repr()`prev, Repr()`next
      ensures Valid() && nodes == old(nodes)[..i] + [nd] + old(nodes)[i..]
      ensures forall n :: n in old(nodes) || n == nd ==> n.Data() == old(n.Data())
    {
      ghost var was, n := nodes, |nodes|;
      assert p.prev == nodes[i - 1] && nodes[i - 1].next == p;
      nd.next := p;
      nd.prev := p.prev;
      p.prev.next := nd;
      p.prev := nd;
      nodes := was[..i] + [nd] + was[i..];
      ghost var r := nodes;
      assert forall j :: 0 <= j < i ==> r[j] == was[j];
      assert forall j :: i < j <= n ==> r[j] == was[j - 1];
    }

    method InsertSortEnd(nd: SortNode)
      requires Valid() && nodes != [] && nd !in nodes
      modifies this`nodes, nd`prev, nd`next, Repr()
      ensures Valid() && nodes == old(nodes) + [nd]
      ensures Cells() == old(Cells()) + [old(nd.Data())]
    {
      var p := head;
      ghost var i := 0;
      while p.next != null
        invariant 0 <= i < |nodes| && p == nodes[i]
        invariant i < |nodes| - 1 ==> p.next == nodes[i + 1]
        decreases |nodes| - i
      {
        p := p.next;
        i := i + 1;
      }
      nd.next := null;
      nd.prev := p;
      p.next := nd;
      nodes := nodes + [nd];
    }

    /** Takes the head out; its links are left as they are. */
    method RemoveHead() returns (nd: SortNode)
      requires Valid() && |nodes| >= 2
      modifies this
      ensures nd == old(nodes)[0] && nd !in nodes && nd.Data() == old(nodes[0].Data())
      ensures Valid() && nodes == old(nodes)[1..]
      ensures Cells() == old(Cells())[1..]
    {
      nd := head;
      assert nd.next == nodes[1];
      head := nd.next;
      nodes := nodes[1..];
    }

    /** Takes the head out for good; the new head inherits its stale `prev`. */
    method PopHead()
      requires Valid() && |nodes| >= 2
      modifies this, Repr()`prev
      ensures Valid() && nodes == old(nodes)[1..]
      ensures Cells() == old(Cells())[1..]
    {
      var nd := RemoveHead();
      ghost var cells := Cells();
      if nd == nd.prev {
        head.prev := head;
      } else {
        head.prev := nd.prev;
      }
      assert Cells() == cells;
    }
  }

  /** SC_frameaddr. */
  class AddrNode {
    var position: nat
    var prev: AddrNode?
    var next: AddrNode?

    constructor (pos: nat)
      ensures position == pos
    {
      position, prev, next := pos, null, null;
    }
  }

  class AddrList {
    var head: AddrNode?
    ghost var nodes: seq<AddrNode>

    ghost function Repr(): set<AddrNode>
      reads this
    {
      set n | n in nodes
    }

    ghost predicate Valid()
      reads this, Repr()`prev, Repr()`next
    {
      && (nodes == [] <==> head == null)
      && (nodes != [] ==> head == nodes[0])
      && (forall i, j :: 0 <= i < j < |nodes| ==> nodes[i] != nodes[j])
      && (forall i :: 0 <= i < |nodes| - 1 ==> nodes[i].next == nodes[i + 1] && nodes[i + 1].prev == nodes[i])
      && (nodes != [] ==> nodes[|nodes| - 1].next == nodes[0] && nodes[0].prev == nodes[|nodes| - 1])
    }

    ghost function Positions(): (r: seq<nat>)
      reads this, Repr()
      ensures |r| == |nodes| && forall i :: 0 <= i < |r| ==> r[i] == nodes[i].position
    {
      seq(|nodes|, i requires 0 <= i < |nodes| reads this, Repr() => nodes[i].position)
    }

    constructor ()
      ensures Valid() && nodes == []
    {
      head, nodes := null, [];
    }

    method Empty()
      modifies this
      ensures Valid() && nodes == [] && Positions() == []
    {
      head, nodes := null, [];
    }

    twostate lemma Unmoved()
      requires old(Valid()) && unchanged(this) && forall n :: n in nodes ==> unchanged(n)
      ensures Valid() && Positions() == old(Positions())
    {
      forall i | 0 <= i < |nodes| ensures unchanged(nodes[i]) {
        assert nodes[i] in nodes;
      }
    }

    /** CFrameaddrList with type 0. */
    method Add(position: nat)
      requires Valid()
      modifies this, Repr()
      ensures Valid() && fresh(Repr() - old(Repr()))
      ensures Positions() == old(Positions()) + [position]
    {
      var fd := new AddrNode(position);
      if head == null {
        head := fd;
        fd.next := fd;
        fd.prev := fd;
        nodes := [fd];
        return;
      }
      var ad := head.prev;
      fd.next := head;
      head.prev := fd;
      fd.prev := ad;
      ad.next := fd;
      nodes := nodes + [fd];
    }

    /** The first node with this position, once round from the head; null for none. */
    method Find(position: nat) returns (node: AddrNode?, ghost i: nat)
      requires Valid() && nodes != []
      ensures i == FirstAt(Positions(), position)
      ensures var at := FirstAt(Positions(), position); node == if at < |nodes| then nodes[at] else null
      ensures node != null ==> node.position == position
    {
      ghost var first := FirstAt(Positions(), position);
      node := head;
      i := 0;
      while true
        invariant 0 <= i < |nodes| && node == nodes[i]
        invariant i <= first
        decreases |nodes| - i
      {
        assert Positions()[i] == node.position;
        if node.position == position {
          return;
        }
        assert node.next == if i + 1 < |nodes| then nodes[i + 1] else nodes[0];
        node := node.next;
        i := i + 1;
        if node == head {
          node := null;
          return;
        }
      }
    }

    /** CFrameaddrList with type 1: the node with the old position gets the new one and
        goes to the end of the ring; -2 when there is none. */
    method MoveToEnd(newPos: nat, oldPos: nat) returns (ret: int, ghost i: nat)
      requires Valid() && nodes != []
      modifies this, Repr()
      ensures Valid() && Repr() <= old(Repr())
      ensures i == FirstAt(old(Positions()), oldPos)
      ensures i < |old(nodes)| ==> ret == 0
      ensures i < |old(nodes)| ==> Positions() == Without(old(Positions()), i) + [newPos]
      ensures i == |old(nodes)| ==> ret == -2 && Positions() == old(Positions())
    {
      hide Valid, FirstAt;
      var fd;
      fd, i := Find(oldPos);
      if fd == null {
        return -2, i;
      }
      fd.position := newPos;
      ToEnd(fd, i);
      ret := 0;
    }

    method ToEnd(fd: AddrNode, ghost i: nat)
      requires Valid() && i < |nodes| && fd == nodes[i]
      modifies this, Repr()`prev, Repr()`next
      ensures Valid() && nodes == Without(old(nodes), i) + [fd]
      ensures forall n :: n in old(nodes) ==> n.position == old(n.position)
    {
      ghost var n := |nodes|;
      assert fd.next == if i + 1 < n then nodes[i + 1] else nodes[0];
      assert head.prev == nodes[n - 1] && (fd == head <==> i == 0) && (head.prev == fd <==> i == n - 1);
      if fd == head {
        head := fd.next;
        nodes := nodes[1..] + [fd];
      } else if head.prev != fd {
        Relink(fd, i);
      }
    }

    /** Out of the middle of the ring, in again between its end and its head. */
    method Relink(fd: AddrNode, ghost i: nat)
      requires Valid() && 0 < i < |nodes| - 1 && fd == nodes[i]
      modifies this`nodes, Repr()`prev, Repr()`next
      ensures Valid() && nodes == Without(old(nodes), i) + [fd]
    {
      ghost var n := |nodes|;
      assert fd.next == nodes[i + 1] && fd.prev == nodes[i - 1] && head.prev == nodes[n - 1];
      fd.prev.next := fd.next;
      fd.next.prev := fd.prev;
      head.prev.next := fd;
      fd.prev := head.prev;
      head.prev := fd;
      fd.next := head;
      nodes := Without(nodes, i) + [fd];
    }

    /** CFrameaddrList with type 2, not used on the only node. */
    method Delete(position: nat) returns (ret: int, ghost i: nat)
      requires Valid() && |nodes| >= 2
      modifies this, Repr()
      ensures Valid() && Repr() <= old(Repr())
      ensures i == FirstAt(old(Positions()), position)
      ensures i < |old(nodes)| ==> ret == 0 && Positions() == Without(old(Positions()), i)
      ensures i == |old(nodes)| ==> ret == -2 && Positions() == old(Positions())
    {
      var fd;
      fd, i := Find(position);
      if fd == null {
        return -2, i;
      }
      Unlink(fd, i);
      hide Valid;
      ret := 0;
    }

    method Unlink(fd: AddrNode, ghost i: nat)
      requires Valid() && |nodes| >= 2 && i < |nodes| && fd == nodes[i]
      modifies this, Repr()`prev, Repr()`next
      ensures Valid() && nodes == Without(old(nodes), i)
      ensures forall n :: n in old(nodes) ==> n.position == old(n.position)
    {
      ghost var n := |nodes|;
      assert fd.next == if i + 1 < n then nodes[i + 1] else nodes[0];
      assert fd.prev == if i > 0 then nodes[i - 1] else nodes[n - 1];
      assert fd == head <==> i == 0;
      fd.prev.next := fd.next;
      fd.next.prev := fd.prev;
      if fd == head {
        head := fd.next;
      }
      nodes := Without(nodes, i);
    }
  }
}
