/** The reorder buffer as the object it is: arena, lists and counters changed in place. */
module SortBuffer {
  import opened Media
  import opened SortSpec
  import opened SortInv
  import opened SortKeeps
  import opened SortLists

  function CellOf(e: Entry): Cell {
    Cell(e.pos, e.Len(), e.Ts(), e.item.frame.kind, e.item.frame.priority)
  }

  function CellsOf(es: seq<Entry>): (r: seq<Cell>)
    ensures |r| == |es| && forall i :: 0 <= i < |es| ==> r[i] == CellOf(es[i])
  {
    seq(|es|, i requires 0 <= i < |es| => CellOf(es[i]))
  }

  function PositionsOf(es: seq<Entry>): (r: seq<nat>)
    ensures |r| == |es| && forall i :: 0 <= i < |es| ==> r[i] == es[i].pos
  {
    seq(|es|, i requires 0 <= i < |es| => es[i].pos)
  }

  /** The numeric members of SC_ssbuff. */
  datatype Gauge = Gauge(
    position: nat, put: nat, pop: nat, validLen: int,
    sortTime: nat, sortTimeBak: nat, maxSortTime: nat, analyTime: nat, analyClock: nat,
    maxTs: nat, minTs: nat, preMinTs: nat, lateDrop: nat, earlyDrop: nat)

  function GaugeOf(s: Sorter): Gauge {
    Gauge(s.position, s.put, s.pop, s.validLen, s.sortTime, s.sortTimeBak, s.maxSortTime, s.analyTime, s.analyClock,
          s.maxTs, s.minTs, s.preMinTs, s.lateDrop, s.earlyDrop)
  }

  class StreamSort {
    const list: TimeList
    const addr: AddrList
    /** The length from which the callback answers -2. */
    const limit: nat
    var pdata: array<byte>
    var k: Gauge

    /** The state this object stands for, and what the callback has been given. */
    ghost var s: Sorter
    ghost var got: seq<Item>

    ghost function Footprint(): set<object>
      reads this, list, addr
    {
      {this, list, addr, pdata} + list.Repr() + addr.Repr()
    }

    /** The two lists hold these entries. */
    ghost predicate Lists(time: seq<Entry>, ring: seq<Entry>)
      reads list, addr, list.nodes, addr.nodes
    {
      && list.Valid() && list.Cells() == CellsOf(time)
      && addr.Valid() && addr.Positions() == PositionsOf(ring)
    }

    ghost predicate Matches()
      reads this, list, addr, pdata, list.nodes, addr.nodes
    {
      Lists(s.time, s.ring) && k == GaugeOf(s) && pdata[..] == s.arena
    }

    constructor (size: nat, delay: nat, maxDelay: nat, now: nat, lim: nat)
      ensures Matches() && s == Create(size, delay, maxDelay, now) && got == [] && limit == lim
      ensures fresh(Footprint())
    {
      list := new TimeList();
      addr := new AddrList();
      limit := lim;
      pdata := new byte[size](_ => 0);
      k := GaugeOf(Create(size, delay, maxDelay, now));
      s := Create(size, delay, maxDelay, now);
      got := [];
    }

    /** memcpy into the arena. */
    method CopyTo(pos: nat, frame: seq<byte>)
      requires pos + |frame| <= pdata.Length
      modifies pdata
      ensures pdata[..] == Blit(old(pdata[..]), pos, frame)
    {
      forall i | 0 <= i < |frame| {
        pdata[pos + i] := frame[i];
      }
    }

    /** Copies a frame in at the write position, or at 0 when it does not fit before the
        end; the arena is never so small that it would run into the write position. */
    method MemcpyToSortBuff(frame: seq<byte>) returns (wpos: nat)
      requires Matches() && 2 * |frame| < pdata.Length
      modifies this`k, this`s, pdata
      ensures Matches() && s == Store(old(s), frame) && wpos == WritePos(old(s), |frame|)
    {
      hide Lists, Blit;
      var position := k.position;
      wpos := position;
      s := Store(s, frame);
      if position + |frame| <= pdata.Length {
        CopyTo(position, frame);
        position := position + |frame|;
        if position == pdata.Length {
          position := 0;
        }
      } else {
        assert |frame| < position;
        CopyTo(0, frame);
        position := |frame|;
        wpos := 0;
      }
      k := k.(position := position);
    }

    method CleanSortBuff(now: nat)
      requires Matches()
      modifies this`k, this`s, list, addr
      ensures Matches() && s == Clean(old(s), now)
      ensures list.nodes == [] && addr.nodes == [] && list.Repr() == {} && addr.Repr() == {}
    {
      list.Empty();
      addr.Empty();
      assert Lists([], []);
      hide Lists;
      k := k.(position := 0, validLen := 0, put := 0, pop := 0, maxTs := 0, minTs := 0, preMinTs := 0,
              analyTime := 0, analyClock := now, sortTime := k.sortTimeBak);
      s := Clean(s, now);
    }

    /** The five-minute reduction of the sort delay. */
    method ReduceDelay(now: nat)
      requires Matches()
      modifies this`k, this`s
      ensures Matches() && s == Decay(old(s), now)
    {
      hide Lists;
      s := Decay(s, now);
      if Wrap64(now - k.analyClock) >= 5 * 60 {
        var t := k.sortTime;
        if k.analyTime < t && k.analyTime > 0 {
          var def := t - k.analyTime;
          if def > 200000 {
            t := Wrap32(t - 200000);
          }
          if def > 100000 {
            t := Wrap32(t - 100000);
          } else {
            t := k.analyTime;
          }
          if t < k.sortTimeBak {
            t := k.sortTimeBak;
          }
        }
        k := k.(sortTime := t, analyTime := 0, analyClock := now);
      }
    }

    /** A bigger arena with the held frames packed in the order of the time list; node `i`
        of either list gets the address of frame `i`. */
    method RemallocSortBuff(size: nat, now: nat)
      requires Matches() && Inv(s) && k.put > 2 && pdata.Length < size
      modifies this`pdata, this`k, this`s, list.Repr(), addr.Repr()
      ensures Matches() && s == Regrow(old(s), size, now) && fresh(pdata)
    {
      hide Inv, Lists, PackedTo, Regrow, Pack, SumLen;
      HeldFits(s);
      MixedEnds();
      RegrowGauge(s, size, now);
      var newData := new byte[size](_ => 0);
      assert newData[..] == Zeros(size);
      PackedStart(s, newData[..]);
      var at := Repack(newData);
      PackedEnd(s, newData[..], at, now);
      pdata := newData;
      k := k.(position := at, preMinTs := 0, lateDrop := 0, earlyDrop := 0, analyClock := now);
      s := Regrow(s, size, now);
    }

    /** The first `i` frames of the time list, packed, and zeros behind them. */
    static ghost predicate PackedTo(s: Sorter, data: seq<byte>, at: nat, i: nat) {
      && i <= |s.time|
      && at == |Concat(Reads(s.arena, s.time)[..i])| <= |data|
      && data == Concat(Reads(s.arena, s.time)[..i]) + Zeros(|data| - at)
    }

    static lemma PackedStart(s: Sorter, data: seq<byte>)
      requires data == Zeros(|data|)
      ensures PackedTo(s, data, 0, 0)
    {
      assert Reads(s.arena, s.time)[..0] == [];
    }

    static lemma PackedNext(s: Sorter, data: seq<byte>, at: nat, i: nat)
      requires Inv(s) && i < |s.time| && SumLen(s.time) <= |data| && PackedTo(s, data, at, i)
      ensures var e := s.time[i];
              && e.End() <= |s.arena| && at + e.Len() <= |data| && at == Pack(s.time)[i].pos
              && PackedTo(s, data[..at] + s.arena[e.pos..e.End()] + data[at + e.Len()..], at + e.Len(), i + 1)
    {
      PackFact(s, i);
      var e := s.time[i];
      hide Inv, Concat, Reads, Pack;
      assert data[at + e.Len()..] == Zeros(|data| - (at + e.Len()));
    }

    static lemma RegrowGauge(s: Sorter, size: nat, now: nat)
      ensures var t := Regrow(s, size, now);
              GaugeOf(t) == GaugeOf(s).(position := t.position, preMinTs := 0, lateDrop := 0, earlyDrop := 0, analyClock := now)
    {
    }

    static lemma PackedEnd(s: Sorter, data: seq<byte>, at: nat, now: nat)
      requires PackedTo(s, data, at, |s.time|) && |s.ring| == |s.time|
      ensures var t := Regrow(s, |data|, now); data == t.arena && at == t.position
      ensures Regrow(s, |data|, now).time == Regrow(s, |data|, now).ring == Pack(s.time)
    {
      RegrowRing(s, |data|, now);
      assert Reads(s.arena, s.time)[..|s.time|] == Reads(s.arena, s.time);
    }

    /** The loop of RemallocSortBuff over both lists at once. */
    method Repack(newData: array<byte>) returns (at: nat)
      requires Matches() && Inv(s) && newData != pdata
      requires SumLen(s.time) <= newData.Length && PackedTo(s, newData[..], 0, 0)
      modifies newData, list.Repr()`position, addr.Repr()`position
      ensures Lists(Pack(s.time), Pack(s.time)) && PackedTo(s, newData[..], at, |s.time|)
    {
      hide Inv, SumLen, Mixed, PackedTo, Lists, Pack;
      at := 0;
      var node, fa := list.head, addr.head;
      ghost var i, n := 0, |s.time|;
      MixedEnds();
      ListSizes(s.time, s.ring);
      while node != null && fa != null
        invariant 0 <= i <= n == |list.nodes| == |addr.nodes|
        invariant node == if i < n then list.nodes[i] else null
        invariant n > 0 ==> fa == addr.nodes[if i < n then i else 0]
        invariant Lists(Mixed(s.time, i), Mixed(s.ring, i)) && PackedTo(s, newData[..], at, i)
        decreases n - i
      {
        Links(i);
        var len := PackStep(node, fa, newData, at, i);
        at := at + len;
        node := node.next;
        fa := fa.next;
        i := i + 1;
      }
    }

    lemma MixedEnds()
      requires Inv(s)
      ensures |s.time| == |s.ring|
      ensures Mixed(s.time, 0) == s.time && Mixed(s.ring, 0) == s.ring
      ensures Mixed(s.time, |s.time|) == Pack(s.time) == Mixed(s.ring, |s.time|)
    {
    }

    /** The first `i` entries already packed, in either list. */
    ghost function Mixed(es: seq<Entry>, i: nat): (r: seq<Entry>)
      reads this`s
      requires i <= |s.time| == |es|
      ensures |r| == |es|
    {
      Pack(s.time)[..i] + es[i..]
    }

    lemma ListSizes(time: seq<Entry>, ring: seq<Entry>)
      requires Lists(time, ring)
      ensures |list.nodes| == |time| && |addr.nodes| == |ring|
      ensures list.head == if time == [] then null else list.nodes[0]
      ensures addr.head == if ring == [] then null else addr.nodes[0]
    {
    }

    lemma Links(i: nat)
      requires i < |s.time| == |s.ring| == |list.nodes| == |addr.nodes|
      requires Lists(Mixed(s.time, i), Mixed(s.ring, i))
      ensures list.nodes[i].next == if i + 1 < |list.nodes| then list.nodes[i + 1] else null
      ensures addr.nodes[i].next == addr.nodes[if i + 1 < |list.nodes| then i + 1 else 0]
    {
    }

    static function Zeros(n: nat): seq<byte> {
      seq(n, _ => 0)
    }

    /** Frame `i`: its bytes behind those packed so far, its address in both lists. */
    method PackStep(node: SortNode, fa: AddrNode, newData: array<byte>, at: nat, ghost i: nat) returns (len: nat)
      requires Inv(s) && pdata[..] == s.arena && newData != pdata
      requires i < |s.time| == |s.ring| == |list.nodes| == |addr.nodes|
      requires node == list.nodes[i] && fa == addr.nodes[i]
      requires Lists(Mixed(s.time, i), Mixed(s.ring, i))
      requires SumLen(s.time) <= newData.Length && PackedTo(s, newData[..], at, i)
      modifies newData, node`position, fa`position
      ensures Lists(Mixed(s.time, i + 1), Mixed(s.ring, i + 1)) && PackedTo(s, newData[..], at + len, i + 1)
    {
      hide Inv, SumLen, Lists, Mixed, Pack, PackedTo, CellsOf, PositionsOf;
      PackedNext(s, newData[..], at, i);
      NodeData(i);
      MixedNext(s.time, i);
      MixedNext(s.ring, i);
      len := node.len;
      CopyFrame(node, newData, at);
      SetAddress(node, fa, at, i, Mixed(s.time, i), Mixed(s.ring, i), Mixed(s.time, i + 1), Mixed(s.ring, i + 1));
    }

    lemma NodeData(i: nat)
      requires i < |s.time| == |s.ring| && Lists(Mixed(s.time, i), Mixed(s.ring, i))
      ensures i < |list.nodes| && list.nodes[i].Data() == CellOf(s.time[i])
    {
      assert Mixed(s.time, i)[i] == s.time[i];
      assert list.Cells()[i] == CellOf(s.time[i]);
    }

    lemma MixedNext(es: seq<Entry>, i: nat)
      requires i < |s.time| == |es|
      ensures Mixed(es, i)[i] == es[i]
      ensures CellsOf(Mixed(s.time, i + 1)) == CellsOf(Mixed(s.time, i))[i := CellOf(Pack(s.time)[i])]
      ensures PositionsOf(Mixed(es, i + 1)) == PositionsOf(Mixed(es, i))[i := Pack(s.time)[i].pos]
      ensures CellOf(Pack(s.time)[i]) == CellOf(s.time[i]).(position := Pack(s.time)[i].pos)
    {
      hide SumLen;
      var p := Pack(s.time);
      assert p[..i + 1] + es[i + 1..] == (p[..i] + es[i..])[i := p[i]];
      assert p[..i + 1] + s.time[i + 1..] == (p[..i] + s.time[i..])[i := p[i]];
    }

    /** Copies one frame; it never runs past the end of the old arena. */
    method CopyFrame(node: SortNode, newData: array<byte>, at: nat)
      requires newData != pdata && node.position + node.len <= pdata.Length && at + node.len <= newData.Length
      modifies newData
      ensures newData[..] == old(newData[..at]) + pdata[node.position..node.position + node.len] + old(newData[at + node.len..])
    {
      forall i | 0 <= i < node.len {
        newData[at + i] := pdata[node.position + i];
      }
    }

    method SetAddress(node: SortNode, fa: AddrNode, at: nat, ghost i: nat,
                      ghost time: seq<Entry>, ghost ring: seq<Entry>, ghost newTime: seq<Entry>, ghost newRing: seq<Entry>)
      requires Lists(time, ring) && i < |time| == |ring|
      requires i < |list.nodes| && node == list.nodes[i] && i < |addr.nodes| && fa == addr.nodes[i]
      requires |newTime| == |time| && |newRing| == |ring|
      requires CellsOf(newTime) == CellsOf(time)[i := CellOf(time[i]).(position := at)]
      requires PositionsOf(newRing) == PositionsOf(ring)[i := at]
      modifies node`position, fa`position
      ensures Lists(newTime, newRing)
    {
      ghost var cells, places := list.Cells(), addr.Positions();
      node.position := at;
      fa.position := at;
      assert list.Cells() == cells[i := CellOf(time[i]).(position := at)];
      assert addr.Positions() == places[i := at];
      hide TimeList.Valid, AddrList.Valid;
    }

    static lemma {:induction false} ConcatLen(pieces: seq<seq<byte>>, time: seq<Entry>, i: nat)
      requires |pieces| == |time| && i <= |time| && forall j :: 0 <= j < |time| ==> |pieces[j]| == time[j].Len()
      ensures |Concat(pieces[..i])| == SumLen(time[..i]) <= SumLen(time)
    {
      FlatLength(pieces[..i], time[..i]);
      hide Concat;
      SumPrefix(time, i, i);
    }

    static lemma PackFact(s: Sorter, i: nat)
      requires Inv(s) && i < |s.time|
      ensures s.time[i].End() <= |s.arena|
      ensures var a, b := Concat(Reads(s.arena, s.time)[..i]), Concat(Reads(s.arena, s.time)[..i + 1]);
              && Pack(s.time)[i].pos == |a|
              && b == a + s.arena[s.time[i].pos..s.time[i].End()]
              && |b| <= SumLen(s.time)
    {
      var pieces := Reads(s.arena, s.time);
      PiecesHeld(s);
      hide Inv, Reads, Concat, SumLen;
      ConcatLen(pieces, s.time, i);
      ConcatLen(pieces, s.time, i + 1);
      assert pieces[..i + 1] == pieces[..i] + [pieces[i]];
      ConcatSnoc(pieces[..i], pieces[i]);
    }

    static lemma PiecesHeld(s: Sorter)
      requires Inv(s)
      ensures forall j :: 0 <= j < |s.time| ==> s.time[j].End() <= |s.arena|
      ensures forall j :: 0 <= j < |s.time| ==> Reads(s.arena, s.time)[j] == s.arena[s.time[j].pos..s.time[j].End()]
    {
      assert Held(s.arena, s.time);
      hide Inv;
    }

    // -------------------------------------------------------------- making room

    lemma HeadPosition()
      requires Matches() && s.ring != []
      ensures addr.head != null && addr.head.position == s.ring[0].pos
    {
      assert addr.Positions()[0] == PositionsOf(s.ring)[0];
    }

    /** CheckStreambuff; 1 when the arena was replaced. */
    method CheckStreambuff(len: nat, now: nat) returns (ret: int)
      requires Matches() && Inv(s) && 0 < len < pdata.Length / 2
      modifies this`pdata, this`k, this`s, list, addr, list.Repr(), addr.Repr()
      ensures Matches() && s == Check(old(s), len, now).s && ret == Check(old(s), len, now).code
      ensures pdata == old(pdata) || fresh(pdata)
      ensures list.nodes == old(list.nodes) || list.nodes == []
      ensures addr.nodes == old(addr.nodes) || addr.nodes == []
    {
      hide Inv, Regrow, Decay, Clean;
      ret := 0;
      ListSizes(s.time, s.ring);
      if addr.head == null || k.put <= 2 {
        return;
      }
      HeadPosition();
      hide Lists;
      var earliest := addr.head.position;
      var tooLong := false;
      if k.position + len <= pdata.Length {
        tooLong := k.position <= earliest <= k.position + len;
      } else {
        tooLong := earliest >= k.position || earliest <= len;
        ghost var was := s;
        ReduceDelay(now);
        SameButDelayInv(was, s);
        ShrinkNeverFires(was, now);
        assert tooLong || Wrap64(now - k.analyClock) < 15 * 60;
      }
      if tooLong {
        if pdata.Length > MAX_SORT_BUFF_LEN {
          CleanSortBuff(now);
        } else {
          RemallocSortBuff(pdata.Length * 3 / 2, now);
          ret := 1;
        }
      }
    }

    /** The test for halving the arena comes after the clock it looks at has been reset. */
    static lemma ShrinkNeverFires(s: Sorter, now: nat)
      ensures Wrap64(now - Decay(s, now).analyClock) < 15 * 60
    {
    }

    // -------------------------------------------------------------- emitting

    lemma HeadNode()
      requires Matches() && s.time != []
      ensures list.head != null && list.head == list.nodes[0] && list.head.Data() == CellOf(s.time[0])
    {
      assert list.Cells()[0] == CellOf(s.time[0]);
    }

    /** Datacallback: a foreign function, recorded in `got`, that refuses long frames. */
    method Datacallback(frame: seq<byte>, ts: nat, kind: int, priority: int, ghost id: nat) returns (ret: int)
      modifies this`got
      ensures got == old(got) + [Item(id, Frame(frame, ts, kind, priority))]
      ensures ret == if |frame| >= limit then -2 else 0
    {
      got := got + [Item(id, Frame(frame, ts, kind, priority))];
      ret := if |frame| >= limit then -2 else 0;
    }

    /** Hands the head to the callback with the bytes the arena has for it now. */
    method EmitHead(nd: SortNode) returns (ret: int)
      requires Matches() && s.time != [] && nd == list.head && s.time[0].End() <= pdata.Length
      modifies this`got
      ensures Matches() && got == old(got) + [ReadOut(s.arena, s.time[0])]
      ensures ret == if s.time[0].Len() >= limit then -2 else 0
    {
      HeadNode();
      hide Lists;
      ret := Datacallback(pdata[nd.position..nd.position + nd.len], nd.timestamp, nd.kind, nd.priority, s.time[0].item.id);
    }

    /** The address-ring element of the head, by its position. */
    method DeleteHeadAddr(nd: SortNode) returns (ret: int)
      requires Matches() && |s.ring| >= 2 && s.time != [] && nd == list.head
      modifies this`s, addr, addr.Repr()
      ensures Matches() && addr.Repr() <= old(addr.Repr())
      ensures var i := IndexOfPos(old(s.ring), old(s.time[0].pos));
              if i == |old(s.ring)| then ret == -2 && s == old(s)
              else ret == 0 && s == old(s).(ring := Without(old(s.ring), i))
    {
      hide Matches, Lists, CellsOf, PositionsOf, TimeList.Valid, AddrList.Valid, IndexOfPos, FirstAt;
      Gauged();
      HeadNode();
      ListsParts(s.time, s.ring);
      FirstIndex(s.ring, s.time[0].pos);
      ghost var i;
      ret, i := addr.Delete(nd.position);
      if ret == 0 {
        PositionsWithout(s.ring, i);
        s := s.(ring := Without(s.ring, i));
      }
      ListsWhole(s.time, s.ring);
      Whole();
    }

    static lemma {:induction false} FirstIndex(ring: seq<Entry>, pos: nat)
      ensures IndexOfPos(ring, pos) == FirstAt(PositionsOf(ring), pos)
    {
      if ring != [] {
        FirstIndex(ring[1..], pos);
        assert PositionsOf(ring)[1..] == PositionsOf(ring[1..]);
      }
    }

    /** Takes the head node out of the time list, to be used again, and counts it as
        popped. */
    method ShiftHead() returns (nd: SortNode)
      requires Matches() && |s.time| >= 2
      modifies this`s, this`k, list
      ensures Matches() && s == Shift(old(s)) && nd == old(list.nodes)[0]
      ensures list.nodes == old(list.nodes)[1..] && nd !in list.nodes
      ensures nd in old(list.Repr()) && list.Repr() <= old(list.Repr())
    {
      hide Matches, Lists, CellsOf, PositionsOf, TimeList.Valid, AddrList.Valid;
      Gauged();
      HeadNode();
      ListsParts(s.time, s.ring);
      CellsRest(s.time);
      ghost var was := s;
      var len, ts := list.head.len, list.head.timestamp;
      nd := list.RemoveHead();
      ListsWhole(was.time[1..], was.ring);
      HeadStamp(was.time[1..], was.ring);
      s := Shift(s);
      k := k.(validLen := k.validLen - len, pop := k.pop + 1, preMinTs := ts, minTs := list.head.timestamp);
      Whole();
    }

    lemma HeadStamp(time: seq<Entry>, ring: seq<Entry>)
      requires Lists(time, ring) && time != []
      ensures list.head != null && list.head.timestamp == time[0].Ts()
    {
      assert list.Cells()[0] == CellOf(time[0]);
    }

    /** One round of the pop loop. */
    method PopOne() returns (stop: bool, ret: int)
      requires Matches() && Inv(s)
      modifies this`s, this`k, this`got, list, list.Repr(), addr, addr.Repr()
      ensures Matches() && (!stop ==> Inv(s))
      ensures var p := PopOnce(old(s), limit); s == p.s && stop == p.stop && ret == p.code && got == old(got) + p.outs
      ensures list.Repr() <= old(list.Repr())
      ensures addr.Repr() <= old(addr.Repr())
    {
      ghost var was := s;
      hide Inv, Matches, IndexOfPos, DropHead, ReadOut, PopOnce;
      Gauged();
      PopNothing(s, limit);
      if k.put - k.pop <= 3 || !(Wrap32(k.maxTs - k.minTs) > k.sortTime) {
        return true, 0;
      }
      HeadFacts(was);
      PopOnceIs(was, limit);
      ret := GiveHead();
      if ret < 0 {
        return true, ret;
      }
      DropNode();
      stop := false;
      assert s == DropHead(was) by { DropIs(was); }
    }

    static lemma DropIs(s: Sorter)
      requires |s.time| >= 2 && IndexOfPos(s.ring, s.time[0].pos) < |s.ring|
      ensures DropHead(s) == Shift(s.(ring := Without(s.ring, IndexOfPos(s.ring, s.time[0].pos)), preMinTs := s.time[0].Ts()))
    {
    }

    lemma Gauged()
      requires Matches()
      ensures k == GaugeOf(s) && pdata[..] == s.arena && pdata.Length == |s.arena| && Lists(s.time, s.ring)
    {
      hide Lists;
    }

    static lemma PopNothing(s: Sorter, lim: nat)
      ensures s.put - s.pop <= 3 || !(Wrap32(s.maxTs - s.minTs) > s.sortTime) ==> PopOnce(s, lim) == PopResult(s, [], true, 0)
    {
    }

    static lemma PopOnceIs(s: Sorter, lim: nat)
      requires |s.time| >= 2 && IndexOfPos(s.ring, s.time[0].pos) < |s.ring|
      requires s.put - s.pop > 3 && Wrap32(s.maxTs - s.minTs) > s.sortTime
      ensures PopOnce(s, lim) ==
              if s.time[0].Len() < lim then PopResult(DropHead(s), [ReadOut(s.arena, s.time[0])], false, 0)
              else PopResult(s.(ring := Without(s.ring, IndexOfPos(s.ring, s.time[0].pos)), preMinTs := s.time[0].Ts()),
                             [ReadOut(s.arena, s.time[0])], true, -2)
    {
    }

    /** The head loses its address-ring element and goes to the callback. */
    method GiveHead() returns (ret: int)
      requires Matches() && |s.ring| >= 2 && s.time != [] && s.time[0].End() <= |s.arena|
      requires IndexOfPos(s.ring, s.time[0].pos) < |s.ring|
      modifies this`s, this`k, this`got, addr, addr.Repr()
      ensures Matches() && addr.Repr() <= old(addr.Repr())
      ensures s == old(s).(ring := Without(old(s.ring), IndexOfPos(old(s.ring), old(s.time[0].pos))), preMinTs := old(s.time[0].Ts()))
      ensures got == old(got) + [ReadOut(old(s.arena), old(s.time[0]))]
      ensures ret == if old(s.time[0]).Len() >= limit then -2 else 0
    {
      hide Matches, Lists, IndexOfPos, ReadOut, TimeList.Valid, AddrList.Valid;
      HeadNode();
      Gauged();
      var nd := list.head;
      var ts := nd.timestamp;
      var found := DeleteHeadAddr(nd);
      Gauged();
      Commit(k.(preMinTs := ts), s.(preMinTs := s.time[0].Ts()));
      Gauged();
      ret := EmitHead(nd);
    }

    /** The popped head is unlinked; the new head inherits its `prev`. */
    method DropNode()
      requires Matches() && |s.time| >= 2
      modifies this`s, this`k, list, list.Repr()
      ensures Matches() && s == Shift(old(s)) && list.nodes == old(list.nodes)[1..]
    {
      hide Matches, Lists, CellsOf, PositionsOf, TimeList.Valid, AddrList.Valid;
      Gauged();
      HeadNode();
      ListsParts(s.time, s.ring);
      CellsRest(s.time);
      ghost var was := s;
      var len, ts := list.head.len, list.head.timestamp;
      list.PopHead();
      ListsWhole(was.time[1..], was.ring);
      HeadStamp(was.time[1..], was.ring);
      s := Shift(s);
      k := k.(validLen := k.validLen - len, pop := k.pop + 1, preMinTs := ts, minTs := list.head.timestamp);
      Whole();
    }

    lemma ListsParts(time: seq<Entry>, ring: seq<Entry>)
      requires Lists(time, ring)
      ensures list.Valid() && list.Cells() == CellsOf(time) && |list.nodes| == |time|
      ensures addr.Valid() && addr.Positions() == PositionsOf(ring) && |addr.nodes| == |ring|
    {
    }

    lemma ListsWhole(time: seq<Entry>, ring: seq<Entry>)
      requires list.Valid() && list.Cells() == CellsOf(time)
      requires addr.Valid() && addr.Positions() == PositionsOf(ring)
      ensures Lists(time, ring)
    {
    }

    lemma Whole()
      requires Lists(s.time, s.ring) && k == GaugeOf(s) && pdata[..] == s.arena
      ensures Matches()
    {
    }

    /** The counters, once the lists and the arena are as they should be. */
    method Commit(gauge: Gauge, ghost state: Sorter)
      requires Lists(state.time, state.ring) && gauge == GaugeOf(state) && pdata[..] == state.arena
      modifies this`k, this`s
      ensures Matches() && k == gauge && s == state
    {
      hide Lists;
      k := gauge;
      s := state;
    }

    static lemma CellsRest(time: seq<Entry>)
      requires time != []
      ensures CellsOf(time)[1..] == CellsOf(time[1..])
    {
    }

    static lemma HeadFacts(s: Sorter)
      requires Inv(s) && s.put - s.pop > 3
      ensures |s.time| == |s.ring| > 3 && s.time[0].End() <= |s.arena|
      ensures IndexOfPos(s.ring, s.time[0].pos) < |s.ring|
      ensures Inv(DropHead(s))
    {
      FindsHead(s);
      DropHeadInv(s, []);
    }

    method PopFrameStreamSort() returns (ret: int)
      requires Matches() && Inv(s)
      modifies this`s, this`k, this`got, list, list.Repr(), addr, addr.Repr()
      ensures Matches()
      ensures var p := PopTwice(old(s), limit); s == p.s && ret == p.code && got == old(got) + p.outs
      ensures list.Repr() <= old(list.Repr()) && addr.Repr() <= old(addr.Repr())
    {
      hide Matches, Inv, PopOnce;
      ghost var was := s;
      var stop;
      stop, ret := PopOne();
      if !stop {
        assert got == old(got) + PopOnce(was, limit).outs;
        stop, ret := PopOne();
      }
    }

    // -------------------------------------------------------------- putting

    static lemma CellsAppend(es: seq<Entry>, e: Entry)
      ensures CellsOf(es + [e]) == CellsOf(es) + [CellOf(e)]
      ensures PositionsOf(es + [e]) == PositionsOf(es) + [e.pos]
    {
    }

    static lemma CellsInsert(es: seq<Entry>, i: nat, e: Entry)
      requires i <= |es|
      ensures CellsOf(es[..i] + [e] + es[i..]) == CellsOf(es)[..i] + [CellOf(e)] + CellsOf(es)[i..]
      ensures CellsOf([e] + es) == [CellOf(e)] + CellsOf(es)
    {
    }

    /** A new element at the end of the address ring. */
    method AddAddr(pos: nat, ghost e: Entry)
      requires Matches() && e.pos == pos
      modifies this`s, addr, addr.Repr()
      ensures Matches() && s == old(s).(ring := old(s).ring + [e])
      ensures fresh(addr.Repr() - old(addr.Repr()))
    {
      hide Matches, Lists, CellsOf, PositionsOf, TimeList.Valid, TimeList.Cells, AddrList.Valid, AddrList.Positions;
      Gauged();
      ListsParts(s.time, s.ring);
      CellsAppend(s.ring, e);
      addr.Add(pos);
      list.Unmoved();
      s := s.(ring := s.ring + [e]);
      ListsWhole(s.time, s.ring);
      Whole();
    }

    /** The element of the head moves to the end of the address ring with a new position. */
    method MoveHeadAddr(pos: nat, nd: SortNode, ghost e: Entry) returns (ret: int)
      requires Matches() && e.pos == pos && s.time != [] && s.ring != [] && nd == list.head
      requires IndexOfPos(s.ring, s.time[0].pos) < |s.ring|
      modifies this`s, addr, addr.Repr()
      ensures Matches() && ret == 0
      ensures s == old(s).(ring := Without(old(s).ring, IndexOfPos(old(s).ring, old(s).time[0].pos)) + [e])
      ensures addr.Repr() <= old(addr.Repr())
    {
      hide Matches, Lists, CellsOf, PositionsOf, TimeList.Valid, AddrList.Valid, IndexOfPos, FirstAt;
      Gauged();
      HeadNode();
      ListsParts(s.time, s.ring);
      FirstIndex(s.ring, s.time[0].pos);
      ghost var i;
      ret, i := addr.MoveToEnd(pos, nd.position);
      PositionsWithout(s.ring, i);
      CellsAppend(Without(s.ring, i), e);
      s := s.(ring := Without(s.ring, i) + [e]);
      ListsWhole(s.time, s.ring);
      Whole();
    }

    static lemma PositionsWithout(ring: seq<Entry>, i: nat)
      requires i < |ring|
      ensures PositionsOf(Without(ring, i)) == Without(PositionsOf(ring), i)
    {
    }

    /** The newest frame's node at the end of the time list. */
    method LinkLast(nd: SortNode, len: nat, ts: nat, ghost e: Entry)
      requires Matches() && s.time != [] && nd !in list.nodes && nd.Data() == CellOf(e) && len == e.Len() && ts == e.Ts()
      modifies this`s, this`k, list, list.Repr(), nd
      ensures Matches() && list.Repr() == old(list.Repr()) + {nd}
      ensures s == old(s).(time := old(s).time + [e], validLen := old(s).validLen + len, put := old(s).put + 1,
                           maxTs := ts, nextId := old(s).nextId + 1)
    {
      hide Matches, Lists, CellsOf, PositionsOf, TimeList.Valid, AddrList.Valid;
      Gauged();
      ListsParts(s.time, s.ring);
      CellsAppend(s.time, e);
      ghost var was := s;
      list.InsertSortEnd(nd);
      addr.Unmoved();
      ListsWhole(was.time + [e], was.ring);
      s := s.(time := s.time + [e], validLen := s.validLen + len, put := s.put + 1, maxTs := ts, nextId := s.nextId + 1);
      k := k.(validLen := k.validLen + len, put := k.put + 1, maxTs := ts);
      Whole();
    }

    /** The frame the buffer starts with. */
    method PutFirstFrame(frame: seq<byte>, ts: nat, kind: int, priority: int)
      requires Matches() && s.time == [] == s.ring && s.position == 0 && 0 < |frame| && 2 * |frame| < pdata.Length
      modifies this`k, this`s, pdata, list, addr
      ensures Matches() && s == PutFirst(Outcome(old(s), [], [], false, false, 0), Frame(frame, ts, kind, priority)).s
      ensures fresh(list.Repr()) && fresh(addr.Repr())
    {
      hide Matches, Lists, CellsOf, PositionsOf, TimeList.Valid, AddrList.Valid, Store;
      Gauged();
      ListsParts(s.time, s.ring);
      ghost var was, e := s, Entry(0, Item(s.nextId, Frame(frame, ts, kind, priority)));
      var nd := new SortNode();
      var _ := MemcpyToSortBuff(frame);
      Gauged();
      ListsParts(s.time, s.ring);
      CellsAppend([], e);
      OneCell(e);
      nd.Fill(0, |frame|, ts, kind, priority);
      list.InsertOnly(nd);
      addr.Add(0);
      ListsWhole([e], [e]);
      k := k.(put := 1, validLen := |frame|, maxTs := ts, minTs := ts, preMinTs := ts);
      s := s.(put := 1, validLen := |frame|, maxTs := ts, minTs := ts, preMinTs := ts,
              time := [e], ring := [e], nextId := s.nextId + 1);
      assert [] + [e] == [e];
      Whole();
    }

    static lemma OneCell(e: Entry)
      ensures CellsOf([e]) == [CellOf(e)] && PositionsOf([e]) == [e.pos] && CellsOf([]) == [] && PositionsOf([]) == []
    {
    }

    /** A frame older than the head makes the sort delay longer. */
    method LengthenDelay(ts: nat, now: nat)
      requires Matches()
      modifies this`k, this`s
      ensures Matches() && s == Lengthen(old(s), ts, now)
    {
      hide Matches, Lists;
      Gauged();
      s := Lengthen(s, ts, now);
      var def := Wrap32(k.minTs - ts);
      if Wrap32(k.sortTime + def) < k.maxSortTime {
        if def > 60000 {
          def := 20000;
        }
        k := k.(sortTime := Wrap32(k.sortTime + def), analyTime := 0, analyClock := now);
      }
      Whole();
    }

    lemma EndStamps()
      requires Matches() && s.time != []
      ensures list.nodes != [] && list.nodes[0].timestamp == s.time[0].Ts()
      ensures list.nodes[|list.nodes| - 1].timestamp == s.time[|s.time| - 1].Ts()
    {
      assert list.Cells()[0] == CellOf(s.time[0]);
      assert list.Cells()[|s.time| - 1] == CellOf(s.time[|s.time| - 1]);
    }

    static lemma {:induction false} LaterIndex(time: seq<Entry>, ts: nat)
      ensures FirstLater(time, ts) == LaterAt(CellsOf(time), ts)
    {
      if time != [] {
        LaterIndex(time[1..], ts);
        assert CellsOf(time)[1..] == CellsOf(time[1..]);
      }
    }

    /** Links a late frame's node into the time list. */
    method LinkLate(nd: SortNode, ts: nat, now: nat, ghost e: Entry)
      requires Matches() && s.time != [] && nd !in list.nodes && nd.Data() == CellOf(e) && ts == e.Ts() < s.maxTs
      requires s.minTs == s.time[0].Ts() && s.maxTs == s.time[|s.time| - 1].Ts()
      modifies this`s, this`k, list, list.Repr(), nd
      ensures Matches() && s == Place(old(s), e, now) && list.Repr() == old(list.Repr()) + {nd}
    {
      hide Matches, Lists, CellsOf, PositionsOf, TimeList.Valid, AddrList.Valid, Lengthen, FirstLater, LaterAt;
      Gauged();
      EndStamps();
      if ts < k.minTs {
        LinkHead(nd, ts, now, e);
      } else {
        LinkMiddle(nd, ts, now, e);
      }
    }

    method LinkHead(nd: SortNode, ts: nat, now: nat, ghost e: Entry)
      requires Matches() && s.time != [] && nd !in list.nodes && nd.Data() == CellOf(e) && ts == e.Ts() < s.minTs
      modifies this`s, this`k, list, list.Repr(), nd
      ensures Matches() && s == Place(old(s), e, now) && list.Repr() == old(list.Repr()) + {nd}
    {
      hide Matches, Lists, Lengthen, FirstLater;
      LengthenDelay(ts, now);
      Gauged();
      EndStamps();
      LinkHeadNode(nd, e);
      Commit(k.(minTs := ts), s.(time := [e] + s.time, minTs := ts));
    }

    method LinkHeadNode(nd: SortNode, ghost e: Entry)
      requires Lists(s.time, s.ring) && list.nodes != [] && nd !in list.nodes && nd.Data() == CellOf(e)
      modifies list, list.Repr(), nd
      ensures Lists([e] + s.time, s.ring) && list.Repr() == old(list.Repr()) + {nd}
    {
      hide Lists, CellsOf, PositionsOf, TimeList.Valid, AddrList.Valid;
      ListsParts(s.time, s.ring);
      CellsInsert(s.time, 0, e);
      list.InsertHead(nd);
      ListsWhole([e] + s.time, s.ring);
    }

    method LinkMiddle(nd: SortNode, ts: nat, now: nat, ghost e: Entry)
      requires Matches() && s.time != [] && nd !in list.nodes && nd.Data() == CellOf(e) && s.minTs <= ts == e.Ts() < s.maxTs
      requires s.minTs == s.time[0].Ts() && s.maxTs == s.time[|s.time| - 1].Ts()
      modifies this`s, this`k, list, list.Repr(), nd
      ensures Matches() && s == Place(old(s), e, now) && list.Repr() == old(list.Repr()) + {nd}
    {
      hide Matches, Lists, CellsOf, PositionsOf, TimeList.Valid, AddrList.Valid, FirstLater, LaterAt, Place;
      Gauged();
      EndStamps();
      var before := LinkMiddleNode(nd, ts, e);
      PlaceMiddle(s, e, now);
      var def := Wrap32(k.maxTs - before);
      Commit(if before != 0 && k.analyTime < def then k.(analyTime := def) else k, Place(s, e, now));
    }

    method LinkMiddleNode(nd: SortNode, ts: nat, ghost e: Entry) returns (before: nat)
      requires Lists(s.time, s.ring) && list.nodes != [] && nd !in list.nodes && nd.Data() == CellOf(e) && ts == e.Ts()
      requires list.nodes[0].timestamp <= ts < list.nodes[|list.nodes| - 1].timestamp
      modifies list`nodes, list.Repr(), nd
      ensures list.Repr() == old(list.Repr()) + {nd}
      ensures var i := FirstLater(s.time, ts);
              && 0 < i < |s.time| && before == s.time[i - 1].Ts()
              && Lists(s.time[..i] + [e] + s.time[i..], s.ring)
    {
      hide Lists, CellsOf, PositionsOf, TimeList.Valid, TimeList.Cells, AddrList.Valid, AddrList.Positions, FirstLater, LaterAt;
      ListsParts(s.time, s.ring);
      LaterIndex(s.time, ts);
      ghost var at;
      before, at := InsertMiddle(nd);
      CellsInsert(s.time, at, e);
      CellStamp(s.time, at - 1);
      ListsWhole(s.time[..at] + [e] + s.time[at..], s.ring);
    }

    /** The address ring has no part in it. */
    method InsertMiddle(nd: SortNode) returns (before: nat, ghost at: nat)
      requires list.Valid() && addr.Valid() && list.nodes != [] && nd !in list.nodes
      requires list.nodes[0].timestamp <= nd.timestamp < list.nodes[|list.nodes| - 1].timestamp
      modifies list`nodes, list.Repr(), nd
      ensures list.Valid() && addr.Valid() && addr.Positions() == old(addr.Positions())
      ensures list.Repr() == old(list.Repr()) + {nd}
      ensures 0 < at < |old(list.nodes)| && at == LaterAt(old(list.Cells()), old(nd.timestamp))
      ensures before == old(list.Cells())[at - 1].ts
      ensures list.Cells() == old(list.Cells())[..at] + [old(nd.Data())] + old(list.Cells())[at..]
    {
      hide TimeList.Valid, TimeList.Cells, AddrList.Valid, AddrList.Positions, LaterAt;
      before, at := list.InsertSortMiddle(nd);
      addr.Unmoved();
    }

    static lemma PlaceMiddle(s: Sorter, e: Entry, now: nat)
      requires s.minTs <= e.Ts() && 0 < FirstLater(s.time, e.Ts()) < |s.time|
      ensures var i := FirstLater(s.time, e.Ts());
              var before := s.time[i - 1].Ts();
              Place(s, e, now) == s.(time := s.time[..i] + [e] + s.time[i..],
                                     analyTime := if before != 0 && s.analyTime < Wrap32(s.maxTs - before)
                                                  then Wrap32(s.maxTs - before) else s.analyTime)
    {
    }

    static lemma CellStamp(time: seq<Entry>, i: nat)
      requires i < |time|
      ensures CellsOf(time)[i].ts == time[i].Ts()
    {
    }

    static function Begin(st: Sorter): Outcome {
      Outcome(st, [], [], false, false, 0)
    }

    /** A new node for a late frame, filled and linked. */
    method AcceptLate(frame: seq<byte>, ts: nat, kind: int, priority: int, now: nat)
      requires Matches() && s.time != [] && ts < s.maxTs && 2 * |frame| < pdata.Length
      requires s.minTs == s.time[0].Ts() && s.maxTs == s.time[|s.time| - 1].Ts()
      requires !(Wrap32(s.maxTs - ts) > s.maxSortTime) && s.preMinTs <= ts
      modifies this`s, this`k, pdata, list, list.Repr(), addr, addr.Repr()
      ensures Matches() && s == PutLate(Begin(old(s)), Frame(frame, ts, kind, priority), now).s
      ensures fresh(list.Repr() - old(list.Repr())) && fresh(addr.Repr() - old(addr.Repr()))
    {
      hide Matches, Lists, Store, Place, WritePos;
      ghost var e := Entry(WritePos(s, |frame|), Item(s.nextId, Frame(frame, ts, kind, priority)));
      var wpos := MemcpyToSortBuff(frame);
      AddAddr(wpos, e);
      Gauged();
      Commit(k.(lateDrop := 0, validLen := k.validLen + |frame|, put := k.put + 1),
             s.(lateDrop := 0, validLen := s.validLen + |frame|, put := s.put + 1, nextId := s.nextId + 1));
      var nd := new SortNode();
      nd.Fill(wpos, |frame|, ts, kind, priority);
      LinkLate(nd, ts, now, e);
    }

    method PutLateFrame(frame: seq<byte>, ts: nat, kind: int, priority: int, now: nat) returns (ret: int)
      requires Matches() && s.time != [] && ts < s.maxTs && 2 * |frame| < pdata.Length
      requires s.minTs == s.time[0].Ts() && s.maxTs == s.time[|s.time| - 1].Ts()
      modifies this`s, this`k, pdata, list, list.Repr(), addr, addr.Repr()
      ensures Matches()
      ensures var o := PutLate(Begin(old(s)), Frame(frame, ts, kind, priority), now); s == o.s && ret == o.code
      ensures fresh(list.Repr() - old(list.Repr())) && fresh(addr.Repr() - old(addr.Repr()))
    {
      hide Matches, Lists, Store, Place, WritePos, Items, Lengthen;
      Gauged();
      if Wrap32(k.maxTs - ts) > k.maxSortTime {
        Commit(k.(lateDrop := k.lateDrop + 1), s.(lateDrop := s.lateDrop + 1));
        if k.lateDrop > 60 {
          CleanSortBuff(now);
        }
        return -1;
      }
      if k.preMinTs > ts {
        Commit(k.(lateDrop := 1), s.(lateDrop := 1));
        if ts < k.minTs {
          LengthenDelay(ts, now);
        }
        return -1;
      }
      AcceptLate(frame, ts, kind, priority, now);
      ret := 0;
    }

    /** The node of the emitted head, or a new one, for a frame at the end. */
    method AcceptLast(frame: seq<byte>, ts: nat, kind: int, priority: int, now: nat, wpos: nat, ghost e: Entry)
      requires Matches() && s.time != []
      requires e == Entry(wpos, Item(s.nextId, Frame(frame, ts, kind, priority)))
      modifies this`s, this`k, list, list.Repr(), addr, addr.Repr()
      ensures Matches() && s == Append(old(s), e)
      ensures fresh(list.Repr() - old(list.Repr())) && fresh(addr.Repr() - old(addr.Repr()))
    {
      hide Matches, Lists;
      AddAddr(wpos, e);
      var nd := new SortNode();
      nd.Fill(wpos, |frame|, ts, kind, priority);
      LinkLast(nd, |frame|, ts, e);
    }

    /** The head is emitted and its node used again at the end. */
    method ReuseHead(frame: seq<byte>, ts: nat, kind: int, priority: int, wpos: nat, ghost e: Entry)
      requires Matches() && |s.time| >= 2 && s.ring != [] && s.time[0].End() <= pdata.Length
      requires e == Entry(wpos, Item(s.nextId, Frame(frame, ts, kind, priority)))
      requires IndexOfPos(s.ring, s.time[0].pos) < |s.ring|
      modifies this`s, this`k, this`got, list, list.Repr(), addr, addr.Repr()
      ensures Matches() && got == old(got) + [ReadOut(old(s).arena, old(s).time[0])]
      ensures s == Append(Shift(old(s).(ring := Without(old(s).ring, IndexOfPos(old(s).ring, old(s).time[0].pos)))), e)
      ensures list.Repr() <= old(list.Repr()) && addr.Repr() <= old(addr.Repr())
    {
      hide Matches, Lists, IndexOfPos, ReadOut;
      HeadNode();
      var nd := list.head;
      var found := MoveHeadAddr(wpos, nd, e);
      var _ := EmitHead(nd);
      nd := ShiftHead();
      nd.Fill(wpos, |frame|, ts, kind, priority);
      LinkLast(nd, |frame|, ts, e);
    }

    lemma SecondNode()
      requires Matches() && s.time != []
      ensures list.head != null && (list.head.next != null <==> |s.time| >= 2)
    {
      ListsParts(s.time, s.ring);
      assert |list.nodes| >= 2 ==> list.nodes[0].next == list.nodes[1];
    }

    static lemma ReuseInv(st: Sorter, f: Frame)
      requires Inv(st) && |st.time| >= 2 && f.ts >= st.maxTs && 0 < |f.bytes| < |st.arena| / 2 && Room(st, |f.bytes|)
      ensures IndexOfPos(st.ring, st.time[0].pos) < |st.ring| && st.time[0].End() <= |st.arena|
      ensures Linked(st, f).time != [] && |Linked(st, f).time| >= 2 && Inv(DropHead(Linked(st, f)))
    {
      FindsHead(st);
      hide Inv, Room, IndexOfPos, DropHead, Linked;
      var lim := SumLen(st.time) + |f.bytes| + 1;
      SumBounds(st.time);
      LinkedInv(st, f, lim, []);
      LinkedTime(st, f);
      DropHeadInv(Linked(st, f), []);
    }

    static lemma LinkedTime(st: Sorter, f: Frame)
      ensures |Linked(st, f).time| == |st.time| + 1
    {
    }

    static lemma {:induction false} SumBounds(es: seq<Entry>)
      ensures forall i :: 0 <= i < |es| ==> es[i].Len() <= SumLen(es)
    {
      if es != [] {
        SumBounds(es[1..]);
      }
    }

    method PutOnTimeFrame(frame: seq<byte>, ts: nat, kind: int, priority: int, now: nat) returns (ret: int)
      requires Matches() && Inv(s) && s.time != [] && ts >= s.maxTs && 0 < |frame| < pdata.Length / 2 && Room(s, |frame|)
      modifies this`s, this`k, this`got, pdata, list, list.Repr(), addr, addr.Repr()
      ensures Matches()
      ensures var o := PutOnTime(Begin(old(s)), Frame(frame, ts, kind, priority), now, limit);
              s == o.s && ret == o.code && got == old(got) + o.outs
      ensures fresh(list.Repr() - old(list.Repr())) && fresh(addr.Repr() - old(addr.Repr()))
    {
      hide Matches, Inv, Lists, Room, Store, IndexOfPos, ReadOut, PopTwice, WritePos, PutOnTime, DropHead;
      ghost var was, f := s, Frame(frame, ts, kind, priority);
      Gauged();
      SecondNode();
      var def := Wrap32(ts - k.maxTs);
      var drop := 0;
      if def >= k.maxSortTime {
        drop := k.earlyDrop + 1;
        if drop > 60 || def > 10000000 {
          CleanSortBuff(now);
          Gauged();
          Commit(k.(earlyDrop := 0), s.(earlyDrop := 0));
          OnTimeCases(was, f, now, limit);
          return -1;
        }
      }
      var wpos := MemcpyToSortBuff(frame);
      Gauged();
      Commit(k.(earlyDrop := drop), s.(earlyDrop := drop));
      ghost var e := Entry(wpos, Item(s.nextId, f));
      OnTimeCases(was, f, now, limit);
      if Wrap32(ts - k.minTs) > k.sortTime && list.head.next != null {
        ReuseInv(was, f);
        ReuseIsAppendThenDrop(s, e);
        OnTimeReuse(was, f, now, limit);
        assert Append(s, e) == Linked(was, f);
        ReuseHead(frame, ts, kind, priority, wpos, e);
        ret := PopFrameStreamSort();
      } else {
        AcceptLast(frame, ts, kind, priority, now, wpos, e);
        ret := 0;
      }
    }

    static lemma OnTimeReuse(st: Sorter, f: Frame, now: nat, lim: nat)
      requires |st.time| >= 2 && IndexOfPos(st.ring, st.time[0].pos) < |st.ring|
      requires !Expired(st, f) && Wrap32(f.ts - st.minTs) > st.sortTime
      ensures var o := PutOnTime(Begin(st), f, now, lim);
              var p := PopTwice(DropHead(Linked(st, f)), lim);
              o.s == p.s && o.code == p.code && o.outs == [ReadOut(Store(st, f.bytes).arena, st.time[0])] + p.outs
    {
      hide PopTwice, IndexOfPos, ReadOut, DropHead, Store, WritePos, Shift, Append, Items;
      var d := Wrap32(f.ts - st.maxTs);
      var s1 := Store(st, f.bytes).(earlyDrop := if d >= st.maxSortTime then st.earlyDrop + 1 else 0);
      ReuseIsAppendThenDrop(s1, Entry(WritePos(st, |f.bytes|), Item(st.nextId, f)));
    }

    /** PutOnTime by cases. */
    static lemma OnTimeCases(st: Sorter, f: Frame, now: nat, lim: nat)
      requires st.time != []
      ensures var o := PutOnTime(Begin(st), f, now, lim);
              && (Expired(st, f) ==> o.s == Clean(st, now).(earlyDrop := 0) && o.outs == [] && o.code == -1)
              && (!Expired(st, f) && !(Wrap32(f.ts - st.minTs) > st.sortTime && |st.time| >= 2) ==>
                    o.s == Linked(st, f) && o.outs == [] && o.code == 0)
    {
    }

    /** Anything the object owns that was not its own before is new. */
    method PutFrameStreamSort(frame: seq<byte>, ts: nat, kind: int, priority: int, now: nat) returns (ret: int)
      requires Matches() && Inv(s) && Storable(s, |frame|)
      modifies Footprint()
      ensures Matches() && fresh(Footprint() - old(Footprint()))
      ensures var o := Put(old(s), Frame(frame, ts, kind, priority), now, limit);
              s == o.s && ret == o.code && got == old(got) + o.outs
    {
      hide Matches, Inv, Lists, Room, Check, Put, PutOnTime, PutLate, PutFirst, ThirdFits;
      ghost var was, f := s, Frame(frame, ts, kind, priority);
      Gauged();
      if |frame| >= pdata.Length / 2 {
        PutHalf(s, f, now, limit);
        return -1;
      }
      assert 0 < |frame| && ThirdFits(s, |frame|);
      CheckMakesRoom(s, |frame|, now);
      ghost var c := Check(s, |frame|, now);
      ret := CheckStreambuff(|frame|, now);
      Gauged();
      PutParts(was, c, f, now, limit);
      ListSizes(s.time, s.ring);
      if list.head == null {
        PutFirstFrame(frame, ts, kind, priority);
        ret := 0;
      } else if ts < k.maxTs {
        ret := PutLateFrame(frame, ts, kind, priority, now);
      } else {
        ret := PutOnTimeFrame(frame, ts, kind, priority, now);
      }
    }

    static lemma PutHalf(st: Sorter, f: Frame, now: nat, lim: nat)
      requires |f.bytes| >= |st.arena| / 2
      ensures Put(st, f, now, lim) == Refuse(st, [], false)
    {
    }

    /** What PutFrameStreamSort comes down to once there is room. */
    static lemma PutParts(st: Sorter, c: Outcome, f: Frame, now: nat, lim: nat)
      requires Inv(c.s) && c == Check(st, |f.bytes|, now) && |f.bytes| < |st.arena| / 2
      ensures c.s.time == [] ==> c.s.ring == [] && c.s.position == 0
      ensures c.s.time != [] ==> c.s.minTs == c.s.time[0].Ts() && c.s.maxTs == c.s.time[|c.s.time| - 1].Ts()
      ensures var o := Put(st, f, now, lim);
              && (c.s.time == [] ==> o.s == PutFirst(Begin(c.s), f).s && o.code == 0 && o.outs == [])
              && (c.s.time != [] && f.ts < c.s.maxTs ==>
                    var p := PutLate(Begin(c.s), f, now); o.s == p.s && o.code == p.code && o.outs == [])
              && (c.s.time != [] && f.ts >= c.s.maxTs ==>
                    var p := PutOnTime(Begin(c.s), f, now, lim); o.s == p.s && o.code == p.code && o.outs == p.outs)
    {
      PutSteps(c, f, now, lim);
      InvEnds(c.s);
      hide Inv, Check, PutFirst, PutLate, PutOnTime;
      CheckQuiet(st, |f.bytes|, now);
    }

    static lemma InvEnds(s: Sorter)
      requires Inv(s)
      ensures s.time == [] ==> s.ring == [] && s.position == 0
      ensures s.time != [] ==> s.minTs == s.time[0].Ts() && s.maxTs == s.time[|s.time| - 1].Ts()
    {
    }

    static lemma CheckQuiet(s: Sorter, len: nat, now: nat)
      ensures Check(s, len, now).outs == []
    {
    }

    /** Only the state decides what a frame does, not the outcome so far. */
    static lemma PutSteps(c: Outcome, f: Frame, now: nat, lim: nat)
      requires c.outs == []
      ensures PutFirst(c, f).s == PutFirst(Begin(c.s), f).s && PutFirst(c, f).code == 0 && PutFirst(c, f).outs == []
      ensures PutLate(c, f, now).s == PutLate(Begin(c.s), f, now).s
      ensures PutLate(c, f, now).code == PutLate(Begin(c.s), f, now).code && PutLate(c, f, now).outs == []
      ensures c.s.time != [] ==> PutOnTime(c, f, now, lim).s == PutOnTime(Begin(c.s), f, now, lim).s
      ensures c.s.time != [] ==> PutOnTime(c, f, now, lim).code == PutOnTime(Begin(c.s), f, now, lim).code
      ensures c.s.time != [] ==> PutOnTime(c, f, now, lim).outs == PutOnTime(Begin(c.s), f, now, lim).outs
    {
      hide PopTwice, Store, Place, Append, Shift, IndexOfPos, ReadOut, Items;
    }
  }
}
