/** Concrete runs of the reorder buffer, from creation, in which its promises end. */
module SortCases {
  import opened Media
  import opened SortSpec
  import opened SortInv
  import opened SortKeeps
  import opened SortRun

  /** A frame at or after the newest one that fits behind the write position, with the
      head not due: it is appended to both lists. */
  lemma PlainPut(s: Sorter, f: Frame, now: nat, lim: nat)
    requires s.time != [] && s.ring != [] && |f.bytes| < |s.arena| / 2
    requires s.position + |f.bytes| < |s.arena| && s.ring[0].pos < s.position
    requires s.maxTs <= f.ts < s.maxTs + s.maxSortTime && s.maxSortTime < TWO_TO_THE_32
    requires s.minTs <= f.ts <= s.minTs + s.sortTime && s.sortTime < TWO_TO_THE_32
    ensures var o, e := Put(s, f, now, lim), Entry(s.position, Item(s.nextId, f));
            && o.accepted && !o.reset && o.outs == [] && o.code == 0
            && o.s == s.(arena := o.s.arena, earlyDrop := 0, position := s.position + |f.bytes|,
                         time := s.time + [e], ring := s.ring + [e], validLen := s.validLen + |f.bytes|,
                         put := s.put + 1, maxTs := f.ts, nextId := s.nextId + 1)
            && |o.s.arena| == |s.arena|
  {
    hide Blit, Decay, Regrow, Items;
    assert Wrap32(f.ts - s.maxTs) == f.ts - s.maxTs && Wrap32(f.ts - s.minTs) == f.ts - s.minTs;
  }

  /** The first frame of a created buffer. */
  lemma FirstPut(size: nat, sortTime: nat, f: Frame, lim: nat)
    requires |f.bytes| < size / 2 && 0 < |f.bytes|
    ensures var s, e := Create(size, sortTime, 0, 0), Entry(0, Item(0, f));
            var o := Put(s, f, 0, lim);
            && o.accepted && o.outs == []
            && o.s == s.(arena := o.s.arena, position := |f.bytes|, time := [e], ring := [e], validLen := |f.bytes|,
                         put := 1, maxTs := f.ts, minTs := f.ts, preMinTs := f.ts, nextId := 1)
            && |o.s.arena| == size
  {
    hide Blit;
    var e := Entry(0, Item(0, f));
    assert [] + [e] == [e];
  }

  // ---------------------------------------------------------------- the third frame

  function Filled(n: byte, ts: nat): Frame {
    Frame(seq(400000, _ => n), ts, FRAME_P, 0)
  }

  /** Three frames of 400000 bytes in an arena of one mebibyte: the third is written over
      the first, which then reaches the callback with the bytes of the third. */
  lemma ThirdFrameOverwrites()
    ensures var lim := 1000000;
            var o1 := Put(Create(MIN_SORT_BUFF_LEN, 5, 0, 0), Filled(1, 10), 0, lim);
            var o2 := Put(o1.s, Filled(1, 12), 0, lim);
            var o3 := Put(o2.s, Filled(2, 30), 0, lim);
            && o1.accepted && o2.accepted && o3.accepted
            && o3.outs != [] && o3.outs[0].id == 0 && o3.outs[0].frame != Filled(1, 10)
  {
    hide Put;
    var lim := 1000000;
    var o1 := Put(Create(MIN_SORT_BUFF_LEN, 5, 0, 0), Filled(1, 10), 0, lim);
    FirstPut(MIN_SORT_BUFF_LEN, 5, Filled(1, 10), lim);
    PlainPut(o1.s, Filled(1, 12), 0, lim);
    OverPut(Put(o1.s, Filled(1, 12), 0, lim).s, lim);
  }

  lemma OverPut(s: Sorter, lim: nat)
    requires |s.time| == 2 && s.ring == s.time && s.position == 800000 && |s.arena| == MIN_SORT_BUFF_LEN
    requires s.put == 2 && s.pop == 0 && s.maxTs == 12 && s.minTs == 10 && s.sortTime == 5
    requires s.maxSortTime == DEFAULT_SORT_TIME && s.earlyDrop == 0
    requires s.time[0] == Entry(0, Item(0, Filled(1, 10)))
    ensures var o := Put(s, Filled(2, 30), 0, lim);
            o.accepted && o.outs != [] && o.outs[0].id == 0 && o.outs[0].frame != Filled(1, 10)
  {
    var f := Filled(2, 30);
    var w := Store(s, f.bytes);
    assert w.arena[0] == 2;
    assert Read(w.arena, 0, 400000)[0] == 2 && Filled(1, 10).bytes[0] == 1;
    assert ReadOut(w.arena, s.time[0]).frame != Filled(1, 10);
    hide Blit, Decay, Regrow, Items, ReadOut, PopTwice, Filled;
    assert IndexOfPos(s.ring, 0) == 0;
  }

  // ---------------------------------------------------------------- a refused pop

  /** Frames of a byte each, the second of two, and one that comes much later. */
  function Small(i: nat): Frame {
    Frame(if i == 1 then [0, 0] else [0], if i < 4 then 10 + i else 1000 + i, FRAME_P, 0)
  }

  function After(n: nat): Sorter
    decreases n
  {
    if n == 0 then Create(MIN_SORT_BUFF_LEN, 100, 0, 0) else Put(After(n - 1), Small(n - 1), 0, 2).s
  }

  lemma FourHeld()
    ensures var s := After(4);
            && |s.time| == 4 && s.ring == s.time && s.position == 5 && |s.arena| == MIN_SORT_BUFF_LEN
            && s.put == 4 && s.pop == 0 && s.maxTs == 13 && s.minTs == 10 && s.sortTime == 100
            && s.maxSortTime == DEFAULT_SORT_TIME && s.nextId == 4 && s.earlyDrop == 0
            && s.time[0] == Entry(0, Item(0, Small(0))) && s.time[1] == Entry(1, Item(1, Small(1)))
            && s.time[2] == Entry(3, Item(2, Small(2))) && s.time[3] == Entry(4, Item(3, Small(3)))
  {
    hide Put, After;
    AfterStep(0);
    AfterStep(1);
    AfterStep(2);
    AfterStep(3);
    FirstPut(MIN_SORT_BUFF_LEN, 100, Small(0), 2);
    PlainPut(After(1), Small(1), 0, 2);
    PlainPut(After(2), Small(2), 0, 2);
    PlainPut(After(3), Small(3), 0, 2);
  }

  lemma AfterStep(n: nat)
    ensures After(0) == Create(MIN_SORT_BUFF_LEN, 100, 0, 0)
    ensures After(n + 1) == Put(After(n), Small(n), 0, 2).s
  {
    hide Put;
  }

  /** The frame that makes the head due is accepted and the head handed on, but the next
      one is refused: it stays in the time list, is gone from the address ring, and the
      frame after that fails. */
  lemma RefusedPopStops()
    ensures var o := Put(After(4), Small(4), 0, 2);
            && o.accepted && o.code == -2 && |o.outs| == 2 && o.outs[0].id == 0 && o.outs[1].id == 1
            && |o.s.time| == 4 && |o.s.ring| == 3 && o.s.time[0].item.id == 1 && Stuck(o.s)
            && var p := Put(o.s, Small(5), 0, 2);
               !p.accepted && p.code == -1 && p.outs == [] && Items(p.s.time) == Items(o.s.time) && Stuck(p.s)
  {
    FourHeld();
    var s := After(4);
    hide After, Put;
    DuePut(s);
    var o := Put(s, Small(4), 0, 2);
    hide Stuck;
    assert Small(5).ts - o.s.minTs == 994;
    StuckPut(o.s, Small(5), 0, 2);
  }

  lemma DuePut(s: Sorter)
    requires |s.time| == 4 && s.ring == s.time && s.position == 5 && |s.arena| == MIN_SORT_BUFF_LEN
    requires s.put == 4 && s.pop == 0 && s.maxTs == 13 && s.minTs == 10 && s.sortTime == 100
    requires s.maxSortTime == DEFAULT_SORT_TIME && s.nextId == 4 && s.earlyDrop == 0
    requires s.time[0] == Entry(0, Item(0, Small(0))) && s.time[1] == Entry(1, Item(1, Small(1)))
    requires s.time[2] == Entry(3, Item(2, Small(2))) && s.time[3] == Entry(4, Item(3, Small(3)))
    ensures var o := Put(s, Small(4), 0, 2);
            && o.accepted && o.code == -2 && |o.outs| == 2 && o.outs[0].id == 0 && o.outs[1].id == 1
            && |o.s.time| == 4 && |o.s.ring| == 3 && o.s.time[0].item.id == 1 && Stuck(o.s)
            && o.s.maxTs == 1004 && o.s.minTs == 11 && o.s.sortTime == 100 && |o.s.arena| == MIN_SORT_BUFF_LEN
            && o.s.maxSortTime == DEFAULT_SORT_TIME && o.s.earlyDrop == 0 && o.s.position == 6
            && o.s.ring[0].pos == 3 && o.s.time == s.time[1..] + [Entry(5, Item(4, Small(4)))]
  {
    hide Blit, Decay, Regrow, Items, Read;
    assert IndexOfPos(s.ring, 0) == 0;
    var e := Entry(5, Item(4, Small(4)));
    var ring := s.ring[1..] + [e];
    assert Without(s.ring, 0) + [e] == ring;
    assert ring[0].pos == 1;
    assert IndexOfPos(ring, 1) == 0;
    var left := Without(ring, 0);
    assert left[0].pos == 3 && left[1].pos == 4 && left[2].pos == 5;
    assert forall j :: 0 <= j < |left| ==> left[j].pos != 1;
  }

  // ---------------------------------------------------------------- order across a regrow

  function Bytes(n: nat): seq<byte> {
    seq(n, _ => 0)
  }

  const Early := Frame(Bytes(400000), 10, FRAME_P, 0)
  const Second := Frame(Bytes(400000), 12, FRAME_P, 0)
  const Third := Frame(Bytes(100000), 100, FRAME_P, 0)
  const Behind := Frame(Bytes(500000), 5, FRAME_P, 0)
  const Late := Frame(Bytes(1), 200, FRAME_P, 0)

  /** The third frame makes the first one, of time 10, due.  The fourth, of time 5, does not
      fit, so the arena is grown, and with the last emitted timestamp forgotten it is
      accepted; the fifth makes it due. */
  lemma RegrowGoesBack()
    ensures var lim := 1000000;
            var o1 := Put(Create(MIN_SORT_BUFF_LEN, 5, 0, 0), Early, 0, lim);
            var o2 := Put(o1.s, Second, 0, lim);
            var o3 := Put(o2.s, Third, 0, lim);
            var o4 := Put(o3.s, Behind, 0, lim);
            var o5 := Put(o4.s, Late, 0, lim);
            && o1.outs == [] && o2.outs == [] && |o3.outs| == 1 && o3.outs[0].frame.ts == 10
            && o4.reset && o4.accepted && o4.lost == [] && o4.outs == []
            && o5.outs != [] && o5.outs[0].frame.ts == 5
  {
    hide Put;
    var lim := 1000000;
    var o1 := Put(Create(MIN_SORT_BUFF_LEN, 5, 0, 0), Early, 0, lim);
    FirstPut(MIN_SORT_BUFF_LEN, 5, Early, lim);
    PlainPut(o1.s, Second, 0, lim);
    var o2 := Put(o1.s, Second, 0, lim);
    ThirdPut(o2.s, lim);
    var o3 := Put(o2.s, Third, 0, lim);
    BehindPut(o3.s, lim);
    LatePut(Put(o3.s, Behind, 0, lim).s, lim);
  }

  lemma ThirdPut(s: Sorter, lim: nat)
    requires |s.time| == 2 && s.ring == s.time && s.position == 800000 && |s.arena| == MIN_SORT_BUFF_LEN
    requires s.put == 2 && s.pop == 0 && s.maxTs == 12 && s.minTs == 10 && s.sortTime == 5 && s.analyClock == 0
    requires s.maxSortTime == DEFAULT_SORT_TIME && s.nextId == 2 && s.earlyDrop == 0 && s.lateDrop == 0
    requires s.time[0] == Entry(0, Item(0, Early)) && s.time[1] == Entry(400000, Item(1, Second))
    ensures var o := Put(s, Third, 0, lim);
            && |o.outs| == 1 && o.outs[0].frame.ts == 10
            && o.s.time == [s.time[1], Entry(800000, Item(2, Third))] && o.s.ring == o.s.time
            && o.s.position == 900000 && |o.s.arena| == MIN_SORT_BUFF_LEN && o.s.put == 3 && o.s.pop == 1
            && o.s.maxTs == 100 && o.s.minTs == 12 && o.s.sortTime == 5 && o.s.analyClock == 0
            && o.s.maxSortTime == DEFAULT_SORT_TIME && o.s.nextId == 3 && o.s.earlyDrop == 0
  {
    BytesLen();
    hide Blit, Decay, Regrow, Items, Read, Bytes;
    assert IndexOfPos(s.ring, 0) == 0;
  }

  lemma BehindPut(s: Sorter, lim: nat)
    requires s.time == [Entry(400000, Item(1, Second)), Entry(800000, Item(2, Third))] && s.ring == s.time
    requires s.position == 900000 && |s.arena| == MIN_SORT_BUFF_LEN && s.put == 3 && s.pop == 1
    requires s.maxTs == 100 && s.minTs == 12 && s.sortTime == 5 && s.analyClock == 0
    requires s.maxSortTime == DEFAULT_SORT_TIME && s.nextId == 3 && s.earlyDrop == 0
    ensures var o := Put(s, Behind, 0, lim);
            && o.reset && o.accepted && o.lost == [] && o.outs == []
            && |o.s.time| == 3 && |o.s.ring| == 3 && o.s.time[0] == o.s.ring[2] == Entry(500000, Item(3, Behind))
            && o.s.ring[0].pos == 0 && o.s.ring[1].pos == 400000
            && o.s.position == 1000000 && |o.s.arena| == 1572864 && o.s.put == 4 && o.s.pop == 1
            && o.s.maxTs == 100 && o.s.minTs == 5 && o.s.sortTime == 12
            && o.s.maxSortTime == DEFAULT_SORT_TIME && o.s.nextId == 4 && o.s.earlyDrop == 0
  {
    RegrowTwo(s);
    BytesLen();
    hide Blit, Regrow, Items, Bytes, FirstLater;
    assert Decay(s, 0) == s;
    assert Check(s, 500000, 0) == Outcome(Regrow(s, 1572864, 0), [], [], true, false, 1);
  }

  lemma RegrowTwo(s: Sorter)
    requires s.time == [Entry(400000, Item(1, Second)), Entry(800000, Item(2, Third))] && s.ring == s.time
    requires |s.arena| == MIN_SORT_BUFF_LEN
    ensures var t := Regrow(s, 1572864, 0);
            && t.time == t.ring == [Entry(0, Item(1, Second)), Entry(400000, Item(2, Third))]
            && t.position == 500000 && |t.arena| == 1572864
            && t == s.(arena := t.arena, position := t.position, time := t.time, ring := t.ring,
                       preMinTs := 0, lateDrop := 0, earlyDrop := 0, analyClock := 0)
  {
    hide Read, Bytes;
    RegrowRing(s, 1572864, 0);
    BytesLen();
    ReadLen(s.arena, 400000, 400000);
    ReadLen(s.arena, 800000, 100000);
    assert s.time[..0] == [] && s.time[..1] == [s.time[0]];
    assert SumLen(s.time[..1]) == 400000 by {
      assert [s.time[0]][1..] == [];
    }
    var r: seq<seq<byte>> := Reads(s.arena, s.time);
    ConcatSnoc<byte>([r[0]], r[1]);
    assert r == [r[0]] + [r[1]];
    assert Concat<byte>([r[0]]) == r[0];
  }

  lemma BytesLen()
    ensures |Second.bytes| == 400000 && |Third.bytes| == 100000 && |Behind.bytes| == 500000 && |Late.bytes| == 1
  {
  }

  lemma ReadLen(data: seq<byte>, pos: nat, len: nat)
    requires pos + len <= |data|
    ensures |Read(data, pos, len)| == len
  {
  }

  lemma LatePut(s: Sorter, lim: nat)
    requires |s.time| == 3 && |s.ring| == 3 && s.time[0] == s.ring[2] == Entry(500000, Item(3, Behind))
    requires s.ring[0].pos == 0 && s.ring[1].pos == 400000
    requires s.position == 1000000 && |s.arena| == 1572864 && s.put == 4 && s.pop == 1
    requires s.maxTs == 100 && s.minTs == 5 && s.sortTime == 12
    requires s.maxSortTime == DEFAULT_SORT_TIME && s.nextId == 4 && s.earlyDrop == 0
    ensures var o := Put(s, Late, 0, lim); o.outs != [] && o.outs[0].frame.ts == 5
  {
    BytesLen();
    hide Blit, Decay, Regrow, Items, Read, Bytes, PopTwice;
    assert IndexOfPos(s.ring, 500000) == 2 by {
      assert IndexOfPos(s.ring[1..][1..], 500000) == 0;
      assert IndexOfPos(s.ring[1..], 500000) == 1;
    }
  }
}
