/**
 The reorder buffer of stream_sort.c as a function from states to states.

 A state holds the byte arena, the two lists (the time-sorted one and the one in
 address order) and the counters that decide what happens next.  List elements
 carry the accepted item they stand for: its arrival number and the frame as it was
 handed in.  The frame's length, timestamp, type and priority are what a list node
 holds and are used as such; its bytes and its number are history, which decides
 nothing and is not emitted: the bytes the callback gets are read from the arena.
 */
module SortSpec {
  import opened Media

  const MAX_SORT_BUFF_LEN: nat := 8 * 1024 * 1024
  const MIN_SORT_BUFF_LEN: nat := 1024 * 1024
  const DEFAULT_SORT_TIME: nat := 1000 * 1000

  /** An accepted frame and its arrival number. */
  datatype Item = Item(id: nat, frame: Frame)

  /** A held frame: where its bytes are in the arena, and the item they should be. */
  datatype Entry = Entry(pos: nat, item: Item) {
    function Len(): nat { |item.frame.bytes| }
    function End(): nat { pos + Len() }
    function Ts(): nat { item.frame.ts }
  }

  datatype Sorter = Sorter(
    arena: seq<byte>,
    position: nat,
    time: seq<Entry>,
    ring: seq<Entry>,
    put: nat,
    pop: nat,
    validLen: int,
    sortTime: nat,
    sortTimeBak: nat,
    maxSortTime: nat,
    analyTime: nat,
    analyClock: nat,
    maxTs: nat,
    minTs: nat,
    preMinTs: nat,
    lateDrop: nat,
    earlyDrop: nat,
    nextId: nat)

  /** What one call did: the new state, the frames passed to the callback, the items
      thrown away by a clean, and whether the buffer was cleaned or regrown. */
  datatype Outcome = Outcome(s: Sorter, outs: seq<Item>, lost: seq<Item>, reset: bool, accepted: bool, code: int)

  function Items(es: seq<Entry>): (r: seq<Item>)
    ensures |r| == |es|
    ensures forall i :: 0 <= i < |es| ==> r[i] == es[i].item
  {
    seq(|es|, i requires 0 <= i < |es| => es[i].item)
  }

  function SumLen(es: seq<Entry>): nat {
    if es == [] then 0 else es[0].Len() + SumLen(es[1..])
  }

  function ReadOut(arena: seq<byte>, e: Entry): Item {
    Item(e.item.id, e.item.frame.(bytes := Read(arena, e.pos, e.Len())))
  }

  function Blit(arena: seq<byte>, pos: nat, bytes: seq<byte>): (r: seq<byte>)
    ensures |r| == |arena|
  {
    if pos + |bytes| <= |arena| then arena[..pos] + bytes + arena[pos + |bytes|..] else arena
  }

  /** The first ring element with this position; |ring| when there is none. */
  function IndexOfPos(ring: seq<Entry>, pos: nat): (i: nat)
    ensures i <= |ring|
    ensures i < |ring| ==> ring[i].pos == pos
    ensures forall j :: 0 <= j < i ==> ring[j].pos != pos
  {
    if ring == [] then 0
    else if ring[0].pos == pos then 0
    else 1 + IndexOfPos(ring[1..], pos)
  }

  /** The first element later than `ts`, where InsertSortMiddle links a new node. */
  function FirstLater(time: seq<Entry>, ts: nat): (i: nat)
    ensures i <= |time|
    ensures i < |time| ==> time[i].Ts() > ts
    ensures forall j :: 0 <= j < i ==> time[j].Ts() <= ts
  {
    if time == [] then 0
    else if time[0].Ts() > ts then 0
    else 1 + FirstLater(time[1..], ts)
  }

  function Create(size: nat, sortTime: nat, maxSortTime: nat, now: nat): Sorter {
    Sorter(seq(size, _ => 0), 0, [], [], 0, 0, 0, sortTime, sortTime,
           if maxSortTime < DEFAULT_SORT_TIME then DEFAULT_SORT_TIME else maxSortTime,
           0, now, 0, 0, 0, 0, 0, 0)
  }

  function Clean(s: Sorter, now: nat): Sorter {
    s.(position := 0, time := [], ring := [], put := 0, pop := 0, validLen := 0,
       sortTime := s.sortTimeBak, analyTime := 0, analyClock := now,
       maxTs := 0, minTs := 0, preMinTs := 0)
  }

  /** The entries moved to lie one behind the other from address 0. */
  function Pack(time: seq<Entry>): (r: seq<Entry>)
    ensures |r| == |time|
    ensures forall i :: 0 <= i < |time| ==> r[i].item == time[i].item
    ensures forall i :: 0 <= i < |time| ==> r[i].pos == SumLen(time[..i])
  {
    seq(|time|, i requires 0 <= i < |time| => Entry(SumLen(time[..i]), time[i].item))
  }

  function Reads(arena: seq<byte>, time: seq<Entry>): (r: seq<seq<byte>>)
    ensures |r| == |time|
    ensures forall i :: 0 <= i < |time| ==> r[i] == Read(arena, time[i].pos, time[i].Len())
  {
    seq(|time|, i requires 0 <= i < |time| => Read(arena, time[i].pos, time[i].Len()))
  }

  /** What the packing loop leaves in the address ring after `n` frames: it goes round the
      ring, so that with fewer addresses than frames later ones replace earlier ones. */
  function Addressed(ring: seq<Entry>, packed: seq<Entry>, n: nat): (r: seq<Entry>)
    requires n <= |packed| && ring != []
    ensures |r| == |ring|
  {
    if n == 0 then ring else Addressed(ring, packed, n - 1)[(n - 1) % |ring| := packed[n - 1]]
  }

  /** RemallocSortBuff: a fresh arena with the held frames packed in time order.  The
      address ring gets the same positions, element by element.  It is not called with an
      empty ring. */
  function Regrow(s: Sorter, size: nat, now: nat): (r: Sorter)
    ensures size <= |r.arena| && r.put == s.put
  {
    var bytes := Concat(Reads(s.arena, s.time));
    var packed := Pack(s.time);
    s.(arena := bytes + seq(if size < |bytes| then 0 else size - |bytes|, _ => 0),
       position := |bytes|, time := packed, ring := if s.ring == [] then [] else Addressed(s.ring, packed, |packed|),
       preMinTs := 0, lateDrop := 0, earlyDrop := 0, analyClock := now)
  }

  /** The frame to be written would touch the first frame of the address ring. */
  predicate TooLong(s: Sorter, len: nat)
    requires s.ring != []
  {
    var earliest := s.ring[0].pos;
    if s.position + len <= |s.arena| then s.position <= earliest <= s.position + len
    else earliest >= s.position || earliest <= len
  }

  /** The five-minute reduction of the sort delay; both subtractions can happen, in
      32 bits. */
  function Decay(s: Sorter, now: nat): (r: Sorter)
    ensures r == s.(sortTime := r.sortTime, analyTime := r.analyTime, analyClock := r.analyClock)
  {
    if Wrap64(now - s.analyClock) < 5 * 60 then s
    else
      var t :=
        if !(0 < s.analyTime < s.sortTime) then s.sortTime
        else
          var def := s.sortTime - s.analyTime;
          var t1 := if def > 200000 then Wrap32(s.sortTime - 200000) else s.sortTime;
          var t2 := if def > 100000 then Wrap32(t1 - 100000) else s.analyTime;
          if t2 < s.sortTimeBak then s.sortTimeBak else t2;
      s.(sortTime := t, analyTime := 0, analyClock := now)
  }

  /** CheckStreambuff: make room for `len` bytes. */
  function Check(s: Sorter, len: nat, now: nat): Outcome {
    if s.ring == [] || s.put <= 2 then Outcome(s, [], [], false, false, 0)
    else
      var s1 := if s.position + len > |s.arena| then Decay(s, now) else s;
      if !TooLong(s, len) then Outcome(s1, [], [], false, false, 0)
      else if |s.arena| > MAX_SORT_BUFF_LEN then Outcome(Clean(s1, now), [], Items(s.time), true, false, 0)
      else Outcome(Regrow(s1, |s.arena| * 3 / 2, now), [], [], true, false, 1)
  }

  /** Where MemcpyToSortBuff writes: a frame that does not fit before the end goes to 0. */
  function WritePos(s: Sorter, len: nat): nat {
    if s.position + len <= |s.arena| then s.position else 0
  }

  /** MemcpyToSortBuff. */
  function Store(s: Sorter, bytes: seq<byte>): (r: Sorter)
    ensures r == s.(arena := r.arena, position := r.position) && |r.arena| == |s.arena|
  {
    var w := WritePos(s, |bytes|);
    s.(arena := Blit(s.arena, w, bytes),
       position := if w + |bytes| == |s.arena| then 0 else w + |bytes|)
  }

  /** A frame older than the head makes the sort delay longer. */
  function Lengthen(s: Sorter, ts: nat, now: nat): (r: Sorter)
    ensures r == s.(sortTime := r.sortTime, analyTime := r.analyTime, analyClock := r.analyClock)
  {
    var def := Wrap32(s.minTs - ts);
    if Wrap32(s.sortTime + def) < s.maxSortTime then
      s.(sortTime := Wrap32(s.sortTime + if def > 60000 then 20000 else def), analyTime := 0, analyClock := now)
    else s
  }

  function Refuse(s: Sorter, lost: seq<Item>, reset: bool): Outcome {
    Outcome(s, [], lost, reset, false, -1)
  }

  /** PutFrameStreamSort; `lim` is the length from which the callback answers -2. */
  function Put(s: Sorter, f: Frame, now: nat, lim: nat): Outcome {
    if |f.bytes| >= |s.arena| / 2 then Refuse(s, [], false)
    else
      var c := Check(s, |f.bytes|, now);
      if c.s.time == [] then PutFirst(c, f)
      else if f.ts < c.s.maxTs then PutLate(c, f, now)
      else PutOnTime(c, f, now, lim)
  }

  function PutFirst(c: Outcome, f: Frame): Outcome {
    var e := Entry(0, Item(c.s.nextId, f));
    var s := Store(c.s, f.bytes);
    c.(s := s.(put := 1, validLen := |f.bytes|, maxTs := f.ts, minTs := f.ts, preMinTs := f.ts,
               time := [e], ring := s.ring + [e], nextId := s.nextId + 1),
       accepted := true, code := 0)
  }

  /** A frame older than the newest one held. */
  function PutLate(c: Outcome, f: Frame, now: nat): Outcome {
    var s := c.s;
    if Wrap32(s.maxTs - f.ts) > s.maxSortTime then
      var s1 := s.(lateDrop := s.lateDrop + 1);
      if s1.lateDrop > 60 then Refuse(Clean(s1, now), c.lost + Items(s.time), true)
      else Refuse(s1, c.lost, c.reset)
    else if s.preMinTs > f.ts then
      var s1 := s.(lateDrop := 1);
      Refuse(if f.ts < s.minTs then Lengthen(s1, f.ts, now) else s1, c.lost, c.reset)
    else
      var e := Entry(WritePos(s, |f.bytes|), Item(s.nextId, f));
      var s1 := Store(s, f.bytes).(lateDrop := 0, ring := s.ring + [e], validLen := s.validLen + |f.bytes|,
                                   put := s.put + 1, nextId := s.nextId + 1);
      c.(s := Place(s1, e, now), accepted := true, code := 0)
  }

  /** Link a late frame into the time list. */
  function Place(s: Sorter, e: Entry, now: nat): Sorter {
    if e.Ts() < s.minTs then
      Lengthen(s, e.Ts(), now).(time := [e] + s.time, minTs := e.Ts())
    else
      var i := FirstLater(s.time, e.Ts());
      var before := if 0 < i < |s.time| then s.time[i - 1].Ts() else 0;
      var def := Wrap32(s.maxTs - before);
      s.(time := s.time[..i] + [e] + s.time[i..],
         analyTime := if before != 0 && s.analyTime < def then def else s.analyTime)
  }

  /** A frame at or after the newest one held. */
  function PutOnTime(c: Outcome, f: Frame, now: nat, lim: nat): Outcome {
    var s := c.s;
    var def := Wrap32(f.ts - s.maxTs);
    if def >= s.maxSortTime && (s.earlyDrop + 1 > 60 || def > 10000000) then
      Refuse(Clean(s, now).(earlyDrop := 0), c.lost + Items(s.time), true)
    else
      var e := Entry(WritePos(s, |f.bytes|), Item(s.nextId, f));
      var s1 := Store(s, f.bytes).(earlyDrop := if def >= s.maxSortTime then s.earlyDrop + 1 else 0);
      if Wrap32(f.ts - s.minTs) > s.sortTime && |s.time| >= 2 then
        var i := IndexOfPos(s.ring, s.time[0].pos);
        if i == |s.ring| then Refuse(s1, c.lost, c.reset)
        else
          var out := ReadOut(s1.arena, s.time[0]);
          var s2 := Append(Shift(s1.(ring := Without(s.ring, i))), e);
          var p := PopTwice(s2, lim);
          c.(s := p.s, outs := [out] + p.outs, accepted := true, code := p.code)
      else
        c.(s := Append(s1, e), accepted := true, code := 0)
  }

  /** Drop the head of the time list, which the callback has been given. */
  function Shift(s: Sorter): Sorter
    requires |s.time| >= 2
  {
    s.(validLen := s.validLen - s.time[0].Len(), time := s.time[1..], pop := s.pop + 1,
       preMinTs := s.time[0].Ts(), minTs := s.time[1].Ts())
  }

  /** Add the newest frame at the end of both lists. */
  function Append(s: Sorter, e: Entry): Sorter {
    s.(ring := s.ring + [e], time := s.time + [e], validLen := s.validLen + e.Len(),
       put := s.put + 1, maxTs := e.Ts(), nextId := s.nextId + 1)
  }

  datatype PopResult = PopResult(s: Sorter, outs: seq<Item>, stop: bool, code: int)

  /** One round of PopFrameStreamSort's loop.  A refused frame has already lost its
      address-ring element but stays in the time list. */
  function PopOnce(s: Sorter, lim: nat): (r: PopResult)
    ensures r.s.arena == s.arena && r.s.position == s.position && r.s.put == s.put
  {
    if s.put - s.pop <= 3 || !(Wrap32(s.maxTs - s.minTs) > s.sortTime) || |s.time| < 2 then PopResult(s, [], true, 0)
    else
      var e := s.time[0];
      var i := IndexOfPos(s.ring, e.pos);
      if i == |s.ring| then PopResult(s, [], true, 0)
      else
        var s1 := s.(ring := Without(s.ring, i), preMinTs := e.Ts());
        var out := ReadOut(s.arena, e);
        if e.Len() >= lim then PopResult(s1, [out], true, -2)
        else PopResult(Shift(s1), [out], false, 0)
  }

  function PopTwice(s: Sorter, lim: nat): (r: PopResult)
    ensures r.s.arena == s.arena && r.s.position == s.position && r.s.put == s.put
  {
    var a := PopOnce(s, lim);
    if a.stop then a
    else
      var b := PopOnce(a.s, lim);
      b.(outs := a.outs + b.outs)
  }
}
