/**
 What a put does, answer by answer: when it makes room and how, what it accepts, what it
 hands on, what is lost and what becomes of the sort delay.  Stated with the numbers of
 the code and without the step functions that decide it.
 */
module SortExact {
  import opened Media
  import opened SortSpec
  import opened SortInv
  import opened SortKeeps
  import opened SortRun

  // ---------------------------------------------------------------- making room

  /** The first frame of the address ring starts in the closed interval that `len` bytes
      would fill, or lies behind the write position when they go round the end. */
  predicate InTheWay(s: Sorter, len: nat) {
    && s.ring != []
    && var first := s.ring[0].pos;
       if s.position + len <= |s.arena| then s.position <= first <= s.position + len
       else 0 <= first <= len || s.position <= first
  }

  /** Room is made, by growing or cleaning, if and only if more than two frames have been
      put and the first frame of the address ring is in the way: a frame that goes round the
      end into free space keeps everything. */
  lemma ResetIff(s: Sorter, len: nat, now: nat)
    ensures var c := Check(s, len, now);
            && (c.reset <==> s.put > 2 && InTheWay(s, len))
            && (!c.reset ==>
                  c.lost == [] && c.s.arena == s.arena && c.s.time == s.time && c.s.ring == s.ring && c.s.position == s.position)
            && (c.reset && |s.arena| > 8 * 1024 * 1024 ==>
                  c.lost == Items(s.time) && c.s.time == [] && c.s.ring == [] && c.s.position == 0 && |c.s.arena| == |s.arena|)
            && (c.reset && |s.arena| <= 8 * 1024 * 1024 ==>
                  c.lost == [] && Items(c.s.time) == Items(s.time) && |s.arena| * 3 / 2 <= |c.s.arena|)
  {
    hide Decay;
    if Check(s, len, now).reset && |s.arena| <= 8 * 1024 * 1024 {
      var s1 := if s.position + len > |s.arena| then Decay(s, now) else s;
      RegrowItems(s1, |s.arena| * 3 / 2, now);
    }
    hide Regrow, Items, Clean;
  }

  lemma RegrowItems(s: Sorter, size: nat, now: nat)
    ensures Items(Regrow(s, size, now).time) == Items(s.time)
  {
  }

  lemma RegrowSize(s: Sorter, len: nat, now: nat)
    requires Inv(s) && s.put > 2 && InTheWay(s, len) && |s.arena| <= 8 * 1024 * 1024
    ensures var t := Check(s, len, now).s;
            && |t.arena| == |s.arena| * 3 / 2 && t.position == SumLen(s.time)
            && t.maxTs == s.maxTs && t.minTs == s.minTs && t.preMinTs == 0 && t.lateDrop == 0 && t.earlyDrop == 0
  {
    hide Inv, Decay, Regrow, Items, SumLen, SameButDelay, LaidAt;
    InvArena(s);
    var s1 := if s.position + len > |s.arena| then Decay(s, now) else s;
    assert SameButDelay(s, s1) by { DecaySame(s, now); }
    SameButDelayInv(s, s1);
    RegrowInv(s1, |s.arena| * 3 / 2, now);
    RegrowCounters(s1, |s.arena| * 3 / 2, now);
  }

  lemma InvArena(s: Sorter)
    requires Inv(s)
    ensures |s.arena| >= 1024 * 1024
  {
  }

  lemma DecaySame(s: Sorter, now: nat)
    ensures SameButDelay(s, Decay(s, now)) && SameButDelay(s, s)
  {
    hide Wrap64, Wrap32;
  }

  lemma RegrowCounters(s: Sorter, size: nat, now: nat)
    ensures var t := Regrow(s, size, now);
            && t.maxTs == s.maxTs && t.minTs == s.minTs && t.preMinTs == 0 && t.lateDrop == 0 && t.earlyDrop == 0
            && t.sortTime == s.sortTime && t.maxSortTime == s.maxSortTime
  {
  }

  // ---------------------------------------------------------------- what is handed on

  lemma HeldReads(arena: seq<byte>, time: seq<Entry>, i: nat)
    requires Held(arena, time) && i < |time|
    ensures ReadOut(arena, time[i]) == time[i].item
  {
  }

  lemma NoneBefore(s: Sorter)
    ensures After([], s)
  {
  }

  /** The head can be found by its position, reads as it was put, and is due to be taken. */
  lemma HeadKnown(s: Sorter, lim: nat)
    requires Inv(s) && Deliverable(s, lim) && s.time != []
    ensures |s.time| == s.put - s.pop && s.time[0].Len() < lim
    ensures IndexOfPos(s.ring, s.time[0].pos) < |s.ring| && ReadOut(s.arena, s.time[0]) == s.time[0].item
  {
    InvParts(s);
    hide Start, Order;
    FindsHead(s);
    HeldReads(s.arena, s.time, 0);
  }

  /** A round of the pop loop hands on the head if and only if more than three frames are
      held and the head is due. */
  lemma PopRound(s: Sorter, lim: nat)
    requires Inv(s) && Deliverable(s, lim)
    ensures var r, due := PopOnce(s, lim), |s.time| > 3 && (s.maxTs - s.minTs) % 0x1_0000_0000 > s.sortTime;
            && (r.stop <==> !due) && r.code == 0 && Inv(r.s) && Deliverable(r.s, lim)
            && (!due ==> r.outs == [] && r.s == s)
            && (due ==>
                  && r.outs == [s.time[0].item] && r.s.time == s.time[1..]
                  && r.s.maxTs == s.maxTs && r.s.minTs == s.time[1].Ts() && r.s.sortTime == s.sortTime)
  {
    hide Inv, Deliverable, After, PopOnce;
    NoneBefore(s);
    PopOnceInv(s, lim, []);
    if s.time == [] {
      NotDue(s, lim);
    } else {
      HeadKnown(s, lim);
      PopOnceIs(s, lim);
    }
  }

  lemma NotDue(s: Sorter, lim: nat)
    requires s.time == []
    ensures PopOnce(s, lim) == PopResult(s, [], true, 0)
  {
  }

  lemma PopOnceIs(s: Sorter, lim: nat)
    requires s.time != [] && |s.time| == s.put - s.pop && s.time[0].Len() < lim
    requires IndexOfPos(s.ring, s.time[0].pos) < |s.ring|
    ensures var r, due := PopOnce(s, lim), |s.time| > 3 && (s.maxTs - s.minTs) % 0x1_0000_0000 > s.sortTime;
            && (!due ==> r == PopResult(s, [], true, 0))
            && (due ==>
                  && r.outs == [ReadOut(s.arena, s.time[0])] && !r.stop && r.code == 0 && r.s.time == s.time[1..]
                  && r.s.maxTs == s.maxTs && r.s.minTs == s.time[1].Ts() && r.s.sortTime == s.sortTime)
  {
    hide IndexOfPos, ReadOut, Without;
  }

  /** What stays due or in the buffer when the frames in front of it are handed on. */
  predicate DueAt(time: seq<Entry>, maxTs: nat, sortTime: nat, i: nat)
    requires i < |time|
  {
    |time| - i > 3 && (maxTs - time[i].Ts()) % 0x1_0000_0000 > sortTime
  }

  /** A prefix `outs` of the frames, each due when its turn came, of which there were more
      than three. */
  predicate DuePrefix(time: seq<Entry>, maxTs: nat, sortTime: nat, from: nat, outs: seq<Item>, rest: seq<Entry>) {
    && |outs| + |rest| == |time| && rest == time[|outs|..] && outs == Items(time)[..|outs|]
    && (forall i :: from <= i < |outs| && i < |time| ==> DueAt(time, maxTs, sortTime, i))
  }

  /** `more` from what is left behind the first. */
  lemma DueBehind(time: seq<Entry>, maxTs: nat, sortTime: nat, from: nat, out: Item, outs: seq<Item>, rest: seq<Entry>)
    requires time != [] && out == time[0].item && DuePrefix(time[1..], maxTs, sortTime, 0, outs, rest)
    requires from == 0 ==> DueAt(time, maxTs, sortTime, 0)
    ensures DuePrefix(time, maxTs, sortTime, if from == 0 then 0 else 1, [out] + outs, rest)
  {
    var later := time[1..];
    assert Items(time) == [out] + Items(later);
    forall i | 1 <= i < 1 + |outs| && i < |time| ensures DueAt(time, maxTs, sortTime, i) {
      assert DueAt(later, maxTs, sortTime, i - 1);
    }
  }

  lemma NoneDue(time: seq<Entry>, maxTs: nat, sortTime: nat)
    ensures DuePrefix(time, maxTs, sortTime, 0, [], time)
  {
  }

  /** The pop loop hands on a prefix of the time list: two frames, or all that are due
      while more than three are held. */
  lemma PopRounds(s: Sorter, lim: nat)
    requires Inv(s) && Deliverable(s, lim)
    ensures var p := PopTwice(s, lim);
            && Inv(p.s) && p.code == 0 && |p.outs| <= 2 && p.s.maxTs == s.maxTs && p.s.sortTime == s.sortTime
            && DuePrefix(s.time, s.maxTs, s.sortTime, 0, p.outs, p.s.time)
            && (|p.outs| == 2 || |p.s.time| <= 3 || (p.s.maxTs - p.s.minTs) % 0x1_0000_0000 <= p.s.sortTime)
  {
    hide Inv, Deliverable, PopOnce, DuePrefix;
    HeadTs(s);
    PopRound(s, lim);
    var a := PopOnce(s, lim);
    if a.stop {
      NoneDue(s.time, s.maxTs, s.sortTime);
    } else {
      HeadTs(a.s);
      PopRound(a.s, lim);
      var b := PopOnce(a.s, lim);
      NoneDue(b.s.time, s.maxTs, s.sortTime);
      if !b.stop {
        DueBehind(a.s.time, s.maxTs, s.sortTime, 0, a.s.time[0].item, [], b.s.time);
        assert [a.s.time[0].item] + [] == b.outs;
      }
      DueBehind(s.time, s.maxTs, s.sortTime, 0, s.time[0].item, b.outs, b.s.time);
    }
  }

  lemma HeadTs(s: Sorter)
    requires Inv(s)
    ensures s.time != [] ==> s.minTs == s.time[0].Ts() && s.maxTs == s.time[|s.time| - 1].Ts()
  {
  }

  lemma DropHeadIs(a: Sorter, lim: nat)
    requires |a.time| >= 2 && Deliverable(a, lim) && IndexOfPos(a.ring, a.time[0].pos) < |a.ring|
    ensures var d := DropHead(a);
            d.time == a.time[1..] && d.maxTs == a.maxTs && d.sortTime == a.sortTime && Deliverable(d, lim)
  {
    hide IndexOfPos, Without;
  }

  /** What an on-time frame that is kept brings out. */
  lemma EmitRounds(a: Sorter, lim: nat)
    requires Inv(a) && |a.time| >= 2 && a.put > 2 && Deliverable(a, lim)
    ensures var p := Emit(a, lim);
            && p.code == 0 && 1 <= |p.outs| <= 3 && p.s.maxTs == a.maxTs && p.s.sortTime == a.sortTime
            && DuePrefix(a.time, a.maxTs, a.sortTime, 1, p.outs, p.s.time)
            && (|p.outs| == 3 || |p.s.time| <= 3 || (p.s.maxTs - p.s.minTs) % 0x1_0000_0000 <= p.s.sortTime)
  {
    hide Inv, Deliverable, DropHead, PopTwice, ReadOut, IndexOfPos, After, DuePrefix;
    HeadKnown(a, lim);
    NoneBefore(a);
    DropHeadInv(a, []);
    DropHeadIs(a, lim);
    var d := DropHead(a);
    PopRounds(d, lim);
    DueBehind(a.time, a.maxTs, a.sortTime, 1, a.time[0].item, PopTwice(d, lim).outs, PopTwice(d, lim).s.time);
  }

  // ---------------------------------------------------------------- one put, answer by answer

  /** A frame older than the newest one held is taken when it is not later than the longest
      delay and not older than the last frame handed on; one at or after it unless it is
      too early, by ten seconds or for the sixty-first time. */
  predicate Takes(q: Sorter, f: Frame) {
    if f.ts < q.maxTs then (q.maxTs - f.ts) % 0x1_0000_0000 <= q.maxSortTime && q.preMinTs <= f.ts
    else (f.ts - q.maxTs) % 0x1_0000_0000 < q.maxSortTime || (q.earlyDrop < 60 && (f.ts - q.maxTs) % 0x1_0000_0000 <= 10000000)
  }

  /** A refused frame empties the buffer when it is the sixty-first that is too late, or
      too early. */
  predicate Empties(q: Sorter, f: Frame) {
    f.ts >= q.maxTs || ((q.maxTs - f.ts) % 0x1_0000_0000 > q.maxSortTime && q.lateDrop >= 60)
  }

  /** The head is due when the frame comes in. */
  predicate HeadDue(q: Sorter, f: Frame) {
    f.ts >= q.maxTs && |q.time| >= 2 && (f.ts - q.minTs) % 0x1_0000_0000 > q.sortTime
  }

  /** `x` behind all items that are not later, in front of all that are. */
  ghost predicate InsertedAt(before: seq<Item>, x: Item, i: nat, after: seq<Item>) {
    && i <= |before| && after == before[..i] + [x] + before[i..]
    && (forall j :: 0 <= j < i ==> before[j].frame.ts <= x.frame.ts)
    && (forall j :: i <= j < |before| ==> before[j].frame.ts > x.frame.ts)
  }

  lemma FirstExact(c: Outcome, f: Frame)
    requires Inv(c.s) && c.s.time == [] && c.outs == []
    ensures var o := PutFirst(c, f);
            && o.accepted && o.code == 0 && o.outs == [] && o.lost == c.lost
            && InsertedAt([], Item(c.s.nextId, f), 0, Items(o.s.time))
            && o.s.maxTs == o.s.minTs == o.s.preMinTs == f.ts && o.s.put == 1 && o.s.sortTime == c.s.sortTime
  {
  }

  lemma LateExact(c: Outcome, f: Frame, now: nat)
    requires Inv(c.s) && c.s.time != [] && c.outs == [] && f.ts < c.s.maxTs
    ensures var o := PutLate(c, f, now);
            && (o.accepted <==> Takes(c.s, f)) && o.code == (if o.accepted then 0 else -1) && o.outs == []
            && (o.accepted ==>
                  && o.lost == c.lost
                  && exists i :: InsertedAt(Items(c.s.time), Item(c.s.nextId, f), i, Items(o.s.time)))
            && (!o.accepted && Empties(c.s, f) ==> o.lost == c.lost + Items(c.s.time) && o.s.time == [])
            && (!o.accepted && !Empties(c.s, f) ==> o.lost == c.lost && o.s.time == c.s.time)
  {
    if Takes(c.s, f) {
      var e := Entry(WritePos(c.s, |f.bytes|), Item(c.s.nextId, f));
      LatePlaced(c, f, now, e);
      hide Layout, Start, InStep, PutLate, Store;
      var i := if f.ts < c.s.minTs then 0 else FirstLater(c.s.time, f.ts);
      LateIndex(c.s, e, i);
    } else {
      hide Inv, Lengthen, Items, Store, Place;
    }
  }

  lemma LateIndex(s: Sorter, e: Entry, i: nat)
    requires Order(s) && s.time != []
    requires i == if e.Ts() < s.minTs then 0 else FirstLater(s.time, e.Ts())
    ensures i <= |s.time|
    ensures InsertedAt(Items(s.time), e.item, i, Items(s.time[..i] + [e] + s.time[i..]))
    ensures i == 0 ==> s.time[..i] + [e] + s.time[i..] == [e] + s.time
  {
    LaterFrom(s, e.Ts(), i);
    ItemsInserted(s.time, i, e);
    hide Order, FirstLater, Items;
    assert i == 0 ==> s.time[..0] == [] && s.time[0..] == s.time;
  }

  /** From the place where a late frame is linked on, every frame is later. */
  lemma LaterFrom(s: Sorter, ts: nat, i: nat)
    requires Order(s) && s.time != []
    requires i == if ts < s.minTs then 0 else FirstLater(s.time, ts)
    ensures forall j :: 0 <= j < i ==> s.time[j].Ts() <= ts
    ensures forall j :: i <= j < |s.time| ==> s.time[j].Ts() > ts
  {
    forall j | i <= j < |s.time| ensures s.time[j].Ts() > ts {
      assert j == i || Earlier(s.time[i].item, s.time[j].item);
    }
  }

  lemma ItemsInserted(time: seq<Entry>, i: nat, e: Entry)
    requires i <= |time|
    ensures Items(time[..i] + [e] + time[i..]) == Items(time)[..i] + [e.item] + Items(time)[i..]
  {
  }

  lemma OnTimeExact(c: Outcome, f: Frame, now: nat, lim: nat)
    requires Inv(c.s) && c.s.time != [] && c.outs == [] && f.ts >= c.s.maxTs
    requires 0 < |f.bytes| < |c.s.arena| / 2 && Room(c.s, |f.bytes|) && |f.bytes| < lim && Deliverable(c.s, lim)
    ensures var o := PutOnTime(c, f, now, lim);
            && (o.accepted <==> Takes(c.s, f)) && o.code == (if o.accepted then 0 else -1)
            && (!o.accepted ==> o.outs == [] && o.lost == c.lost + Items(c.s.time) && o.s.time == [])
            && (o.accepted ==>
                  && o.lost == c.lost && o.s.maxTs == f.ts && o.s.sortTime == c.s.sortTime
                  && o.outs + Items(o.s.time) == Items(c.s.time) + [Item(c.s.nextId, f)]
                  && (o.outs != [] <==> HeadDue(c.s, f)) && HandsOn(c.s.time, f, o))
  {
    var s, a := c.s, Linked(c.s, f);
    hide Inv, Room, Deliverable, PutOnTime, Emit, IndexOfPos, Linked, Items, HandsOn;
    if Expired(s, f) {
      OnTimeExpired(c, f, now, lim);
    } else {
      LinkedInv(s, f, lim, []);
      OnTimeIs(c, f, now, lim);
      LinkedExact(s, f);
      if Wrap32(f.ts - s.minTs) > s.sortTime && |s.time| >= 2 {
        EmitRounds(a, lim);
        HandsOnIs(s.time, f, a, Emit(a, lim), PutOnTime(c, f, now, lim));
      } else {
        assert [] + Items(a.time) == Items(a.time);
        HandsNone(s.time, f, PutOnTime(c, f, now, lim));
      }
    }
  }

  /** The frame at `i` was at the head, with the new one behind, when more than three were
      held, and was due. */
  predicate WasDue(time: seq<Entry>, ts: nat, sortTime: nat, i: nat)
    requires i < |time|
  {
    |time| + 1 - i > 3 && (ts - time[i].Ts()) % 0x1_0000_0000 > sortTime
  }

  /** At most three frames go out, each after the first because more than three were held
      and it was due; and three went, or three are left, or the head is not due. */
  predicate HandsOn(time: seq<Entry>, f: Frame, o: Outcome) {
    && |o.outs| <= 3 && |o.outs| <= |time|
    && (forall i :: 0 <= i < |o.outs| ==> o.outs[i] == time[i].item)
    && (forall i :: 1 <= i < |o.outs| ==> WasDue(time, f.ts, o.s.sortTime, i))
    && (o.outs != [] ==>
          |o.outs| == 3 || |o.s.time| <= 3 || (o.s.maxTs - o.s.minTs) % 0x1_0000_0000 <= o.s.sortTime)
  }

  lemma HandsNone(time: seq<Entry>, f: Frame, o: Outcome)
    requires o.outs == []
    ensures HandsOn(time, f, o)
  {
  }

  lemma HandsOnIs(time: seq<Entry>, f: Frame, a: Sorter, p: PopResult, o: Outcome)
    requires o.s == p.s && o.outs == p.outs && 1 <= |p.outs| <= 3 && |time| >= 2
    requires |a.time| == |time| + 1 && a.time[..|time|] == time && a.maxTs == f.ts
    requires p.s.sortTime == a.sortTime && DuePrefix(a.time, a.maxTs, a.sortTime, 1, p.outs, p.s.time)
    requires |p.outs| == 3 || |p.s.time| <= 3 || (p.s.maxTs - p.s.minTs) % 0x1_0000_0000 <= p.s.sortTime
    ensures HandsOn(time, f, o) && o.outs + Items(o.s.time) == Items(a.time)
  {
    assert |time| < |o.outs| ==> DueAt(a.time, a.maxTs, a.sortTime, |time|);
    forall i | 0 <= i < |o.outs| ensures o.outs[i] == time[i].item && (i > 0 ==> WasDue(time, f.ts, o.s.sortTime, i)) {
      assert i > 0 ==> DueAt(a.time, a.maxTs, a.sortTime, i);
      assert a.time[..|time|][i] == a.time[i] && Items(a.time)[..|o.outs|][i] == a.time[i].item;
    }
    assert Items(p.s.time) == Items(a.time)[|p.outs|..];
  }

  lemma OnTimeExpired(c: Outcome, f: Frame, now: nat, lim: nat)
    requires c.s.time != [] && f.ts >= c.s.maxTs && Expired(c.s, f)
    ensures var o := PutOnTime(c, f, now, lim);
            !o.accepted && o.code == -1 && o.outs == [] && o.lost == c.lost + Items(c.s.time) && o.s.time == []
  {
  }

  lemma LinkedExact(s: Sorter, f: Frame)
    ensures var a := Linked(s, f);
            && |a.time| == |s.time| + 1 && a.time[..|s.time|] == s.time && a.maxTs == f.ts && a.sortTime == s.sortTime
            && Items(a.time) == Items(s.time) + [Item(s.nextId, f)]
  {
    hide Store, WritePos;
  }

  /** One put.  `q` is the buffer once room has been made.  The frame is turned away, or it
      is accepted or refused as the clock of the frames says; what is accepted goes behind
      all frames that are not later, what is handed on is taken from the front, and what is
      lost is everything or nothing. */
  lemma PutExact(s: Sorter, f: Frame, now: nat, lim: nat)
    requires Inv(s) && Deliverable(s, lim) && Proper(s, |f.bytes|, lim)
    ensures var o, c := Put(s, f, now, lim), Check(s, |f.bytes|, now);
            if |f.bytes| >= |s.arena| / 2 then
              o.s == s && !o.accepted && o.code == -1 && o.outs == [] && o.lost == []
            else
              PutDoes(c, f, o) && c.s.nextId == s.nextId
  {
    hide Inv, Room, Deliverable, Check, PutFirst, PutLate, PutOnTime, HandsOn, Items, InsertedAt, Takes, Empties, HeadDue;
    var o := Put(s, f, now, lim);
    if |f.bytes| < |s.arena| / 2 {
      var c := Check(s, |f.bytes|, now);
      CheckMakesRoom(s, |f.bytes|, now);
      CheckFor(s, |f.bytes|, now, lim);
      if c.s.time == [] {
        FirstPut(c, f);
      } else if f.ts < c.s.maxTs {
        LatePut(c, f, now);
      } else {
        OnTimePut(c, f, now, lim);
      }
    }
  }

  lemma CheckFor(s: Sorter, len: nat, now: nat, lim: nat)
    requires Inv(s) && Deliverable(s, lim)
    ensures var c := Check(s, len, now);
            Deliverable(c.s, lim) && c.outs == [] && c.s.nextId == s.nextId
  {
    hide Inv, Layout, Start, Order, Deliverable, Check, After;
    InvParts(s);
    NoneBefore(s);
    CheckItems(s, len, now);
    CheckAfter(s, len, now, lim, []);
  }

  /** What one put does to the buffer `c.s`, in which room has been made. */
  ghost predicate PutDoes(c: Outcome, f: Frame, o: Outcome) {
    && (o.accepted <==> c.s.time == [] || Takes(c.s, f))
    && o.code == (if o.accepted then 0 else -1)
    && (o.accepted ==>
          && o.lost == c.lost
          && exists i :: InsertedAt(Items(c.s.time), Item(c.s.nextId, f), i, o.outs + Items(o.s.time)))
    && (!o.accepted ==>
          && o.outs == []
          && o.lost == c.lost + (if Empties(c.s, f) then Items(c.s.time) else [])
          && Items(o.s.time) == (if Empties(c.s, f) then [] else Items(c.s.time)))
    && (o.outs != [] <==> o.accepted && HeadDue(c.s, f))
    && (o.accepted && c.s.time != [] && f.ts >= c.s.maxTs ==> o.s.sortTime == c.s.sortTime)
    && HandsOn(c.s.time, f, o)
  }

  lemma FirstPut(c: Outcome, f: Frame)
    requires Inv(c.s) && c.s.time == [] && c.outs == []
    ensures PutDoes(c, f, PutFirst(c, f))
  {
    hide Inv, PutFirst, HandsOn, Items;
    var o := PutFirst(c, f);
    FirstExact(c, f);
    NoItems(c.s.time);
    OutFirst(o.outs, Items(o.s.time));
    HandsNone(c.s.time, f, o);
  }

  lemma LatePut(c: Outcome, f: Frame, now: nat)
    requires Inv(c.s) && c.s.time != [] && c.outs == [] && f.ts < c.s.maxTs
    ensures PutDoes(c, f, PutLate(c, f, now))
  {
    hide Inv, PutLate, HandsOn, Items, InsertedAt, Takes, Empties;
    var o := PutLate(c, f, now);
    LateExact(c, f, now);
    OutFirst(o.outs, Items(o.s.time));
    HandsNone(c.s.time, f, o);
    NoItems(o.s.time);
    Appended(c.lost);
  }

  lemma OnTimePut(c: Outcome, f: Frame, now: nat, lim: nat)
    requires Inv(c.s) && c.s.time != [] && c.outs == [] && f.ts >= c.s.maxTs
    requires 0 < |f.bytes| < |c.s.arena| / 2 && Room(c.s, |f.bytes|) && |f.bytes| < lim && Deliverable(c.s, lim)
    ensures PutDoes(c, f, PutOnTime(c, f, now, lim))
  {
    hide Inv, Room, Deliverable, PutOnTime, HandsOn, Items, InsertedAt, Takes, HeadDue;
    var o := PutOnTime(c, f, now, lim);
    OnTimeExact(c, f, now, lim);
    NoItems(o.s.time);
    InsertedLast(c.s, Item(c.s.nextId, f), o.outs + Items(o.s.time));
    if !o.accepted {
      HandsNone(c.s.time, f, o);
    }
  }

  lemma NoItems(time: seq<Entry>)
    ensures time == [] ==> Items(time) == []
  {
  }

  lemma OutFirst(outs: seq<Item>, held: seq<Item>)
    requires outs == []
    ensures outs + held == held
  {
  }

  lemma Appended(lost: seq<Item>)
    ensures lost + [] == lost
  {
  }

  /** A frame at or after the newest one goes to the end. */
  lemma InsertedLast(q: Sorter, x: Item, after: seq<Item>)
    requires Inv(q) && q.time != [] && q.maxTs <= x.frame.ts
    ensures after == Items(q.time) + [x] ==> InsertedAt(Items(q.time), x, |q.time|, after)
  {
    forall j | 0 <= j < |q.time| ensures q.time[j].Ts() <= q.maxTs {
      assert j == |q.time| - 1 || Earlier(q.time[j].item, q.time[|q.time| - 1].item);
    }
    assert Items(q.time)[..|q.time|] == Items(q.time) && Items(q.time)[|q.time|..] == [];
    assert Items(q.time) + [x] + [] == Items(q.time) + [x];
  }

  // ---------------------------------------------------------------- what is lost and what goes out

  /** Of what the answers depend on, making room changes only the delay when nothing is in
      the way; a regrow also forgets the refused frames and what was handed on. */
  lemma CheckTimes(s: Sorter, len: nat, now: nat)
    ensures var c := Check(s, len, now);
            && (!c.reset ==> c.s == s.(sortTime := c.s.sortTime, analyTime := c.s.analyTime, analyClock := c.s.analyClock))
            && (c.reset && |s.arena| <= 8 * 1024 * 1024 ==>
                  && c.s.maxTs == s.maxTs && c.s.minTs == s.minTs && c.s.maxSortTime == s.maxSortTime
                  && c.s.preMinTs == 0 && c.s.lateDrop == 0 && c.s.earlyDrop == 0)
            && (c.reset && |s.arena| > 8 * 1024 * 1024 ==>
                  && c.s.maxTs == c.s.minTs == c.s.preMinTs == 0 && c.s.put == c.s.pop == 0
                  && c.s.sortTime == s.sortTimeBak && c.s.lateDrop == s.lateDrop && c.s.earlyDrop == s.earlyDrop)
  {
    hide TooLong, Decay;
    if s.ring != [] && s.put > 2 {
      RegrowCounters(if s.position + len > |s.arena| then Decay(s, now) else s, |s.arena| * 3 / 2, now);
    }
    hide Regrow;
  }

  /** A put loses frames if and only if it takes the buffer past 8 MiB, or refuses the
      sixty-first frame that is too late or early, or one more than ten seconds ahead;
      then it loses every frame held. */
  lemma LostIff(s: Sorter, f: Frame, now: nat, lim: nat)
    requires Inv(s) && Deliverable(s, lim) && Proper(s, |f.bytes|, lim)
    ensures var o, reset := Put(s, f, now, lim), s.put > 2 && InTheWay(s, |f.bytes|);
            && (o.lost == [] || o.lost == Items(s.time))
            && (o.lost != [] <==>
                  && s.time != [] && |f.bytes| < |s.arena| / 2
                  && ((reset && |s.arena| > 8 * 1024 * 1024)
                      || (f.ts < s.maxTs && (s.maxTs - f.ts) % 0x1_0000_0000 > s.maxSortTime && !reset && s.lateDrop >= 60)
                      || (f.ts >= s.maxTs && (f.ts - s.maxTs) % 0x1_0000_0000 >= s.maxSortTime
                          && ((!reset && s.earlyDrop >= 60) || (f.ts - s.maxTs) % 0x1_0000_0000 > 10000000))))
  {
    hide Inv, Deliverable, Proper, Check, Put, PutDoes, InTheWay, Items;
    PutExact(s, f, now, lim);
    LengthItems(s.time);
    if |f.bytes| < |s.arena| / 2 {
      ResetIff(s, |f.bytes|, now);
      CheckTimes(s, |f.bytes|, now);
      CheckHolds(s, |f.bytes|, now);
      LostOf(Check(s, |f.bytes|, now), f, Put(s, f, now, lim));
    }
  }

  lemma CheckHolds(s: Sorter, len: nat, now: nat)
    requires Inv(s)
    ensures var c := Check(s, len, now);
            && (c.lost == [] ==> Items(c.s.time) == Items(s.time) && |c.s.time| == |s.time|)
            && (c.lost != [] ==> c.s.time == [] && c.lost == Items(s.time) && s.time != [])
  {
    hide Inv, Layout, Start, Order, InStep, Check, SameButDelay, TooLong;
    InvParts(s);
    CheckItems(s, len, now);
    var c := Check(s, len, now);
    LengthItems(c.s.time);
    LengthItems(s.time);
    hide Items;
    if c.lost == [] {
      assert Items(c.s.time) + [] == Items(c.s.time);
    } else {
      assert [] + c.lost == c.lost;
    }
  }

  lemma LengthItems(time: seq<Entry>)
    ensures |Items(time)| == |time| && (time == [] <==> Items(time) == [])
  {
  }

  lemma LostOf(c: Outcome, f: Frame, o: Outcome)
    requires PutDoes(c, f, o) && (c.lost == [] || c.s.time == [])
    ensures o.lost == (if c.s.time != [] && !Takes(c.s, f) && Empties(c.s, f) then Items(c.s.time) else c.lost)
  {
    hide HandsOn, InsertedAt, Items, Takes, Empties, HeadDue;
    LengthItems(c.s.time);
    assert c.lost + [] == c.lost && [] + Items(c.s.time) == Items(c.s.time);
  }

  /** Of `held` frames and a new one with timestamp `ts`: when the frame at `i` went out,
      behind the first, more than three were left, and it was due. */
  predicate FollowersDue(outs: seq<Item>, held: nat, ts: nat, sortTime: nat) {
    forall i :: 1 <= i < |outs| ==> held + 1 - i > 3 && (ts - outs[i].frame.ts) % 0x1_0000_0000 > sortTime
  }

  /** A put hands frames on if and only if it accepts a frame that is not older than any
      held one while nothing was in the way past the limit, two are held and the oldest is
      due.  It hands on at most three, each after the first while more than three are held
      and it is due, and does not stop before the third as long as that is so. */
  lemma PutHandsOn(s: Sorter, f: Frame, now: nat, lim: nat)
    requires Inv(s) && Deliverable(s, lim) && Proper(s, |f.bytes|, lim)
    ensures var o := Put(s, f, now, lim);
            && (o.outs != [] <==>
                  && o.accepted && o.lost == []
                  && f.ts >= s.maxTs && |s.time| >= 2 && (f.ts - s.minTs) % 0x1_0000_0000 > o.s.sortTime)
            && |o.outs| <= 3
            && FollowersDue(o.outs, |s.time|, f.ts, o.s.sortTime)
            && (o.outs != [] ==>
                  |o.outs| == 3 || |o.s.time| <= 3 || (o.s.maxTs - o.s.minTs) % 0x1_0000_0000 <= o.s.sortTime)
  {
    hide Inv, Deliverable, Proper, Check, Put, PutDoes, InTheWay, Items, FollowersDue;
    PutExact(s, f, now, lim);
    NoFollowers(|s.time|, f.ts, Put(s, f, now, lim).s.sortTime);
    if |f.bytes| < |s.arena| / 2 {
      ResetIff(s, |f.bytes|, now);
      CheckTimes(s, |f.bytes|, now);
      CheckHolds(s, |f.bytes|, now);
      LengthItems(s.time);
      OutsOf(Check(s, |f.bytes|, now), f, Put(s, f, now, lim));
    }
  }

  lemma NoFollowers(held: nat, ts: nat, sortTime: nat)
    ensures FollowersDue([], held, ts, sortTime)
  {
  }

  lemma OutsOf(c: Outcome, f: Frame, o: Outcome)
    requires PutDoes(c, f, o) && (c.lost == [] || c.s.time == [])
    ensures o.outs != [] <==> o.accepted && o.lost == [] && f.ts >= c.s.maxTs && |c.s.time| >= 2 && (f.ts - c.s.minTs) % 0x1_0000_0000 > o.s.sortTime
    ensures |o.outs| <= 3 && |o.outs| <= |c.s.time| && (o.accepted ==> o.lost == c.lost)
    ensures FollowersDue(o.outs, |c.s.time|, f.ts, o.s.sortTime)
    ensures o.outs != [] ==>
              |o.outs| == 3 || |o.s.time| <= 3 || (o.s.maxTs - o.s.minTs) % 0x1_0000_0000 <= o.s.sortTime
  {
    hide InsertedAt, Items, Takes, Empties;
    FollowersOf(c.s.time, f, o);
  }

  lemma FollowersOf(time: seq<Entry>, f: Frame, o: Outcome)
    requires HandsOn(time, f, o)
    ensures FollowersDue(o.outs, |time|, f.ts, o.s.sortTime)
  {
    forall i | 1 <= i < |o.outs|
      ensures |time| + 1 - i > 3 && (f.ts - o.outs[i].frame.ts) % 0x1_0000_0000 > o.s.sortTime
    {
      assert WasDue(time, f.ts, o.s.sortTime, i);
      assert o.outs[i] == time[i].item;
    }
  }

  // ---------------------------------------------------------------- the sort delay and the counters

  /** The delay after a reduction: down to the measured spread of the last minutes if that is
      at most 100 ms less, and otherwise by 100 ms or, from 200 ms on, by 300 ms, in 32 bits;
      never below the configured delay, and unchanged when nothing smaller was measured. */
  function Shortened(s: Sorter): nat {
    var gap := s.sortTime - s.analyTime;
    if s.analyTime == 0 || gap <= 0 then s.sortTime
    else
      var to := if gap <= 100000 then s.analyTime
                else if gap <= 200000 then s.sortTime - 100000
                else (s.sortTime - 300000) % 0x1_0000_0000;
      if to < s.sortTimeBak then s.sortTimeBak else to
  }

  /** The delay is reduced if and only if a frame goes round the end of the arena when more
      than two have been put and five minutes have passed since the last reduction,
      lengthening, regrow or clean; a clean resets it to the configured one. */
  lemma DelayReducedIff(s: Sorter, len: nat, now: nat)
    requires Inv(s) && s.sortTime < 0x1_0000_0000
    ensures var c, reset := Check(s, len, now), s.put > 2 && InTheWay(s, len);
            var round := s.put > 2 && s.time != [] && s.position + len > |s.arena| && (now - s.analyClock) % 0x1_0000_0000_0000_0000 >= 300;
            var cleaned := reset && |s.arena| > 8 * 1024 * 1024;
            && c.s.sortTime == (if cleaned then s.sortTimeBak else if round then Shortened(s) else s.sortTime)
            && c.s.analyTime == (if cleaned || round then 0 else s.analyTime)
            && c.s.analyClock == (if reset || round then now else s.analyClock)
            && c.s.sortTimeBak == s.sortTimeBak && c.s.maxSortTime == s.maxSortTime
  {
    RingToo(s);
    hide Inv, Regrow, Decay, Items;
    ReducedTo(s, now);
    var s1 := if s.position + len > |s.arena| then Decay(s, now) else s;
    RegrowDelay(s1, |s.arena| * 3 / 2, now);
  }

  lemma RingToo(s: Sorter)
    requires Inv(s)
    ensures s.ring == [] <==> s.time == []
  {
  }

  lemma RegrowDelay(s: Sorter, size: nat, now: nat)
    ensures Regrow(s, size, now) == s.(arena := Regrow(s, size, now).arena, position := Regrow(s, size, now).position,
                                       time := Regrow(s, size, now).time, ring := Regrow(s, size, now).ring,
                                       preMinTs := 0, lateDrop := 0, earlyDrop := 0, analyClock := now)
  {
  }

  lemma ReducedTo(s: Sorter, now: nat)
    requires s.sortTime < 0x1_0000_0000
    ensures var t := Decay(s, now);
            t == if (now - s.analyClock) % 0x1_0000_0000_0000_0000 < 300 then s
                 else s.(sortTime := Shortened(s), analyTime := 0, analyClock := now)
  {
  }

  /** The delay is lengthened by a frame older than the head that is not too late, accepted
      or not: by its distance from the head, or by 20 ms when that is over 60 ms, as long as
      delay and distance stay below the longest one.  An accepted frame behind the head is
      measured: the spread is at least the distance from the newest frame to the last one
      that is not later than it. */
  lemma DelayLengthenedIff(c: Outcome, f: Frame, now: nat)
    requires f.ts < c.s.maxTs
    ensures var s, o := c.s, PutLate(c, f, now);
            var late, gap := (s.maxTs - f.ts) % 0x1_0000_0000 > s.maxSortTime, (s.minTs - f.ts) % 0x1_0000_0000;
            && (!late && f.ts < s.minTs ==>
                  if (s.sortTime + gap) % 0x1_0000_0000 >= s.maxSortTime then
                    o.s.sortTime == s.sortTime && o.s.analyTime == s.analyTime && o.s.analyClock == s.analyClock
                  else
                    && o.s.sortTime == (s.sortTime + if gap > 60000 then 20000 else gap) % 0x1_0000_0000
                    && o.s.analyTime == 0 && o.s.analyClock == now)
            && (!late && f.ts >= s.minTs ==>
                  && o.s.sortTime == s.sortTime && o.s.analyClock == s.analyClock
                  && (!o.accepted ==> o.s.analyTime == s.analyTime))
            && (late && s.lateDrop < 60 ==>
                  o.s.sortTime == s.sortTime && o.s.analyTime == s.analyTime && o.s.analyClock == s.analyClock)
            && (late && s.lateDrop >= 60 ==>
                  o.s.sortTime == s.sortTimeBak && o.s.analyTime == 0 && o.s.analyClock == now)
  {
  }

  lemma SpreadMeasured(c: Outcome, f: Frame, now: nat, i: nat)
    requires Order(c.s) && c.s.time != [] && c.s.minTs <= f.ts < c.s.maxTs && PutLate(c, f, now).accepted
    requires 0 < i <= |c.s.time| && c.s.time[i - 1].Ts() <= f.ts && (i < |c.s.time| ==> f.ts < c.s.time[i].Ts())
    ensures var s := c.s;
            var last := s.time[i - 1].Ts();
            var spread := (s.maxTs - last) % 0x1_0000_0000;
            PutLate(c, f, now).s.analyTime == if last == 0 || spread <= s.analyTime then s.analyTime else spread
  {
    var k := FirstLater(c.s.time, f.ts);
    assert k < i - 1 ==> Earlier(c.s.time[k].item, c.s.time[i - 1].item);
    assert i == k;
    hide Order, FirstLater, Store;
  }

  /** The refused late frames are counted in a row. */
  lemma LateCounted(c: Outcome, f: Frame, now: nat)
    requires f.ts < c.s.maxTs
    ensures var s, o := c.s, PutLate(c, f, now);
            && o.s.earlyDrop == s.earlyDrop
            && (o.accepted ==> o.s.lateDrop == 0)
            && (!o.accepted ==> o.s.lateDrop == if (s.maxTs - f.ts) % 0x1_0000_0000 > s.maxSortTime then s.lateDrop + 1 else 1)
  {
    hide Store, Items, FirstLater;
  }

  /** The early frames are counted until one is on time; one that is refused sets the delay
      back. */
  lemma EarlyCounted(c: Outcome, f: Frame, now: nat, lim: nat)
    requires Inv(c.s) && c.s.time != [] && c.outs == [] && f.ts >= c.s.maxTs
    ensures var s, o := c.s, PutOnTime(c, f, now, lim);
            && o.s.lateDrop == s.lateDrop
            && (o.accepted ==>
                  && o.s.earlyDrop == (if (f.ts - s.maxTs) % 0x1_0000_0000 >= s.maxSortTime then s.earlyDrop + 1 else 0)
                  && o.s.sortTime == s.sortTime && o.s.analyTime == s.analyTime && o.s.analyClock == s.analyClock)
            && (!o.accepted ==>
                  o.s.earlyDrop == 0 && o.s.sortTime == s.sortTimeBak && o.s.analyTime == 0 && o.s.analyClock == now)
  {
    hide Inv, IndexOfPos, PutOnTime, Linked, Emit, Expired, Store, Wrap32;
    HeadKnownSomewhere(c.s);
    LinkedKeeps(c.s, f);
    if Expired(c.s, f) {
      ExpiredSets(c, f, now, lim);
    } else {
      OnTimeIs(c, f, now, lim);
      EmitKeeps(Linked(c.s, f), lim);
    }
  }

  predicate SameCounters(s: Sorter, t: Sorter) {
    && t.lateDrop == s.lateDrop && t.earlyDrop == s.earlyDrop
    && t.sortTime == s.sortTime && t.analyTime == s.analyTime && t.analyClock == s.analyClock
    && t.position == s.position && |t.arena| == |s.arena| && t.put == s.put
  }

  lemma PopKeeps(s: Sorter, lim: nat)
    ensures SameCounters(s, PopOnce(s, lim).s)
  {
    hide IndexOfPos, Without, ReadOut;
  }

  lemma EmitKeeps(a: Sorter, lim: nat)
    requires |a.time| >= 2
    ensures SameCounters(a, Emit(a, lim).s)
  {
    var d := DropHead(a);
    assert SameCounters(a, d) by { hide IndexOfPos, Without; }
    hide DropHead, PopOnce, ReadOut;
    PopKeeps(d, lim);
    PopKeeps(PopOnce(d, lim).s, lim);
  }

  lemma LinkedKeeps(s: Sorter, f: Frame)
    ensures var a, t := Linked(s, f), Store(s, f.bytes);
            && a.lateDrop == s.lateDrop
            && a.earlyDrop == (if (f.ts - s.maxTs) % 0x1_0000_0000 >= s.maxSortTime then s.earlyDrop + 1 else 0)
            && a.sortTime == s.sortTime && a.analyTime == s.analyTime && a.analyClock == s.analyClock
            && a.position == t.position && |a.arena| == |t.arena| && a.put == s.put + 1
  {
    hide Store;
  }

  lemma ExpiredSets(c: Outcome, f: Frame, now: nat, lim: nat)
    requires Expired(c.s, f)
    ensures var s, o := c.s, PutOnTime(c, f, now, lim);
            && !o.accepted && o.s.lateDrop == s.lateDrop && o.s.earlyDrop == 0
            && o.s.sortTime == s.sortTimeBak && o.s.analyTime == 0 && o.s.analyClock == now
  {
    hide Items, Store, PopTwice, IndexOfPos, Without, ReadOut;
  }

  /** The bytes go to the write position, or to 0 when they would not fit before the end, and
      nothing else in the arena changes; the next write position is behind them, going
      round. */
  lemma StoreExact(s: Sorter, bytes: seq<byte>)
    requires s.position < |s.arena| && |bytes| < |s.arena|
    ensures var t, w := Store(s, bytes), if s.position + |bytes| <= |s.arena| then s.position else 0;
            && t.position == (w + |bytes|) % |s.arena| && |t.arena| == |s.arena|
            && (forall i :: 0 <= i < |s.arena| ==> t.arena[i] == if w <= i < w + |bytes| then bytes[i - w] else s.arena[i])
  {
    var w := if s.position + |bytes| <= |s.arena| then s.position else 0;
    OneRoundAtMost(w + |bytes|, |s.arena|);
  }

  lemma StorePosition(s: Sorter, bytes: seq<byte>)
    requires s.position < |s.arena| && |bytes| < |s.arena|
    ensures var t, w := Store(s, bytes), if s.position + |bytes| <= |s.arena| then s.position else 0;
            t.position == (w + |bytes|) % |s.arena| && |t.arena| == |s.arena|
  {
    StoreExact(s, bytes);
    hide Store;
  }

  lemma CheckEmitsNothing(s: Sorter, len: nat, now: nat)
    ensures Check(s, len, now).outs == []
  {
    hide TooLong, Regrow, Decay, Items;
  }

  lemma OneRoundAtMost(n: nat, size: nat)
    requires n <= size && 0 < size
    ensures n % size == if n == size then 0 else n
  {
  }

  /** An accepted frame moves the write position behind itself, whatever is handed on. */
  lemma PositionExact(s: Sorter, f: Frame, now: nat, lim: nat)
    requires Inv(s) && Proper(s, |f.bytes|, lim) && Put(s, f, now, lim).accepted
    ensures var o, q := Put(s, f, now, lim), Check(s, |f.bytes|, now).s;
            && |o.s.arena| == |q.arena| && q.position < |q.arena|
            && o.s.position == (if q.position + |f.bytes| <= |q.arena| then q.position + |f.bytes| else |f.bytes|) % |q.arena|
            && o.s.put == (if q.time == [] then 1 else q.put + 1)
  {
    hide Inv, Check, Store, PutFirst, PutLate, PutOnTime, Room;
    var c := Check(s, |f.bytes|, now);
    CheckMakesRoom(s, |f.bytes|, now);
    InvPosition(c.s);
    CheckEmitsNothing(s, |f.bytes|, now);
    StorePosition(c.s, f.bytes);
    if c.s.time == [] {
      FirstPosition(c, f);
    } else if f.ts < c.s.maxTs {
      LatePosition(c, f, now);
    } else {
      OnTimePosition(c, f, now, lim);
    }
  }

  lemma FirstPosition(c: Outcome, f: Frame)
    ensures var o, t := PutFirst(c, f).s, Store(c.s, f.bytes);
            o.position == t.position && |o.arena| == |t.arena| && o.put == 1
  {
    hide Store;
  }

  lemma LatePosition(c: Outcome, f: Frame, now: nat)
    ensures PutLate(c, f, now).accepted ==>
              var o, t := PutLate(c, f, now).s, Store(c.s, f.bytes);
              o.position == t.position && |o.arena| == |t.arena| && o.put == c.s.put + 1
  {
    hide Store, Items, FirstLater, Lengthen, Wrap32;
  }

  lemma OnTimePosition(c: Outcome, f: Frame, now: nat, lim: nat)
    requires Inv(c.s) && c.s.time != [] && c.outs == []
    ensures PutOnTime(c, f, now, lim).accepted ==>
              var o, t := PutOnTime(c, f, now, lim).s, Store(c.s, f.bytes);
              o.position == t.position && |o.arena| == |t.arena| && o.put == c.s.put + 1
  {
    hide Inv, IndexOfPos, PutOnTime, Linked, Emit, Expired, Store, Wrap32;
    HeadKnownSomewhere(c.s);
    LinkedKeeps(c.s, f);
    if Expired(c.s, f) {
      ExpiredSets(c, f, now, lim);
    } else {
      OnTimeIs(c, f, now, lim);
      EmitKeeps(Linked(c.s, f), lim);
    }
  }

  lemma InvPosition(s: Sorter)
    requires Inv(s)
    ensures s.position < |s.arena|
  {
  }

  lemma HeadKnownSomewhere(s: Sorter)
    requires Inv(s) && s.time != []
    ensures IndexOfPos(s.ring, s.time[0].pos) < |s.ring|
  {
    InvParts(s);
    hide Start, Order;
    FindsHead(s);
  }

  /** A new buffer: empty, with the longest delay never under a second. */
  lemma CreateExact(size: nat, sortTime: nat, maxSortTime: nat, now: nat)
    ensures var s := Create(size, sortTime, maxSortTime, now);
            && |s.arena| == size && s.position == s.put == s.pop == s.validLen == 0 && s.time == [] && s.ring == []
            && s.sortTime == s.sortTimeBak == sortTime && maxSortTime <= s.maxSortTime && 1000000 <= s.maxSortTime
            && (s.maxSortTime == maxSortTime || s.maxSortTime == 1000000)
            && s.lateDrop == s.earlyDrop == 0 && s.analyTime == 0 && s.analyClock == now
  {
  }
}
