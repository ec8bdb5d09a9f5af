/**
 One call of PutFrameStreamSort keeps the invariant, conserves the items and emits in
 order, as long as the third frame after a create or a clean fits.
 */
module SortKeeps {
  import opened Media
  import opened SortSpec
  import opened SortInv

  /** CheckStreambuff looks at nothing while at most two frames have been put, so the
      third one has to fit by itself. */
  predicate ThirdFits(s: Sorter, len: nat) {
    s.put == 2 ==> s.position + len <= |s.arena|
  }

  /** What the caller sees to for a frame that the buffer does not turn away at once: it is
      not empty, and fits if it is the third. */
  predicate Storable(s: Sorter, len: nat) {
    len < |s.arena| / 2 ==> 0 < len && ThirdFits(s, len)
  }

  /** And the callback will take it. */
  predicate Proper(s: Sorter, len: nat, lim: nat) {
    Storable(s, len) && (len < |s.arena| / 2 ==> len < lim)
  }

  /** The callback takes every held frame. */
  predicate Deliverable(s: Sorter, lim: nat) {
    forall i :: 0 <= i < |s.time| ==> s.time[i].Len() < lim
  }

  /** `len` bytes can be written without touching a held frame. */
  ghost predicate Room(s: Sorter, len: nat) {
    s.ring != [] && exists k ::
      LaidAt(s.ring, s.position, |s.arena|, k) && (!TooLong(s, len) || (k == 0 && s.position + len <= |s.arena|))
  }

  /** The items emitted since the last reset are in order, and everything still held
      comes after them. */
  predicate After(done: seq<Item>, s: Sorter) {
    && (forall i, j :: 0 <= i < j < |done| ==> Earlier(done[i], done[j]))
    && (done != [] ==>
          var last := done[|done| - 1];
          && s.preMinTs == last.frame.ts
          && s.time != []
          && last.id < s.nextId
          && forall i :: 0 <= i < |s.time| ==> Earlier(last, s.time[i].item))
  }

  // ---------------------------------------------------------------- room

  lemma CheckMakesRoom(s: Sorter, len: nat, now: nat)
    requires Inv(s) && 0 < len < |s.arena| / 2 && ThirdFits(s, len)
    ensures var c := Check(s, len, now);
            && Inv(c.s)
            && (c.s.time == [] || Room(c.s, len))
            && len < |c.s.arena| / 2
  {
    var c := Check(s, len, now);
    if s.ring == [] || s.put <= 2 {
    } else {
      var s1 := if s.position + len > |s.arena| then Decay(s, now) else s;
      SameButDelayInv(s, s1);
      if !TooLong(s, len) {
        var k :| LaidAt(s1.ring, s1.position, |s1.arena|, k);
      } else if |s.arena| > MAX_SORT_BUFF_LEN {
        CleanInv(s1, now);
      } else {
        RegrowInv(s1, |s.arena| * 3 / 2, now);
      }
    }
  }

  lemma CheckItems(s: Sorter, len: nat, now: nat)
    requires InStep(s)
    ensures var c := Check(s, len, now);
            && c.s.nextId == s.nextId
            && Items(c.s.time) + c.lost == Items(s.time)
            && (c.reset || SameButDelay(s, c.s))
            && (c.reset ==> s.put > 2 && TooLong(s, len))
            && (c.lost != [] ==> c.reset && c.s.time == [])
            && (c.s.time == [] || Items(c.s.time) == Items(s.time))
  {
    var c := Check(s, len, now);
    if c.reset && c.s.time != [] {
      assert Items(c.s.time) == Items(s.time);
    }
  }

  // ---------------------------------------------------------------- writing

  lemma BlitKeeps(arena: seq<byte>, es: seq<Entry>, e: Entry)
    requires Held(arena, es) && e.End() <= |arena|
    requires forall i :: 0 <= i < |es| ==> Apart(es[i], e)
    ensures Held(Blit(arena, e.pos, e.item.frame.bytes), es + [e])
  {
    var a := Blit(arena, e.pos, e.item.frame.bytes);
    forall i | 0 <= i < |es|
      ensures a[es[i].pos..es[i].End()] == es[i].item.frame.bytes
    {
      assert a[es[i].pos..es[i].End()] == arena[es[i].pos..es[i].End()];
    }
    assert a[e.pos..e.End()] == e.item.frame.bytes;
  }

  /** MemcpyToSortBuff writes a frame apart from all held ones, and they stay as they
      were. */
  lemma StoreLayout(s: Sorter, e: Entry) returns (k: nat)
    requires Held(s.arena, s.ring) && Room(s, e.Len()) && 0 < e.Len() && e.pos == WritePos(s, e.Len())
    ensures var t := Store(s, e.item.frame.bytes);
            && |t.arena| == |s.arena|
            && LaidAt(s.ring + [e], t.position, |t.arena|, k)
            && Held(t.arena, s.ring + [e])
            && (LaidAt(s.ring, s.position, |s.arena|, 0) && s.position + e.Len() < |s.arena| ==>
                  LaidAt(s.ring + [e], t.position, |t.arena|, 0))
  {
    var k0 :| LaidAt(s.ring, s.position, |s.arena|, k0)
              && (!TooLong(s, e.Len()) || (k0 == 0 && s.position + e.Len() <= |s.arena|));
    k := LaidAppend(s, k0, e);
    var t := Store(s, e.item.frame.bytes);
    LaidApart(s.ring + [e], t.position, |t.arena|, k);
    var all := s.ring + [e];
    forall i | 0 <= i < |s.ring| ensures Apart(s.ring[i], e) {
      assert Apart(all[i], all[|s.ring|]);
    }
    BlitKeeps(s.arena, s.ring, e);
    if LaidAt(s.ring, s.position, |s.arena|, 0) && s.position + e.Len() < |s.arena| {
      var k1 := LaidAppend(s, 0, e);
    }
  }

  lemma InsertSum(time: seq<Entry>, i: nat, e: Entry)
    requires i <= |time|
    ensures SumLen(time[..i] + [e] + time[i..]) == SumLen(time) + e.Len()
  {
    assert time == time[..i] + time[i..];
    SumConcat(time[..i], time[i..]);
    SumAppend(time[..i], e);
    SumConcat(time[..i] + [e], time[i..]);
  }

  lemma InsertItems(time: seq<Entry>, i: nat, e: Entry)
    requires i <= |time|
    ensures multiset(Items(time[..i] + [e] + time[i..])) == multiset(Items(time)) + multiset{e.item}
  {
    var a, b := Items(time)[..i], Items(time)[i..];
    assert Items(time[..i] + [e] + time[i..]) == a + [e.item] + b;
    InsertMultiset(Items(time), i, e.item);
  }

  /** Storing `e` and linking it anywhere into the time list keeps layout and step. */
  lemma AcceptInv(s: Sorter, e: Entry, i: nat, t: Sorter)
    requires Inv(s) && Room(s, e.Len()) && 0 < e.Len() < |s.arena| / 2
    requires e.pos == WritePos(s, e.Len()) && i <= |s.time|
    requires var w := Store(s, e.item.frame.bytes); t.arena == w.arena && t.position == w.position
    requires t.ring == s.ring + [e] && t.time == s.time[..i] + [e] + s.time[i..]
    requires t.put == s.put + 1 && t.pop == s.pop && t.validLen == s.validLen + e.Len()
    ensures Layout(t) && Start(t) && InStep(t)
    ensures multiset(Items(t.time)) == multiset(Items(s.time)) + multiset{e.item}
  {
    var k := StoreLayout(s, e);
    InsertMultiset(s.time, i, e);
    InsertSum(s.time, i, e);
    InsertItems(s.time, i, e);
    HeldByRing(t.arena, t.time, t.ring);
    SumAppend(s.ring, e);
  }

  // ---------------------------------------------------------------- accepting

  lemma FirstInv(c: Outcome, f: Frame)
    requires Inv(c.s) && c.s.time == [] && 0 < |f.bytes| < |c.s.arena| / 2
    ensures var o := PutFirst(c, f);
            && Inv(o.s)
            && Items(o.s.time) == [Item(c.s.nextId, f)]
  {
    var o := PutFirst(c, f);
    var e := Entry(0, Item(c.s.nextId, f));
    BlitKeeps(c.s.arena, [], e);
    assert c.s.ring == [] && [] + [e] == [e];
    assert LaidAt(o.s.ring, o.s.position, |o.s.arena|, 0);
  }

  lemma InsertOrder(time: seq<Entry>, i: nat, e: Entry)
    requires InOrder(time) && i <= |time|
    requires forall j :: 0 <= j < i ==> Earlier(time[j].item, e.item)
    requires forall j :: i <= j < |time| ==> Earlier(e.item, time[j].item)
    ensures InOrder(time[..i] + [e] + time[i..])
  {
    var r := time[..i] + [e] + time[i..];
    forall a, b | 0 <= a < b < |r| ensures Earlier(r[a].item, r[b].item) {
      assert r[a] == if a < i then time[a] else if a == i then e else time[a - 1];
      assert r[b] == if b < i then time[b] else if b == i then e else time[b - 1];
    }
  }

  /** A late frame goes behind every held frame with the same timestamp, in front of
      every later one. */
  lemma LateOrder(s: Sorter, e: Entry, t: Sorter) returns (i: nat)
    requires Order(s) && s.time != []
    requires e.item.id == s.nextId && s.preMinTs <= e.Ts() < s.maxTs
    requires t.time == if e.Ts() < s.minTs then [e] + s.time
                       else var i := FirstLater(s.time, e.Ts()); s.time[..i] + [e] + s.time[i..]
    requires t.nextId == s.nextId + 1 && t.preMinTs == s.preMinTs && t.maxTs == s.maxTs
    requires t.minTs == if e.Ts() < s.minTs then e.Ts() else s.minTs
    ensures i <= |s.time| && t.time == s.time[..i] + [e] + s.time[i..]
    ensures Order(t)
  {
    i := if e.Ts() < s.minTs then 0 else FirstLater(s.time, e.Ts());
    hide InOrder, FirstLater;
    assert i == 0 ==> s.time[..0] + [e] + s.time[0..] == [e] + s.time;
    LaterBehind(s.time, i, e);
    InsertOrder(s.time, i, e);
    InsertedEnds(s, e, i, t);
  }

  lemma LaterBehind(time: seq<Entry>, i: nat, e: Entry)
    requires InOrder(time) && i < |time| && e.Ts() < time[i].Ts()
    ensures forall j :: i <= j < |time| ==> Earlier(e.item, time[j].item)
  {
    forall j | i <= j < |time| ensures Earlier(e.item, time[j].item) {
      assert j == i || Earlier(time[i].item, time[j].item);
    }
  }

  /** The counters that go with an insertion in front of the last element. */
  lemma InsertedEnds(s: Sorter, e: Entry, i: nat, t: Sorter)
    requires Order(s) && i < |s.time| && (i == 0 <==> e.Ts() < s.minTs)
    requires e.item.id == s.nextId && s.preMinTs <= e.Ts()
    requires InOrder(t.time) && t.time == s.time[..i] + [e] + s.time[i..]
    requires t.nextId == s.nextId + 1 && t.preMinTs == s.preMinTs && t.maxTs == s.maxTs
    requires t.minTs == if e.Ts() < s.minTs then e.Ts() else s.minTs
    ensures Order(t)
  {
    hide InOrder;
    forall j | 0 <= j < |t.time| ensures t.time[j].item.id < t.nextId && t.preMinTs <= t.time[j].Ts() {
      assert t.time[j] == if j < i then s.time[j] else if j == i then e else s.time[j - 1];
    }
  }

  /** Every item is held, passed to the callback or thrown away, and none is made up. */
  predicate Balance(c: Outcome, o: Outcome, f: Frame) {
    multiset(Items(o.s.time)) + multiset(o.lost) + multiset(o.outs)
    == multiset(Items(c.s.time)) + multiset(c.lost) + multiset(c.outs)
       + if o.accepted then multiset{Item(c.s.nextId, f)} else multiset{}
  }

  lemma RefuseBalance(c: Outcome, f: Frame, s: Sorter, lost: seq<Item>, reset: bool)
    requires c.outs == [] && Items(s.time) + lost == Items(c.s.time) + c.lost
    ensures Balance(c, Refuse(s, lost, reset), f)
  {
    var a, b, x, y := Items(s.time), lost, Items(c.s.time), c.lost;
    assert multiset(a) + multiset(b) == multiset(a + b);
    assert multiset(x) + multiset(y) == multiset(x + y);
  }

  /** Throwing everything away. */
  lemma CleanBalance(c: Outcome, f: Frame, s: Sorter)
    requires c.outs == [] && s.time == []
    ensures Balance(c, Refuse(s, c.lost + Items(c.s.time), true), f)
  {
    var x, y := Items(c.s.time), c.lost;
    assert multiset(y + x) == multiset(y) + multiset(x);
    assert Items(s.time) == [];
  }

  lemma LateRefused(c: Outcome, f: Frame, now: nat)
    requires Inv(c.s) && c.outs == []
    requires Wrap32(c.s.maxTs - f.ts) > c.s.maxSortTime || c.s.preMinTs > f.ts
    ensures var o := PutLate(c, f, now);
            Inv(o.s) && Balance(c, o, f) && !o.accepted && o.outs == [] && o.s.nextId == c.s.nextId
  {
    assert MIN_SORT_BUFF_LEN <= |c.s.arena|;
    hide Inv, Balance;
    var s, o := c.s, PutLate(c, f, now);
    if Wrap32(s.maxTs - f.ts) > s.maxSortTime && s.lateDrop + 1 > 60 {
      CleanInv(s.(lateDrop := s.lateDrop + 1), now);
      CleanBalance(c, f, o.s);
    } else {
      SameButDelayInv(s, o.s);
      RefuseBalance(c, f, o.s, o.lost, o.reset);
    }
  }

  lemma LateAccepted(c: Outcome, f: Frame, now: nat)
    requires Inv(c.s) && c.outs == []
    requires c.s.time != [] && f.ts < c.s.maxTs && 0 < |f.bytes| < |c.s.arena| / 2 && Room(c.s, |f.bytes|)
    requires !(Wrap32(c.s.maxTs - f.ts) > c.s.maxSortTime || c.s.preMinTs > f.ts)
    ensures var o := PutLate(c, f, now);
            && Inv(o.s) && Balance(c, o, f) && o.accepted && o.outs == [] && o.s.nextId == c.s.nextId + 1
  {
    var s, o := c.s, PutLate(c, f, now);
    var e := Entry(WritePos(s, |f.bytes|), Item(s.nextId, f));
    hide Layout, Start, InStep, PutLate, Store, WritePos, FirstLater, InOrder, Balance, Items;
    LatePlaced(c, f, now, e);
    var i := LateOrder(s, e, o.s);
    AcceptInv(s, e, i, o.s);
    AcceptBalance(c, o, f);
  }

  lemma AcceptBalance(c: Outcome, o: Outcome, f: Frame)
    requires o.accepted && o.lost == c.lost && o.outs == c.outs
    requires multiset(Items(o.s.time)) == multiset(Items(c.s.time)) + multiset{Item(c.s.nextId, f)}
    ensures Balance(c, o, f)
  {
    hide Items;
  }

  /** An accepted late frame, field by field. */
  lemma LatePlaced(c: Outcome, f: Frame, now: nat, e: Entry)
    requires e == Entry(WritePos(c.s, |f.bytes|), Item(c.s.nextId, f))
    requires !(Wrap32(c.s.maxTs - f.ts) > c.s.maxSortTime || c.s.preMinTs > f.ts)
    ensures var s, o := c.s, PutLate(c, f, now);
            && o == c.(s := o.s, accepted := true, code := 0)
            && o.s.arena == Store(s, f.bytes).arena && o.s.position == Store(s, f.bytes).position
            && o.s.ring == s.ring + [e] && o.s.put == s.put + 1 && o.s.pop == s.pop
            && o.s.validLen == s.validLen + e.Len() && o.s.nextId == s.nextId + 1
            && o.s.preMinTs == s.preMinTs && o.s.maxTs == s.maxTs
            && o.s.minTs == (if e.Ts() < s.minTs then e.Ts() else s.minTs)
            && o.s.time == (if e.Ts() < s.minTs then [e] + s.time
                            else var i := FirstLater(s.time, e.Ts()); s.time[..i] + [e] + s.time[i..])
  {
    hide Store, WritePos, FirstLater, Lengthen, Wrap32;
  }

  // ---------------------------------------------------------------- on-time frames

  lemma OnTimeOrder(s: Sorter, e: Entry)
    requires Order(s) && s.time != [] && e.item.id == s.nextId && s.maxTs <= e.Ts()
    ensures Order(Append(s, e))
  {
    var t := Append(s, e);
    forall i | 0 <= i < |s.time| ensures s.time[i].Ts() <= s.maxTs {
      assert i == |s.time| - 1 || Earlier(s.time[i].item, s.time[|s.time| - 1].item);
    }
    assert s.time[..|s.time|] == s.time && s.time[|s.time|..] == [];
    InsertOrder(s.time, |s.time|, e);
    assert t.time == s.time + [e] + [];
  }

  lemma AppendInv(s: Sorter, e: Entry, s1: Sorter)
    requires Inv(s) && Room(s, e.Len()) && 0 < e.Len() < |s.arena| / 2 && e.pos == WritePos(s, e.Len())
    requires s.time != [] && e.item.id == s.nextId && s.maxTs <= e.Ts()
    requires s1 == Store(s, e.item.frame.bytes).(earlyDrop := s1.earlyDrop)
    ensures Inv(Append(s1, e))
    ensures multiset(Items(Append(s1, e).time)) == multiset(Items(s.time)) + multiset{e.item}
  {
    hide Layout, Start, InStep;
    OnTimeOrder(s1, e);
    assert s.time == s.time[..|s.time|] && s.time[|s.time|..] == [];
    AcceptInv(s, e, |s.time|, Append(s1, e));
  }

  /** The address-ring element found by its position is the one of the frame. */
  lemma FindsHead(s: Sorter)
    requires Layout(s) && InStep(s) && s.time != []
    ensures var i := IndexOfPos(s.ring, s.time[0].pos); i < |s.ring| && s.ring[i] == s.time[0]
  {
    var k :| LaidAt(s.ring, s.position, |s.arena|, k);
    LaidApart(s.ring, s.position, |s.arena|, k);
    assert s.time[0] in multiset(s.ring);
    var j :| 0 <= j < |s.ring| && s.ring[j] == s.time[0];
    var i := IndexOfPos(s.ring, s.time[0].pos);
    assert i <= j && s.ring[i].pos == s.ring[j].pos;
  }

  /** Taking the head of the time list, and its address-ring element, out. */
  function DropHead(s: Sorter): Sorter
    requires |s.time| >= 2
  {
    var i := IndexOfPos(s.ring, s.time[0].pos);
    if i == |s.ring| then s else Shift(s.(ring := Without(s.ring, i)))
  }

  lemma DropHeadLayout(s: Sorter)
    requires Layout(s) && InStep(s) && |s.time| >= 2
    ensures Layout(DropHead(s))
  {
    FindsHead(s);
    var i := IndexOfPos(s.ring, s.time[0].pos);
    var k :| LaidAt(s.ring, s.position, |s.arena|, k);
    var k' := LaidWithout(s.ring, s.position, |s.arena|, k, i);
  }

  lemma DropHeadInStep(s: Sorter, i: nat, t: Sorter)
    requires InStep(s) && |s.time| >= 2 && s.put > 2
    requires i < |s.ring| && s.ring[i] == s.time[0]
    requires t.ring == Without(s.ring, i) && t.time == s.time[1..] && t.validLen == s.validLen - s.time[0].Len()
    requires t.put == s.put && t.pop == s.pop + 1
    ensures InStep(t)
  {
    WithoutMultiset(s.ring, i);
    assert s.time == [s.time[0]] + t.time;
    assert multiset(s.time) == multiset(t.time) + multiset{s.time[0]};
    MultisetCancel(multiset(t.time), multiset(t.ring), s.time[0]);
    SumWithout(s.ring, i);
  }

  lemma HeadItem(time: seq<Entry>)
    requires time != []
    ensures multiset(Items(time)) == multiset(Items(time[1..])) + multiset{time[0].item}
  {
    assert Items(time) == [time[0].item] + Items(time[1..]);
  }

  lemma DropHeadOrder(s: Sorter, done: seq<Item>)
    requires Order(s) && |s.time| >= 2 && After(done, s)
    requires IndexOfPos(s.ring, s.time[0].pos) < |s.ring|
    ensures Order(DropHead(s)) && After(done + [s.time[0].item], DropHead(s))
  {
    var t, last := DropHead(s), s.time[0].item;
    forall i | 0 <= i < |t.time| ensures Earlier(last, t.time[i].item) {
      assert t.time[i] == s.time[i + 1];
    }
    var d := done + [last];
    forall i, j | 0 <= i < j < |d| ensures Earlier(d[i], d[j]) {
      if j == |done| {
        assert i == |done| - 1 || Earlier(done[i], done[|done| - 1]);
      }
    }
  }

  lemma DropHeadInv(s: Sorter, done: seq<Item>)
    requires Inv(s) && |s.time| >= 2 && s.put > 2 && After(done, s)
    ensures Inv(DropHead(s)) && After(done + [s.time[0].item], DropHead(s))
    ensures multiset(Items(s.time)) == multiset(Items(DropHead(s).time)) + multiset{s.time[0].item}
    ensures ReadOut(s.arena, s.time[0]) == s.time[0].item
    ensures DropHead(s).time == s.time[1..] && DropHead(s).nextId == s.nextId
  {
    hide InStep, Order, After;
    FindsHead(s);
    DropHeadLayout(s);
    DropHeadInStep(s, IndexOfPos(s.ring, s.time[0].pos), DropHead(s));
    DropHeadOrder(s, done);
    HeadItem(s.time);
  }

  /** One round of the pop loop: nothing happens, or the head is emitted with the bytes
      it was accepted with. */
  lemma PopOnceInv(s: Sorter, lim: nat, done: seq<Item>)
    requires Inv(s) && Deliverable(s, lim) && After(done, s)
    ensures var p := PopOnce(s, lim);
            && Inv(p.s) && p.code == 0 && After(done + p.outs, p.s)
            && p.s.nextId == s.nextId && |p.s.arena| == |s.arena|
            && multiset(Items(s.time)) == multiset(Items(p.s.time)) + multiset(p.outs)
            && Deliverable(p.s, lim)
  {
    assert |s.time| == s.put - s.pop;
    var p := PopOnce(s, lim);
    if s.put - s.pop <= 3 || !(Wrap32(s.maxTs - s.minTs) > s.sortTime) {
      assert done + p.outs == done;
    } else {
      FindsHead(s);
      hide Inv, After;
      DropHeadInv(s, done);
      assert p.s == DropHead(s) && p.outs == [s.time[0].item];
    }
  }

  lemma PopTwiceInv(s: Sorter, lim: nat, done: seq<Item>)
    requires Inv(s) && Deliverable(s, lim) && After(done, s)
    ensures var p := PopTwice(s, lim);
            && Inv(p.s) && p.code == 0 && After(done + p.outs, p.s)
            && p.s.nextId == s.nextId && |p.s.arena| == |s.arena|
            && multiset(Items(s.time)) == multiset(Items(p.s.time)) + multiset(p.outs)
            && Deliverable(p.s, lim)
  {
    hide Inv, Deliverable, After;
    PopOnceInv(s, lim, done);
    var a := PopOnce(s, lim);
    if !a.stop {
      PopOnceInv(a.s, lim, done + a.outs);
      assert (done + a.outs) + PopOnce(a.s, lim).outs == done + PopTwice(s, lim).outs;
    }
  }

  // ---------------------------------------------------------------- PutFrameStreamSort

  /** Emitting the head while appending is appending and then dropping the head. */
  lemma ReuseIsAppendThenDrop(s: Sorter, e: Entry)
    requires |s.time| >= 2 && IndexOfPos(s.ring, s.time[0].pos) < |s.ring|
    ensures IndexOfPos(s.ring + [e], s.time[0].pos) == IndexOfPos(s.ring, s.time[0].pos)
    ensures Append(Shift(s.(ring := Without(s.ring, IndexOfPos(s.ring, s.time[0].pos)))), e) == DropHead(Append(s, e))
  {
    var i := IndexOfPos(s.ring, s.time[0].pos);
    var j := IndexOfPos(s.ring + [e], s.time[0].pos);
    assert (s.ring + [e])[i].pos == s.time[0].pos;
    assert i == j;
    assert Without(s.ring + [e], i) == Without(s.ring, i) + [e];
    assert (s.time + [e])[1..] == s.time[1..] + [e];
  }

  lemma OnTimeRefused(c: Outcome, f: Frame, now: nat, lim: nat)
    requires Inv(c.s) && c.outs == []
    requires Expired(c.s, f)
    ensures var o := PutOnTime(c, f, now, lim);
            && Inv(o.s) && Balance(c, o, f) && !o.accepted && o.outs == [] && o.s.nextId == c.s.nextId
            && o.reset && o.s.time == [] && o.code == -1
  {
    assert MIN_SORT_BUFF_LEN <= |c.s.arena|;
    hide Inv, Balance;
    var s, o := c.s, PutOnTime(c, f, now, lim);
    CleanInv(s, now);
    SameButDelayInv(Clean(s, now), o.s);
    CleanBalance(c, f, o.s);
  }

  lemma AfterAppend(s: Sorter, e: Entry, done: seq<Item>)
    requires Order(s) && s.time != [] && e.item.id == s.nextId && s.maxTs <= e.Ts() && After(done, s)
    ensures After(done, Append(s, e))
  {
    if done != [] {
      assert Earlier(done[|done| - 1], s.time[|s.time| - 1].item);
    }
  }

  lemma MoveOne(a: multiset<Item>, d: multiset<Item>, p: multiset<Item>, out: Item, outs: seq<Item>)
    requires a == d + multiset{out} && d == p + multiset(outs)
    ensures a == p + multiset([out] + outs)
  {
    assert multiset([out] + outs) == multiset{out} + multiset(outs);
  }

  /** The head emitted by the put itself, then up to two more. */
  function Emit(a: Sorter, lim: nat): PopResult
    requires |a.time| >= 2
  {
    var p := PopTwice(DropHead(a), lim);
    p.(outs := [ReadOut(a.arena, a.time[0])] + p.outs)
  }

  lemma EmitInv(a: Sorter, lim: nat, done: seq<Item>)
    requires Inv(a) && |a.time| >= 2 && a.put > 2 && Deliverable(a, lim) && After(done, a)
    ensures var p := Emit(a, lim);
            && Inv(p.s) && p.code == 0 && After(done + p.outs, p.s)
            && p.s.nextId == a.nextId
            && multiset(Items(a.time)) == multiset(Items(p.s.time)) + multiset(p.outs)
            && Deliverable(p.s, lim)
  {
    hide Inv, After, DropHead, PopTwice, ReadOut;
    DropHeadInv(a, done);
    var d, out := DropHead(a), a.time[0].item;
    assert Deliverable(d, lim);
    hide Deliverable;
    PopTwiceInv(d, lim, done + [out]);
    var p := PopTwice(d, lim);
    assert done + ([out] + p.outs) == (done + [out]) + p.outs;
    MoveOne(multiset(Items(a.time)), multiset(Items(d.time)), multiset(Items(p.s.time)), out, p.outs);
  }

  /** The state after the frame has been linked at the end and before anything is emitted. */
  function Linked(s: Sorter, f: Frame): Sorter {
    var d := Wrap32(f.ts - s.maxTs);
    Append(Store(s, f.bytes).(earlyDrop := if d >= s.maxSortTime then s.earlyDrop + 1 else 0),
           Entry(WritePos(s, |f.bytes|), Item(s.nextId, f)))
  }

  lemma LinkedInv(s: Sorter, f: Frame, lim: nat, done: seq<Item>)
    requires Inv(s) && s.time != [] && f.ts >= s.maxTs && 0 < |f.bytes| < |s.arena| / 2 && Room(s, |f.bytes|)
    requires Deliverable(s, lim) && |f.bytes| < lim && After(done, s)
    ensures var a := Linked(s, f);
            && Inv(a) && After(done, a) && Deliverable(a, lim) && a.nextId == s.nextId + 1
            && multiset(Items(a.time)) == multiset(Items(s.time)) + multiset{Item(s.nextId, f)}
            && (|s.time| >= 2 ==> a.put > 2)
            && (|s.time| >= 2 ==> IndexOfPos(s.ring, s.time[0].pos) < |s.ring|)
  {
    FindsHead(s);
    assert s.put >= |s.time|;
    hide Layout, Start, InStep;
    var e := Entry(WritePos(s, |f.bytes|), Item(s.nextId, f));
    var s1 := Store(s, f.bytes).(earlyDrop := Linked(s, f).earlyDrop);
    AppendInv(s, e, s1);
    AfterAppend(s1, e, done);
  }

  predicate Expired(s: Sorter, f: Frame) {
    var d := Wrap32(f.ts - s.maxTs);
    d >= s.maxSortTime && (s.earlyDrop + 1 > 60 || d > 10000000)
  }

  lemma OnTimeAccepted(c: Outcome, f: Frame, now: nat, lim: nat, done: seq<Item>)
    requires Inv(c.s) && c.outs == [] && c.s.time != [] && f.ts >= c.s.maxTs
    requires 0 < |f.bytes| < |c.s.arena| / 2 && Room(c.s, |f.bytes|)
    requires Deliverable(c.s, lim) && |f.bytes| < lim && After(done, c.s)
    requires !Expired(c.s, f)
    ensures var o := PutOnTime(c, f, now, lim);
            && Inv(o.s) && Balance(c, o, f) && o.accepted && o.s.nextId == c.s.nextId + 1
            && o.reset == c.reset && o.code == 0
            && Deliverable(o.s, lim) && After(done + o.outs, o.s)
  {
    hide Inv, After, Room, Deliverable, PutOnTime, Linked, Emit, IndexOfPos, Items;
    var s, o, a := c.s, PutOnTime(c, f, now, lim), Linked(c.s, f);
    LinkedInv(s, f, lim, done);
    OnTimeIs(c, f, now, lim);
    if Wrap32(f.ts - s.minTs) > s.sortTime && |s.time| >= 2 {
      LinkedLonger(s, f);
      EmitInv(a, lim, done);
    } else {
      assert done + o.outs == done;
    }
  }

  lemma LinkedLonger(s: Sorter, f: Frame)
    ensures |Linked(s, f).time| == |s.time| + 1
  {
  }

  /** An on-time frame that is kept is linked first and the head emitted afterwards, even
      though the code takes the head out before it links the frame. */
  lemma OnTimeIs(c: Outcome, f: Frame, now: nat, lim: nat)
    requires c.s.time != [] && c.outs == [] && !Expired(c.s, f)
    requires |c.s.time| >= 2 ==> IndexOfPos(c.s.ring, c.s.time[0].pos) < |c.s.ring|
    ensures |Linked(c.s, f).time| == |c.s.time| + 1
    ensures var s, a := c.s, Linked(c.s, f);
            PutOnTime(c, f, now, lim)
            == if Wrap32(f.ts - s.minTs) > s.sortTime && |s.time| >= 2
               then c.(s := Emit(a, lim).s, outs := Emit(a, lim).outs, accepted := true, code := Emit(a, lim).code)
               else c.(s := a, accepted := true, code := 0)
  {
    hide PopTwice, Store, Shift, WritePos, ReadOut, IndexOfPos, Items, Wrap32;
    var s, a := c.s, Linked(c.s, f);
    if Wrap32(f.ts - s.minTs) > s.sortTime && |s.time| >= 2 {
      var s1 := Store(s, f.bytes).(earlyDrop := a.earlyDrop);
      assert s1.ring == s.ring && s1.time == s.time && s1.arena == a.arena;
      ReuseIsAppendThenDrop(s1, Entry(WritePos(s, |f.bytes|), Item(s.nextId, f)));
    }
  }

  /** What a call keeps: `done` are the items emitted since the last reset. */
  ghost predicate Sound(s: Sorter, lim: nat, done: seq<Item>) {
    Inv(s) && Deliverable(s, lim) && After(done, s)
  }

  /** What a call does, between the outcome `c` so far and the outcome `o`. */
  ghost predicate Kept(c: Outcome, o: Outcome, f: Frame, lim: nat, done: seq<Item>) {
    && Sound(o.s, lim, (if o.reset && !c.reset then [] else done) + o.outs)
    && Balance(c, o, f)
    && o.s.nextId == c.s.nextId + (if o.accepted then 1 else 0)
    && (c.reset ==> o.reset)
    && o.code == (if o.accepted then 0 else -1)
  }

  lemma FirstKept(c: Outcome, f: Frame, lim: nat)
    requires Inv(c.s) && c.s.time == [] && c.outs == [] && 0 < |f.bytes| < |c.s.arena| / 2 && |f.bytes| < lim
    ensures Kept(c, PutFirst(c, f), f, lim, [])
  {
    var o := PutFirst(c, f);
    FirstInv(c, f);
    assert [] + o.outs == [] && Items(c.s.time) == [];
    hide Inv;
  }

  lemma SameButDelayAfter(s: Sorter, t: Sorter, lim: nat, done: seq<Item>)
    requires SameButDelay(s, t) && Deliverable(s, lim) && After(done, s)
    ensures Deliverable(t, lim) && After(done, t)
  {
  }

  lemma RefusedLateShape(c: Outcome, f: Frame, now: nat)
    requires Wrap32(c.s.maxTs - f.ts) > c.s.maxSortTime || c.s.preMinTs > f.ts
    ensures var o := PutLate(c, f, now);
            && o.code == -1 && (c.reset ==> o.reset)
            && ((o.reset && o.s.time == []) || (o.reset == c.reset && SameButDelay(c.s, o.s)))
  {
  }

  lemma RefusedLateKept(c: Outcome, f: Frame, now: nat, lim: nat, done: seq<Item>)
    requires Sound(c.s, lim, done) && c.outs == [] && c.s.time != []
    requires Wrap32(c.s.maxTs - f.ts) > c.s.maxSortTime || c.s.preMinTs > f.ts
    requires c.reset ==> done == []
    ensures Kept(c, PutLate(c, f, now), f, lim, done)
  {
    hide Inv, Balance, PutLate, Deliverable, After;
    LateRefused(c, f, now);
    RefusedLateShape(c, f, now);
    var o := PutLate(c, f, now);
    assert [] + o.outs == [] && done + o.outs == done;
    if o.reset && o.s.time == [] {
      Emptied(o.s, lim);
    } else {
      SameButDelayAfter(c.s, o.s, lim, done);
    }
  }

  lemma Emptied(s: Sorter, lim: nat)
    requires s.time == []
    ensures Deliverable(s, lim) && After([], s)
  {
  }

  lemma AfterLate(s: Sorter, e: Entry, i: nat, t: Sorter, lim: nat, done: seq<Item>)
    requires Deliverable(s, lim) && e.Len() < lim && After(done, s)
    requires e.item.id == s.nextId && s.preMinTs <= e.Ts() && i <= |s.time|
    requires t.time == s.time[..i] + [e] + s.time[i..] && t.nextId == s.nextId + 1 && t.preMinTs == s.preMinTs
    ensures Deliverable(t, lim) && After(done, t)
  {
    forall j | 0 <= j < |t.time| ensures t.time[j] == e || t.time[j] in s.time {
    }
  }

  lemma AcceptedLateKept(c: Outcome, f: Frame, now: nat, lim: nat, done: seq<Item>)
    requires Sound(c.s, lim, done) && c.outs == []
    requires c.s.time != [] && f.ts < c.s.maxTs && 0 < |f.bytes| < |c.s.arena| / 2 && Room(c.s, |f.bytes|)
    requires |f.bytes| < lim
    requires !(Wrap32(c.s.maxTs - f.ts) > c.s.maxSortTime || c.s.preMinTs > f.ts)
    requires c.reset ==> done == []
    ensures Kept(c, PutLate(c, f, now), f, lim, done)
  {
    hide Layout, Start, InStep, Balance, After, Deliverable, Room;
    LateAccepted(c, f, now);
    var s, o := c.s, PutLate(c, f, now);
    var e := Entry(WritePos(s, |f.bytes|), Item(s.nextId, f));
    var i := LateOrder(s, e, o.s);
    hide Order;
    AfterLate(s, e, i, o.s, lim, done);
    assert done + o.outs == done;
  }

  lemma OnTimeKept(c: Outcome, f: Frame, now: nat, lim: nat, done: seq<Item>)
    requires Sound(c.s, lim, done) && c.outs == [] && c.s.time != [] && f.ts >= c.s.maxTs
    requires 0 < |f.bytes| < |c.s.arena| / 2 && Room(c.s, |f.bytes|) && |f.bytes| < lim
    requires c.reset ==> done == []
    ensures Kept(c, PutOnTime(c, f, now, lim), f, lim, done)
  {
    hide Inv, Balance, Room;
    var o := PutOnTime(c, f, now, lim);
    if Expired(c.s, f) {
      OnTimeRefused(c, f, now, lim);
      assert [] + o.outs == [] && done + o.outs == done;
    } else {
      OnTimeAccepted(c, f, now, lim, done);
    }
  }

  lemma CheckAfter(s: Sorter, len: nat, now: nat, lim: nat, done: seq<Item>)
    requires InStep(s) && Deliverable(s, lim) && After(done, s)
    ensures var c := Check(s, len, now);
            && Deliverable(c.s, lim) && After(if c.reset then [] else done, c.s)
            && (c.s.time == [] && !c.reset ==> done == [])
            && c.outs == [] && !c.accepted
  {
    hide InStep;
    CheckItems(s, len, now);
    var c := Check(s, len, now);
    if c.s.time != [] {
      forall i | 0 <= i < |c.s.time| ensures c.s.time[i].Len() < lim {
        assert Items(c.s.time)[i] == Items(s.time)[i];
      }
    }
  }

  /** PutFrameStreamSort keeps the invariant, whatever the timestamp, the clock and the
      lengths, once the third frame after a create or a clean fits by itself: the arena
      stays laid out, every held frame keeps its bytes, the two lists stay in step, every
      accepted item is held, emitted or thrown away, and what is emitted since the last
      reset is in order of time and arrival. */
  lemma PutKept(s: Sorter, f: Frame, now: nat, lim: nat, done: seq<Item>)
    requires Sound(s, lim, done) && Proper(s, |f.bytes|, lim)
    ensures Kept(Outcome(s, [], [], false, false, 0), Put(s, f, now, lim), f, lim, done)
  {
    hide Inv, Room, Balance, Deliverable, After;
    var c0, o := Outcome(s, [], [], false, false, 0), Put(s, f, now, lim);
    if |f.bytes| >= |s.arena| / 2 {
      RefuseBalance(c0, f, s, [], false);
      assert done + o.outs == done;
    } else {
      assert InStep(s) by { InvParts(s); }
      hide InStep;
      CheckMakesRoom(s, |f.bytes|, now);
      CheckItems(s, |f.bytes|, now);
      CheckAfter(s, |f.bytes|, now, lim, done);
      var c := Check(s, |f.bytes|, now);
      var d := if c.reset then [] else done;
      if c.s.time == [] {
        FirstKept(c, f, lim);
      } else if f.ts >= c.s.maxTs {
        OnTimeKept(c, f, now, lim, d);
      } else if Wrap32(c.s.maxTs - f.ts) > c.s.maxSortTime || c.s.preMinTs > f.ts {
        RefusedLateKept(c, f, now, lim, d);
      } else {
        AcceptedLateKept(c, f, now, lim, d);
      }
      ThroughCheck(c0, c, o, f);
    }
  }

  lemma InvParts(s: Sorter)
    requires Inv(s)
    ensures Layout(s) && Start(s) && InStep(s) && Order(s)
  {
  }

  lemma ThroughCheck(c0: Outcome, c: Outcome, o: Outcome, f: Frame)
    requires c0.outs == [] == c.outs && c0.lost == [] && c.s.nextId == c0.s.nextId
    requires Items(c.s.time) + c.lost == Items(c0.s.time)
    requires Balance(c, o, f)
    ensures Balance(c0, o, f)
  {
    assert multiset(Items(c.s.time)) + multiset(c.lost) == multiset(Items(c0.s.time));
  }
}
