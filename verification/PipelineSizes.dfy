/** The pipeline of ring-buffer.c in terms of the lengths of its packets. */
module PipelineSizes {
  import opened Media
  import opened Pipeline
  import S = SortSpec
  import SortInv
  import K = SortKeeps
  import SortRun
  import R = RingSpec
  import RingInv
  import RingRun

  const SORT_SIZE_DEF: nat := 4 * 1024 * 1024
  const RING_BUFFER_SIZE_DEF: nat := 10 * 1024 * 1024
  const RING_BUFFER_CAP_DEF: nat := 30

  // ---------------------------------------------------------------- short packets

  /** All packets have bytes, and at most `len` of them. */
  predicate ShortPackets(es: seq<Event>, len: nat) {
    forall i :: 0 <= i < |es| && es[i].WritePacket? ==> 0 < |Packed(es[i].packet).bytes| <= len
  }

  predicate Within(frames: seq<Frame>, len: nat) {
    forall i :: 0 <= i < |frames| ==> 0 < |frames[i].bytes| <= len
  }

  /** Three packets fit the arena, two the ring and as many as it has slots fit in less. */
  predicate SizesFit(p: Pipe, len: nat) {
    3 * len <= |p.w.s.arena| && len < Limit(p) && |p.sys.st.slots| * len < |p.sys.st.data|
  }

  ghost predicate Sized(p: Pipe, len: nat) {
    && PipeInv(p) && R.WellFormed(p.sys.st)
    && RingRun.ByteSystemInv(p.sys) && RingRun.LagOk(p.sys)
    && SortRun.SmallStart(p.w.s) && SizesFit(p, len) && Within(Frames(p.w.accepted), len)
  }

  lemma SizedParts(p: Pipe, len: nat)
    requires Sized(p, len)
    ensures PipeInv(p) && R.WellFormed(p.sys.st) && RingRun.ByteSystemInv(p.sys) && RingRun.LagOk(p.sys)
    ensures SortRun.SmallStart(p.w.s) && SizesFit(p, len) && Within(Frames(p.w.accepted), len)
    ensures RingRun.SystemInv(p.sys) && p.sys.hist == Frames(p.w.emitted)
  {
  }

  lemma {:induction false} SpanWithin(hist: seq<Frame>, a: nat, b: nat, len: nat)
    requires Within(hist, len) && a <= b <= |hist|
    ensures RingInv.Span(hist, a, b) <= (b - a) * len
    decreases b
  {
    if a < b {
      SpanWithin(hist, a, b - 1, len);
      assert (b - a) * len == (b - 1 - a) * len + len;
    }
  }

  lemma RoomyWithin(hist: seq<Frame>, len: nat, m: nat, size: nat)
    requires Within(hist, len) && m * len < size
    ensures RingInv.Roomy(hist, m, size)
  {
    forall a, b | 0 <= a <= b <= |hist| && b - a <= m ensures RingInv.Span(hist, a, b) < size {
      SpanWithin(hist, a, b, len);
      AtMost(b - a, m, len);
    }
  }

  lemma AtMost(n: nat, m: nat, len: nat)
    requires n <= m
    ensures n * len <= m * len
  {
  }

  /** Every frame that is handed on was accepted, so it is as short. */
  lemma EmittedWithin(w: SortRun.World, lim: nat, len: nat)
    requires SortRun.WorldInv(w, lim) && Within(Frames(w.accepted), len)
    ensures Within(Frames(w.emitted), len)
  {
    SortRun.EmittedExactly(w, lim);
    hide SortRun.WorldInv;
    forall i | 0 <= i < |w.emitted| ensures 0 < |Frames(w.emitted)[i].bytes| <= len {
      assert Frames(w.accepted)[w.emitted[i].id] == w.emitted[i].frame;
    }
  }

  lemma ShortProper(s: S.Sorter, n: nat, lim: nat)
    requires SortRun.SmallStart(s) && 0 < n < lim && 3 * n <= |s.arena|
    ensures K.Proper(s, n, lim) && K.ThirdFits(s, n)
  {
  }

  lemma ArenaGrows(s: S.Sorter, f: Frame, now: nat, lim: nat)
    requires SortRun.SmallStart(s)
    ensures |s.arena| <= |S.Put(s, f, now, lim).s.arena|
  {
    hide S.Check, S.PutFirst, S.PutLate, S.PutOnTime;
    SortRun.CheckCounts(s, |f.bytes|, now);
    SameArena(S.Check(s, |f.bytes|, now), f, now, lim);
  }

  lemma SameArena(c: S.Outcome, f: Frame, now: nat, lim: nat)
    ensures |S.PutFirst(c, f).s.arena| == |c.s.arena|
    ensures |S.PutLate(c, f, now).s.arena| == |c.s.arena|
    ensures c.s.time != [] ==> |S.PutOnTime(c, f, now, lim).s.arena| == |c.s.arena|
  {
    hide S.IndexOfPos, S.PopTwice, S.ReadOut, S.Items, S.FirstLater;
  }

  /** What the sorter's side of a short packet keeps. */
  lemma SortSized(p: Pipe, e: Event, len: nat)
    requires Sized(p, len) && e.WritePacket? && 0 < |Packed(e.packet).bytes| <= len
    ensures K.Proper(p.w.s, |Packed(e.packet).bytes|, Limit(p))
    ensures var w := SortRun.Step(p.w, SortRun.Input(Packed(e.packet), e.now), Limit(p));
            && SortRun.WorldInv(w, Limit(p)) && SortRun.SmallStart(w.s) && |p.w.s.arena| <= |w.s.arena|
            && Within(Frames(w.accepted), len) && w.emitted == p.w.emitted + Outs(p, e)
  {
    hide Sized, PipeInv, SortRun.WorldInv, RingRun.ByteSystemInv, RingRun.LagOk, RingRun.SystemInv, SortInv.Inv;
    hide K.Sound, K.Proper, K.ThirdFits, S.Put, R.WellFormed, SortRun.SmallStart, R.TooBig, SortRun.Behind;
    var f := Packed(e.packet);
    SizedParts(p, len);
    PipeSorter(p);
    PipeParts(p);
    ShortProper(p.w.s, |f.bytes|, Limit(p));
    SortRun.StepKept(p.w, SortRun.Input(f, e.now), Limit(p));
    SortRun.SmallStep(p.w.s, f, e.now, Limit(p));
    ArenaGrows(p.w.s, f, e.now, Limit(p));
  }

  lemma PipeSorter(p: Pipe)
    requires PipeInv(p)
    ensures SortInv.Inv(p.w.s)
  {
  }

  /** What the ring's side of a short packet keeps. */
  lemma RingSized(p: Pipe, e: Event, len: nat)
    requires Sized(p, len) && e.WritePacket? && 0 < |Packed(e.packet).bytes| <= len
    ensures RingRun.InRange(p.sys, Writes(Outs(p, e)))
    ensures RingRun.ByteSystemInv(Step(p, e).sys) && RingRun.LagOk(Step(p, e).sys)
  {
    var f, w := Packed(e.packet), SortRun.Step(p.w, SortRun.Input(Packed(e.packet), e.now), Limit(p));
    SortSized(p, e, len);
    PipeParts(p);
    StepRing(p, e);
    hide PipeInv, SortRun.WorldInv, RingRun.ByteSystemInv, RingRun.LagOk, RingRun.SystemInv, K.Sound, K.Proper;
    hide S.Put, R.WellFormed, SortRun.SmallStart, Within, Frames, Writes, RingInv.Roomy, RingRun.InRange, SortRun.Step;
    EmittedWithin(w, Limit(p), len);
    OutsShort(p.w.s, f, e.now, Limit(p), p.w.done);
    FeedHistory(p.sys, Outs(p, e));
    FramesConcat(p.w.emitted, Outs(p, e));
    RoomyWithin(Frames(w.emitted), len, |p.sys.st.slots|, |p.sys.st.data|);
    RingRun.RunInRange(p.sys, Writes(Outs(p, e)));
    RingRun.RunBytes(p.sys, Writes(Outs(p, e)));
    RingRun.RunLag(p.sys, Writes(Outs(p, e)));
  }

  lemma ReadSized(p: Pipe, ask: R.Ask, len: nat)
    requires Sized(p, len)
    ensures Sized(Step(p, ReadPacket(ask)), len)
  {
    hide PipeInv, SortRun.WorldInv, RingRun.SystemInv, RingRun.ByteSystemInv, RingRun.LagOk, RingInv.ByteInv;
    hide RingInv.Roomy, K.Sound, Within, R.WellFormed, SortRun.SmallStart, RingRun.Step;
    SizedParts(p, len);
    ReadKept(p, ask);
    PipeParts(p);
    EmittedWithin(p.w, Limit(p), len);
    RoomyWithin(p.sys.hist, len, |p.sys.st.slots|, |p.sys.st.data|);
    RingRun.StepHistory(p.sys, RingRun.Read(ask));
    RingRun.ByteStep(p.sys, RingRun.Read(ask));
    RingRun.LagStep(p.sys, RingRun.Read(ask));
  }

  lemma WriteSized(p: Pipe, e: Event, len: nat)
    requires Sized(p, len) && e.WritePacket? && 0 < |Packed(e.packet).bytes| <= len
    ensures K.Proper(p.w.s, |Packed(e.packet).bytes|, Limit(p)) && RingRun.InRange(p.sys, Writes(Outs(p, e)))
    ensures Sized(Step(p, e), len)
  {
    SortSized(p, e, len);
    RingSized(p, e, len);
    StepRing(p, e);
    WriteKept(p, e);
    hide PipeInv, SortRun.WorldInv, RingRun.ByteSystemInv, RingRun.LagOk, K.Proper, S.Put;
    hide R.WellFormed, SortRun.SmallStart, Within, Frames, Writes, RingRun.InRange, RingRun.Run;
  }

  /** Short packets need no other condition: over every run each one fits the sorter, each
      write stays inside the slot array, and every reader that lags by less than
      `uiMaxValidFrames` finds its frame intact. */
  lemma {:induction false} ShortIsSafe(p: Pipe, es: seq<Event>, len: nat)
    requires Sized(p, len) && ShortPackets(es, len)
    ensures R.WellFormed(p.sys.st) && Safe(p, es) && Sized(Run(p, es), len)
    decreases |es|
  {
    hide Sized, PipeInv, Step, R.WellFormed, SafeAt, RingRun.ByteSystemInv, RingRun.LagOk, RingRun.SystemInv;
    hide SortRun.SmallStart, SizesFit, Within, Packed;
    SizedParts(p, len);
    if es != [] {
      StepSized(p, es[0], len);
      ShortIsSafe(Step(p, es[0]), es[1..], len);
    }
  }

  lemma StepSized(p: Pipe, e: Event, len: nat)
    requires Sized(p, len) && (e.WritePacket? ==> 0 < |Packed(e.packet).bytes| <= len)
    ensures R.WellFormed(p.sys.st) && SafeAt(p, e) && R.WellFormed(Step(p, e).sys.st) && Sized(Step(p, e), len)
  {
    SizedParts(p, len);
    hide Sized, PipeInv, Step, R.WellFormed, RingRun.ByteSystemInv, RingRun.LagOk, RingRun.SystemInv;
    if e.WritePacket? {
      WriteSized(p, e, len);
    } else {
      ReadSized(p, e.ask, len);
    }
    SizedParts(Step(p, e), len);
  }

  lemma FreshSized(sortSize: nat, sortTime: nat, maxSortTime: nat, now: nat, size: nat, frames: nat, len: nat)
    requires S.MIN_SORT_BUFF_LEN <= sortSize && 2 <= frames && 0 < size
    requires 3 * len <= sortSize && len < size / 2 && frames * len < size
    ensures Sized(Fresh(sortSize, sortTime, maxSortTime, now, size, frames), len)
  {
    FreshInv(sortSize, sortTime, maxSortTime, now, size, frames);
    RingRun.StartBytes(frames, size);
  }

  /** End to end over every run from creation with packets of 1 to `len` bytes: a frame
      read with a lag below `uiMaxValidFrames` is one accepted packet, byte for byte, and
      the timestamps read never go back as long as the sorter accepts no packet older than
      the last one it has emitted. */
  lemma ShortRuns(sortSize: nat, sortTime: nat, maxSortTime: nat, now: nat, size: nat, frames: nat, es: seq<Event>, len: nat)
    requires S.MIN_SORT_BUFF_LEN <= sortSize && 2 <= frames && 0 < size
    requires 3 * len <= sortSize && len < size / 2 && frames * len < size && ShortPackets(es, len)
    ensures var p := Fresh(sortSize, sortTime, maxSortTime, now, size, frames);
            && R.WellFormed(p.sys.st) && Safe(p, es)
            && var q := Run(p, es);
               && (InFront(p, es) ==> forall i, j :: 0 <= i < j < |q.sys.got| ==> q.sys.got[i].ts <= q.sys.got[j].ts)
               && |q.sys.got| == |q.sys.lag| == |q.sys.seen|
               && (forall i :: 0 <= i < |q.sys.got| && q.sys.lag[i] < frames ==> ReadOf(q, i))
  {
    var p := Fresh(sortSize, sortTime, maxSortTime, now, size, frames);
    FreshSized(sortSize, sortTime, maxSortTime, now, size, frames, len);
    assert |p.sys.st.slots| == frames;
    ShortIsSafe(p, es, len);
    RunSlots(p, es);
    var q := Run(p, es);
    assert PipeInv(q) && RingRun.ByteSystemInv(q.sys) && RingRun.LagOk(q.sys);
    hide Sized, Run, Safe, InFront, Fresh, PipeInv, RingRun.ByteSystemInv, R.WellFormed;
    GotSizes(q);
    if InFront(p, es) {
      ReadsInOrder(sortSize, sortTime, maxSortTime, now, size, frames, es);
    }
    forall i: nat | i < |q.sys.got| && q.sys.lag[i] < frames ensures ReadOf(q, i) {
      GotExact(q, i);
    }
  }

  /** What was read as number `i` is one accepted packet, byte for byte. */
  predicate ReadOf(p: Pipe, i: nat) {
    && i < |p.sys.seen| && i < |p.sys.got| && p.sys.seen[i] < |p.w.emitted|
    && var id := p.w.emitted[p.sys.seen[i]].id;
       id < |p.w.accepted| && p.sys.got[i] == p.w.accepted[id].frame
  }

  lemma {:induction false} RunSlots(p: Pipe, es: seq<Event>)
    requires R.WellFormed(p.sys.st)
    ensures |Run(p, es).sys.st.slots| == |p.sys.st.slots|
    decreases |es|
  {
    if es != [] {
      StepRing(p, es[0]);
      hide Step, R.WellFormed;
      RunSlots(Step(p, es[0]), es[1..]);
    }
  }

  /** With the default sizes (four mebibytes to sort in, ten in the ring, thirty slots)
      packets of 1 to 349525 bytes need no other condition. */
  lemma DefaultRuns(sortTime: nat, maxSortTime: nat, now: nat, es: seq<Event>)
    requires ShortPackets(es, 349525)
    ensures var p := Fresh(SORT_SIZE_DEF, sortTime, maxSortTime, now, RING_BUFFER_SIZE_DEF, RING_BUFFER_CAP_DEF);
            && R.WellFormed(p.sys.st) && Safe(p, es)
            && var q := Run(p, es);
               && (InFront(p, es) ==> forall i, j :: 0 <= i < j < |q.sys.got| ==> q.sys.got[i].ts <= q.sys.got[j].ts)
               && |q.sys.got| == |q.sys.lag| == |q.sys.seen|
               && (forall i :: 0 <= i < |q.sys.got| && q.sys.lag[i] < RING_BUFFER_CAP_DEF ==> ReadOf(q, i))
  {
    hide Run, Safe, InFront, Fresh, R.WellFormed, ReadOf, ShortPackets;
    ShortRuns(SORT_SIZE_DEF, sortTime, maxSortTime, now, RING_BUFFER_SIZE_DEF, RING_BUFFER_CAP_DEF, es, 349525);
  }

  // ---------------------------------------------------------------- what the ring refuses

  /** The arena sizes a sorter of the default size can have. */
  predicate DefaultSize(n: nat) {
    n == SORT_SIZE_DEF || n == SORT_SIZE_DEF * 3 / 2 || n == SORT_SIZE_DEF * 9 / 4
  }

  lemma CheckSize(s: S.Sorter, len: nat, now: nat)
    requires SortInv.Inv(s) && DefaultSize(|s.arena|)
    ensures DefaultSize(|S.Check(s, len, now).s.arena|)
  {
    hide SortInv.Inv, S.Decay, S.Regrow, S.Items;
    if s.put > 2 && s.ring != [] && S.TooLong(s, len) && |s.arena| <= S.MAX_SORT_BUFF_LEN {
      var s1 := if s.position + len > |s.arena| then S.Decay(s, now) else s;
      SortInv.SameButDelayInv(s, s1);
      SortInv.RegrowInv(s1, |s.arena| * 3 / 2, now);
    }
  }

  /** With the default sizes of sorter and ring, the sorter itself turns away every frame
      the ring would refuse, so the callback never refuses one. */
  lemma DefaultsNeverRefuse(s: S.Sorter, f: Frame, now: nat)
    requires SortInv.Inv(s) && DefaultSize(|s.arena|)
    ensures var o := S.Put(s, f, now, RING_BUFFER_SIZE_DEF / 2);
            DefaultSize(|o.s.arena|) && (o.accepted ==> |f.bytes| < RING_BUFFER_SIZE_DEF / 2)
  {
    CheckSize(s, |f.bytes|, now);
    var c := S.Check(s, |f.bytes|, now);
    hide SortInv.Inv, S.Check, S.PutFirst, S.PutLate, S.PutOnTime;
    SameArena(c, f, now, RING_BUFFER_SIZE_DEF / 2);
  }

  predicate StoreAt(p: Pipe, e: Event)
    requires R.WellFormed(p.sys.st)
  {
    e.WritePacket? ==>
      K.Storable(p.w.s, |Packed(e.packet).bytes|) && RingRun.InRange(p.sys, Writes(Outs(p, e)))
  }

  /** `Safe` without the condition that the ring takes every frame. */
  predicate SafeToStore(p: Pipe, es: seq<Event>)
    requires R.WellFormed(p.sys.st)
    decreases |es|
  {
    es != [] ==>
      && StoreAt(p, es[0])
      && R.WellFormed(Step(p, es[0]).sys.st)
      && SafeToStore(Step(p, es[0]), es[1..])
  }

  /** With the default sizes that condition follows from the others, over every run. */
  lemma {:induction false} DefaultsSafe(p: Pipe, es: seq<Event>)
    requires PipeInv(p) && R.WellFormed(p.sys.st) && SafeToStore(p, es)
    requires DefaultSize(|p.w.s.arena|) && |p.sys.st.data| == RING_BUFFER_SIZE_DEF
    ensures Safe(p, es)
    decreases |es|
  {
    if es != [] {
      hide PipeInv, Step, R.WellFormed, SafeAt, StoreAt, DefaultSize;
      StepDefault(p, es[0]);
      DefaultsSafe(Step(p, es[0]), es[1..]);
    }
  }

  lemma StepDefault(p: Pipe, e: Event)
    requires PipeInv(p) && R.WellFormed(p.sys.st) && StoreAt(p, e)
    requires DefaultSize(|p.w.s.arena|) && |p.sys.st.data| == RING_BUFFER_SIZE_DEF
    ensures SafeAt(p, e) && PipeInv(Step(p, e))
    ensures DefaultSize(|Step(p, e).w.s.arena|) && |Step(p, e).sys.st.data| == RING_BUFFER_SIZE_DEF
  {
    StepRing(p, e);
    StepKept(p, e);
    if e.WritePacket? {
      PipeSorter(p);
      DefaultsNeverRefuse(p.w.s, Packed(e.packet), e.now);
    }
  }
}
