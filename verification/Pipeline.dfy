/** ring-buffer.c: packets through the reorder buffer into the frame ring and out again. */
module Pipeline {
  import opened Media
  import S = SortSpec
  import SortInv
  import K = SortKeeps
  import SortRun
  import R = RingSpec
  import RingInv
  import RingRun

  const FRAME_IDR := 3

  datatype Packet = Video(keyframe: bool, data: seq<byte>, pts: nat, prio: int)
                  | Audio(data: seq<byte>, pts: nat, prio: int)

  /** What mgw_rb_write_packet makes of a packet. */
  function Packed(p: Packet): Frame {
    match p
    case Video(key, data, pts, prio) => Frame(data, pts, if key then FRAME_I else FRAME_P, prio)
    case Audio(data, pts, prio) => Frame(data, pts, FRAME_AAC, prio)
  }

  /** What mgw_rb_read_packet makes of a frame. */
  function Unpacked(f: Frame): Packet {
    if f.kind == FRAME_AAC then Audio(f.bytes, f.ts, f.priority)
    else Video(f.kind == FRAME_I || f.kind == FRAME_IDR, f.bytes, f.ts, f.priority)
  }

  /** The sorter and what happened to it, and the ring with one reader. */
  datatype Pipe = Pipe(w: SortRun.World, sys: RingRun.System)

  datatype Event = WritePacket(packet: Packet, now: nat) | ReadPacket(ask: R.Ask)

  /** The sorter's callback refuses a frame of half the ring or more. */
  function Limit(p: Pipe): nat {
    |p.sys.st.data| / 2
  }

  /** The limit is the ring's own. */
  lemma LimitIs(p: Pipe, f: Frame)
    requires R.WellFormed(p.sys.st)
    ensures R.Put(p.sys.st, f).1 == -2 <==> |f.bytes| >= Limit(p)
  {
  }

  function Frames(items: seq<S.Item>): (r: seq<Frame>)
    ensures |r| == |items| && forall i :: 0 <= i < |items| ==> r[i] == items[i].frame
  {
    seq(|items|, i requires 0 <= i < |items| => items[i].frame)
  }

  function Writes(items: seq<S.Item>): (r: seq<RingRun.Event>)
    ensures |r| == |items| && forall i :: 0 <= i < |items| ==> r[i] == RingRun.Write(items[i].frame)
  {
    seq(|items|, i requires 0 <= i < |items| => RingRun.Write(items[i].frame))
  }

  function Outs(p: Pipe, e: Event): seq<S.Item>
    requires e.WritePacket?
  {
    S.Put(p.w.s, Packed(e.packet), e.now, Limit(p)).outs
  }

  function Step(p: Pipe, e: Event): Pipe
    requires R.WellFormed(p.sys.st)
  {
    match e
    case WritePacket(packet, now) =>
      Pipe(SortRun.Step(p.w, SortRun.Input(Packed(packet), now), Limit(p)), RingRun.Run(p.sys, Writes(Outs(p, e))))
    case ReadPacket(ask) => p.(sys := RingRun.Step(p.sys, RingRun.Read(ask)))
  }

  function Run(p: Pipe, es: seq<Event>): Pipe
    requires R.WellFormed(p.sys.st)
    decreases |es|
  {
    if es == [] then p
    else
      RunShape(p.sys, if es[0].WritePacket? then Writes(Outs(p, es[0])) else []);
      Run(Step(p, es[0]), es[1..])
  }

  lemma {:induction false} RunShape(s: RingRun.System, es: seq<RingRun.Event>)
    requires R.WellFormed(s.st)
    ensures var t := RingRun.Run(s, es); R.WellFormed(t.st) && |t.st.slots| == |s.st.slots| && |t.st.data| == |s.st.data|
    decreases |es|
  {
    if es != [] {
      RingRun.StepHistory(s, es[0]);
      RunShape(RingRun.Step(s, es[0]), es[1..]);
    }
  }

  predicate SafeAt(p: Pipe, e: Event)
    requires R.WellFormed(p.sys.st)
  {
    e.WritePacket? ==>
      K.Proper(p.w.s, |Packed(e.packet).bytes|, Limit(p)) && RingRun.InRange(p.sys, Writes(Outs(p, e)))
  }

  /** What the callers see to: frames that the sorter does not turn away at once are not
      empty, are short enough for the ring and fit if they are third, and ring writes stay
      inside the slot array. */
  predicate Safe(p: Pipe, es: seq<Event>)
    requires R.WellFormed(p.sys.st)
    decreases |es|
  {
    es != [] ==>
      && SafeAt(p, es[0])
      && R.WellFormed(Step(p, es[0]).sys.st)
      && Safe(Step(p, es[0]), es[1..])
  }

  predicate InFrontAt(p: Pipe, e: Event) {
    e.WritePacket? && S.Put(p.w.s, Packed(e.packet), e.now, Limit(p)).accepted ==> !SortRun.Behind(p.w, Packed(e.packet))
  }

  /** Every packet the sorter accepts is at or after the last one it has emitted. */
  predicate InFront(p: Pipe, es: seq<Event>)
    requires R.WellFormed(p.sys.st)
    decreases |es|
  {
    es != [] ==>
      && InFrontAt(p, es[0])
      && R.WellFormed(Step(p, es[0]).sys.st)
      && InFront(Step(p, es[0]), es[1..])
  }

  predicate QuietAt(p: Pipe, e: Event) {
    e.WritePacket? ==> !S.Put(p.w.s, Packed(e.packet), e.now, Limit(p)).reset
  }

  /** No clean and no regrow of the sorter. */
  predicate Quiet(p: Pipe, es: seq<Event>)
    requires R.WellFormed(p.sys.st)
    decreases |es|
  {
    es != [] ==>
      && QuietAt(p, es[0])
      && R.WellFormed(Step(p, es[0]).sys.st)
      && Quiet(Step(p, es[0]), es[1..])
  }

  /** The ring holds exactly what the sorter emitted, in that order. */
  ghost predicate PipeInv(p: Pipe) {
    && SortRun.WorldInv(p.w, Limit(p))
    && RingRun.SystemInv(p.sys)
    && p.sys.hist == Frames(p.w.emitted)
  }

  /** What one put emits was held before or is the frame itself, so it is short enough. */
  lemma OutsShort(s: S.Sorter, f: Frame, now: nat, lim: nat, done: seq<S.Item>)
    requires K.Sound(s, lim, done) && K.Proper(s, |f.bytes|, lim)
    ensures forall x :: x in S.Put(s, f, now, lim).outs ==> |x.frame.bytes| < lim
  {
    K.PutKept(s, f, now, lim, done);
    var o := S.Put(s, f, now, lim);
    assert K.Deliverable(s, lim);
    hide S.Put, K.Sound, S.Items;
    var held, new_ := multiset(S.Items(s.time)), if o.accepted then multiset{S.Item(s.nextId, f)} else multiset{};
    assert multiset(S.Items(o.s.time)) + multiset(o.lost) + multiset(o.outs) == held + multiset([]) + multiset([]) + new_;
    forall x | x in o.outs ensures |x.frame.bytes| < lim {
      assert x in multiset(o.outs);
      assert x in held + multiset([]) + multiset([]) + new_;
      if x in held {
        assert x in S.Items(s.time);
      }
    }
  }

  lemma {:induction false} FeedHistory(s: RingRun.System, items: seq<S.Item>)
    requires R.WellFormed(s.st) && forall x :: x in items ==> |x.frame.bytes| < |s.st.data| / 2
    ensures RingRun.Run(s, Writes(items)).hist == s.hist + Frames(items)
    decreases |items|
  {
    hide RingRun.Step, RingRun.Run, R.WellFormed, Frames, Writes;
    FeedEnds(s, items);
    if items != [] {
      var e := RingRun.Write(items[0].frame);
      RingRun.StepHistory(s, e);
      StepAppends(s, items[0].frame);
      FeedHistory(RingRun.Step(s, e), items[1..]);
      RunCons(s, e, Writes(items[1..]));
    }
  }

  lemma FeedEnds(s: RingRun.System, items: seq<S.Item>)
    requires R.WellFormed(s.st)
    ensures items == [] ==> RingRun.Run(s, Writes(items)) == s && s.hist + Frames(items) == s.hist
    ensures items != [] ==> Writes(items) == [RingRun.Write(items[0].frame)] + Writes(items[1..])
    ensures items != [] ==> s.hist + Frames(items) == s.hist + [items[0].frame] + Frames(items[1..])
  {
  }

  lemma RunCons(s: RingRun.System, e: RingRun.Event, es: seq<RingRun.Event>)
    requires R.WellFormed(s.st)
    ensures R.WellFormed(RingRun.Step(s, e).st) && RingRun.Run(s, [e] + es) == RingRun.Run(RingRun.Step(s, e), es)
  {
    RingRun.StepHistory(s, e);
    assert ([e] + es)[1..] == es;
  }

  lemma StepAppends(s: RingRun.System, f: Frame)
    requires R.WellFormed(s.st) && |f.bytes| < |s.st.data| / 2
    ensures RingRun.Step(s, RingRun.Write(f)).hist == s.hist + [f]
  {
  }

  lemma FramesConcat(a: seq<S.Item>, b: seq<S.Item>)
    ensures Frames(a + b) == Frames(a) + Frames(b)
  {
  }

  lemma WriteKept(p: Pipe, e: Event)
    requires PipeInv(p) && e.WritePacket?
    requires K.Proper(p.w.s, |Packed(e.packet).bytes|, Limit(p))
    requires R.WellFormed(p.sys.st) && RingRun.InRange(p.sys, Writes(Outs(p, e)))
    ensures PipeInv(Step(p, e))
  {
    hide PipeInv, SortRun.WorldInv, RingRun.SystemInv, K.Sound, S.Put, K.Proper, RingRun.InRange, R.WellFormed, Frames, Writes;
    PipeParts(p);
    var f, q := Packed(e.packet), Step(p, e);
    SortRun.StepKept(p.w, SortRun.Input(f, e.now), Limit(p));
    RingRun.RunKept(p.sys, Writes(Outs(p, e)));
    RunShape(p.sys, Writes(Outs(p, e)));
    OutsShort(p.w.s, f, e.now, Limit(p), p.w.done);
    FeedHistory(p.sys, Outs(p, e));
    FramesConcat(p.w.emitted, Outs(p, e));
    PipeWhole(q);
  }

  lemma PipeWhole(p: Pipe)
    requires SortRun.WorldInv(p.w, Limit(p)) && RingRun.SystemInv(p.sys) && p.sys.hist == Frames(p.w.emitted)
    ensures PipeInv(p)
  {
  }

  lemma PipeParts(p: Pipe)
    requires PipeInv(p)
    ensures K.Sound(p.w.s, Limit(p), p.w.done)
    ensures SortRun.WorldInv(p.w, Limit(p)) && RingRun.SystemInv(p.sys) && p.sys.hist == Frames(p.w.emitted)
  {
  }

  lemma ReadKept(p: Pipe, ask: R.Ask)
    requires PipeInv(p) && R.WellFormed(p.sys.st)
    ensures PipeInv(Step(p, ReadPacket(ask)))
  {
    hide SortRun.WorldInv, RingRun.SystemInv;
    RingRun.ReadKept(p.sys, ask);
    RingRun.StepHistory(p.sys, RingRun.Read(ask));
    assert RingRun.Step(p.sys, RingRun.Read(ask)).hist == p.sys.hist;
  }

  lemma StepKept(p: Pipe, e: Event)
    requires PipeInv(p) && R.WellFormed(p.sys.st) && SafeAt(p, e)
    ensures PipeInv(Step(p, e))
  {
    if e.WritePacket? {
      WriteKept(p, e);
    } else {
      ReadKept(p, e.ask);
    }
  }

  lemma {:induction false} RunKept(p: Pipe, es: seq<Event>)
    requires PipeInv(p) && R.WellFormed(p.sys.st) && Safe(p, es)
    ensures PipeInv(Run(p, es))
    decreases |es|
  {
    if es != [] {
      hide PipeInv, Step, SafeAt, R.WellFormed;
      StepKept(p, es[0]);
      RunKept(Step(p, es[0]), es[1..]);
    }
  }

  lemma {:induction false} InFrontRun(p: Pipe, es: seq<Event>)
    requires R.WellFormed(p.sys.st) && InFront(p, es)
    ensures Run(p, es).w.late == p.w.late
    decreases |es|
  {
    if es != [] {
      InFrontRun(Step(p, es[0]), es[1..]);
    }
  }

  lemma {:induction false} RunOrder(p: Pipe, es: seq<Event>)
    requires PipeInv(p) && R.WellFormed(p.sys.st) && Safe(p, es) && SortRun.OrderInv(p.w)
    ensures SortRun.OrderInv(Run(p, es).w)
    decreases |es|
  {
    if es != [] {
      hide PipeInv, Step, SafeAt, R.WellFormed, SortRun.OrderInv;
      StepKept(p, es[0]);
      StepOrder(p, es[0]);
      RunOrder(Step(p, es[0]), es[1..]);
    }
  }

  lemma StepOrder(p: Pipe, e: Event)
    requires PipeInv(p) && R.WellFormed(p.sys.st) && SafeAt(p, e) && SortRun.OrderInv(p.w)
    ensures SortRun.OrderInv(Step(p, e).w)
  {
    if e.WritePacket? {
      assert SortRun.WorldInv(p.w, Limit(p));
      SortRun.OrderStep(p.w, SortRun.Input(Packed(e.packet), e.now), Limit(p));
    }
  }

  lemma QuietStep(p: Pipe, e: Event)
    requires PipeInv(p) && R.WellFormed(p.sys.st) && p.w.done == p.w.emitted && SafeAt(p, e) && QuietAt(p, e)
    ensures PipeInv(Step(p, e)) && Step(p, e).w.done == Step(p, e).w.emitted && InFrontAt(p, e)
  {
    if e.WritePacket? {
      WriteKept(p, e);
      assert Step(p, e).w.done == Step(p, e).w.emitted;
      hide PipeInv, SortRun.WorldInv, RingRun.SystemInv, Step, S.Put, K.Sound, K.Proper, RingRun.InRange;
      PipeParts(p);
      if S.Put(p.w.s, Packed(e.packet), e.now, Limit(p)).accepted {
        WriteInFront(p, e);
      }
    } else {
      ReadKept(p, e.ask);
    }
  }

  /** Until the first clean or regrow the sorter itself sees to the order. */
  lemma {:induction false} QuietInFront(p: Pipe, es: seq<Event>)
    requires PipeInv(p) && R.WellFormed(p.sys.st) && p.w.done == p.w.emitted && Safe(p, es) && Quiet(p, es)
    ensures InFront(p, es)
    decreases |es|
  {
    if es != [] {
      hide PipeInv, Step, SafeAt, QuietAt, InFrontAt, R.WellFormed;
      QuietStep(p, es[0]);
      QuietInFront(Step(p, es[0]), es[1..]);
    }
  }

  lemma WriteInFront(p: Pipe, e: Event)
    requires e.WritePacket? && K.Sound(p.w.s, Limit(p), p.w.done) && p.w.done == p.w.emitted
    requires K.Proper(p.w.s, |Packed(e.packet).bytes|, Limit(p))
    requires var o := S.Put(p.w.s, Packed(e.packet), e.now, Limit(p)); o.accepted && !o.reset
    ensures !SortRun.Behind(p.w, Packed(e.packet))
  {
    hide SortInv.Inv, S.Put, K.Proper;
    if p.w.emitted != [] {
      SortRun.AcceptedInFront(p.w.s, Packed(e.packet), e.now, Limit(p));
    }
  }

  function Fresh(sortSize: nat, sortTime: nat, maxSortTime: nat, now: nat, size: nat, frames: nat): Pipe {
    Pipe(SortRun.Fresh(S.Create(sortSize, sortTime, maxSortTime, now)),
         RingRun.System(R.Create(frames, size), [], R.Reader(0, true), [], [], [], []))
  }

  lemma FreshInv(sortSize: nat, sortTime: nat, maxSortTime: nat, now: nat, size: nat, frames: nat)
    requires S.MIN_SORT_BUFF_LEN <= sortSize && 2 <= frames && 0 < size
    ensures var p := Fresh(sortSize, sortTime, maxSortTime, now, size, frames);
            PipeInv(p) && R.WellFormed(p.sys.st) && p.w.done == p.w.emitted
  {
    SortRun.FreshInv(sortSize, sortTime, maxSortTime, now, size / 2);
    RingRun.StartInv(frames, size);
    assert Frames([]) == [];
  }

  /** End to end, through any regrows and cleans of the sorter: as long as it accepts no
      packet older than the last one it has emitted, the timestamps a reader gets never go
      back, whatever order the packets come in and wherever the reader is overtaken. */
  lemma ReadsInOrder(sortSize: nat, sortTime: nat, maxSortTime: nat, now: nat, size: nat, frames: nat, es: seq<Event>)
    requires S.MIN_SORT_BUFF_LEN <= sortSize && 2 <= frames && 0 < size
    requires var p := Fresh(sortSize, sortTime, maxSortTime, now, size, frames);
             R.WellFormed(p.sys.st) && Safe(p, es) && InFront(p, es)
    ensures var got := Run(Fresh(sortSize, sortTime, maxSortTime, now, size, frames), es).sys.got;
            forall i, j :: 0 <= i < j < |got| ==> got[i].ts <= got[j].ts
  {
    var p := Fresh(sortSize, sortTime, maxSortTime, now, size, frames);
    FreshInv(sortSize, sortTime, maxSortTime, now, size, frames);
    SortRun.FreshOrder(sortSize, sortTime, maxSortTime, now);
    RunKept(p, es);
    RunOrder(p, es);
    InFrontRun(p, es);
    assert p.w.late == {};
    var q := Run(p, es);
    hide Run, Safe, InFront, Fresh, SortRun.OrderInv;
    SortRun.OrderDecided(q.w);
    PipeParts(q);
    HistoryInOrder(q);
    hide SortRun.WorldInv, PipeInv;
    RingRun.ReadInOrder(q.sys);
  }

  lemma HistoryInOrder(p: Pipe)
    requires p.sys.hist == Frames(p.w.emitted) && SortRun.Sorted(p.w.emitted)
    ensures forall i, j :: 0 <= i < j < |p.sys.hist| ==> p.sys.hist[i].ts <= p.sys.hist[j].ts
  {
    forall i, j | 0 <= i < j < |p.sys.hist| ensures p.sys.hist[i].ts <= p.sys.hist[j].ts {
      assert SortInv.Earlier(p.w.emitted[i], p.w.emitted[j]);
    }
  }

  lemma GotExact(p: Pipe, i: nat)
    requires PipeInv(p) && RingRun.ByteSystemInv(p.sys)
    requires i < |p.sys.got| && p.sys.intact[i]
    ensures var k := p.sys.seen[i];
            && k < |p.w.emitted| && p.w.emitted[k].id < |p.w.accepted|
            && p.sys.got[i] == p.w.accepted[p.w.emitted[k].id].frame
  {
    RingRun.SystemParts(p.sys);
    SortRun.EmittedExactly(p.w, Limit(p));
    hide SortRun.WorldInv, RingRun.SystemInv, RingInv.ByteInv;
    assert p.sys.hist[p.sys.seen[i]] == p.w.emitted[p.sys.seen[i]].frame;
  }

  /** The ring's part of one event. */
  function RingEvents(p: Pipe, e: Event): seq<RingRun.Event> {
    if e.WritePacket? then Writes(Outs(p, e)) else [RingRun.Read(e.ask)]
  }

  lemma StepRing(p: Pipe, e: Event)
    requires R.WellFormed(p.sys.st)
    ensures Step(p, e).sys == RingRun.Run(p.sys, RingEvents(p, e))
    ensures R.WellFormed(Step(p, e).sys.st)
    ensures |Step(p, e).sys.st.slots| == |p.sys.st.slots| && |Step(p, e).sys.st.data| == |p.sys.st.data|
  {
    hide R.WellFormed, RingRun.Step, S.Put;
    RunShape(p.sys, RingEvents(p, e));
    if e.ReadPacket? {
      RunCons(p.sys, RingRun.Read(e.ask), []);
    }
  }

  lemma {:induction false} RunBytes(p: Pipe, es: seq<Event>)
    requires R.WellFormed(p.sys.st) && RingRun.ByteSystemInv(p.sys)
    ensures RingRun.ByteSystemInv(Run(p, es).sys)
    decreases |es|
  {
    hide R.WellFormed, RingRun.ByteSystemInv, Step, RingRun.Run, RingEvents;
    if es != [] {
      StepRing(p, es[0]);
      RingRun.RunBytes(p.sys, RingEvents(p, es[0]));
      RunBytes(Step(p, es[0]), es[1..]);
    }
  }

  /** End to end over any run: every frame that is intact in the ring when it is read is,
      byte for byte and with its timestamp, type and priority, one packet that was
      accepted. */
  lemma ReadsWhatWasWritten(sortSize: nat, sortTime: nat, maxSortTime: nat, now: nat, size: nat, frames: nat, es: seq<Event>, i: nat)
    requires S.MIN_SORT_BUFF_LEN <= sortSize && 2 <= frames && 0 < size
    requires var p := Fresh(sortSize, sortTime, maxSortTime, now, size, frames); R.WellFormed(p.sys.st) && Safe(p, es)
    requires var q := Run(Fresh(sortSize, sortTime, maxSortTime, now, size, frames), es);
             i < |q.sys.got| && i < |q.sys.intact| && q.sys.intact[i]
    ensures var q := Run(Fresh(sortSize, sortTime, maxSortTime, now, size, frames), es);
            && i < |q.sys.seen| && q.sys.seen[i] < |q.w.emitted|
            && var id := q.w.emitted[q.sys.seen[i]].id;
               id < |q.w.accepted| && q.sys.got[i] == q.w.accepted[id].frame
  {
    var p := Fresh(sortSize, sortTime, maxSortTime, now, size, frames);
    FreshInv(sortSize, sortTime, maxSortTime, now, size, frames);
    RingRun.StartBytes(frames, size);
    hide PipeInv, RingRun.ByteSystemInv, Safe, Step, Fresh, RingRun.SystemInv, RingInv.ByteInv;
    RunKept(p, es);
    RunBytes(p, es);
    var q := Run(p, es);
    GotSizes(q);
    GotExact(q, i);
  }

  lemma GotSizes(p: Pipe)
    requires RingRun.ByteSystemInv(p.sys)
    ensures |p.sys.got| == |p.sys.seen| == |p.sys.intact|
  {
  }

  /** Type and key-frame flag survive the way through the frame types: audio is 7, a key
      frame 0 and any other video frame 2; what is read is audio for 7 only, and a key frame
      for 0 and 3. */
  lemma PacketRoundTrip(p: Packet, kind: int)
    ensures Unpacked(Packed(p)) == p
    ensures match p
            case Audio(data, pts, prio) => Packed(p) == Frame(data, pts, 7, prio)
            case Video(key, data, pts, prio) => Packed(p) == Frame(data, pts, if key then 0 else 2, prio)
    ensures forall data, ts, prio :: Unpacked(Frame(data, ts, kind, prio))
                                     == if kind == 7 then Audio(data, ts, prio) else Video(kind == 0 || kind == 3, data, ts, prio)
  {
  }
}
