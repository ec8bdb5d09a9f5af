/** The two jumps, and whole runs of one writer and one reader. */
module RingRun {
  import opened Media
  import opened RingSpec
  import opened RingInv
  import RingCover

  // ---------------------------------------------------------------- the jumps

  /** JumpToOldestIFrame finds the least valid key frame among the retained ones not
      behind the reader, exactly when there is one, and never moves the reader back. */
  lemma JumpOldestExact(st: Ring, hist: seq<Frame>, rd: Reader)
    requires MetaInv(st, hist) && rd.r < st.w
    ensures var (a, ok) := JumpOldest(st, rd);
            && (ok <==> exists k :: rd.r <= k < st.w && Oldest(st) <= k && KeyAt(st, k))
            && (ok ==> rd.r <= a.r < st.w && Oldest(st) <= a.r && KeyAt(st, a.r) && hist[a.r].kind == FRAME_I)
            && (ok ==> forall k :: rd.r <= k < a.r && Oldest(st) <= k ==> !KeyAt(st, k))
            && (!ok ==> a == rd) && a.needI == rd.needI
  {
    var (a, ok) := JumpOldest(st, rd);
    if ok {
      assert SlotHas(SlotOf(st, a.r), hist[a.r]);
    }
  }

  /** JumpTonewestIFrame finds the greatest valid key frame behind which the reader is,
      and that one still has its own slot. */
  lemma JumpNewestExact(st: Ring, hist: seq<Frame>, rd: Reader)
    requires MetaInv(st, hist) && rd.r < st.w
    ensures var (a, ok) := JumpNewest(st, rd);
            && (ok <==> exists k :: rd.r < k < st.w && Oldest(st) <= k && KeyAt(st, k))
            && (ok ==> rd.r < a.r < st.w && Oldest(st) <= a.r && KeyAt(st, a.r) && hist[a.r].kind == FRAME_I)
            && (ok ==> forall k :: a.r < k < st.w ==> !KeyAt(st, k))
            && (!ok ==> a == rd) && a.needI == rd.needI
  {
    var (a, ok) := JumpNewest(st, rd);
    if ok {
      if a.r < Oldest(st) {
        ModAdd(a.r, |st.slots|);
        assert KeyAt(st, a.r + |st.slots|);
      }
      assert SlotHas(SlotOf(st, a.r), hist[a.r]);
    }
  }

  // ---------------------------------------------------------------- runs

  datatype Event = Write(frame: Frame) | Invalidate(slots: set<nat>) | Read(ask: Ask)

  /** A ring with its history, one reader, the sequence numbers and frames it was given,
      and each time whether the frame was intact and how far the reader lagged. */
  datatype System = System(st: Ring, hist: seq<Frame>, rd: Reader, seen: seq<nat>, got: seq<Frame>,
                           intact: seq<bool>, lag: seq<nat>)

  function Drop(st: Ring, gone: set<nat>): Ring {
    st.(slots := seq(|st.slots|, i requires 0 <= i < |st.slots| =>
                       if i in gone then st.slots[i].(valid := false) else st.slots[i]))
  }

  function Step(s: System, e: Event): System
    requires WellFormed(s.st)
  {
    match e
    case Write(f) =>
      if TooBig(s.st, f) then s else s.(st := Put(s.st, f).0, hist := s.hist + [f])
    case Invalidate(gone) => s.(st := Drop(s.st, gone))
    case Read(ask) =>
      var (rd, got) := Get(s.st, s.rd, ask);
      if got.Delivered? then
        s.(rd := rd, seen := s.seen + [got.k], got := s.got + [got.frame],
           intact := s.intact + [got.k <= |s.hist| && Intact(s.hist, got.k, |s.st.slots|, |s.st.data|)],
           lag := s.lag + [if got.k <= s.st.w then s.st.w - got.k else 0])
      else s.(rd := rd)
  }

  function Run(s: System, es: seq<Event>): System
    requires WellFormed(s.st)
    decreases |es|
  {
    if es == [] then s else assert WellFormed(Step(s, es[0]).st); Run(Step(s, es[0]), es[1..])
  }

  /** Every write stays inside the slot array. */
  predicate InRange(s: System, es: seq<Event>)
    requires WellFormed(s.st)
    decreases |es|
  {
    es != [] ==>
      && (es[0].Write? ==> PutInRange(s.st, es[0].frame))
      && WellFormed(Step(s, es[0]).st)
      && InRange(Step(s, es[0]), es[1..])
  }

  /** The reader stands at the successor of its last frame, or at a key frame. */
  predicate Resumes(s: System) {
    || s.rd.needI
    || (s.seen != [] && s.rd.r == s.seen[|s.seen| - 1] + 1)
    || (s.rd.r < |s.hist| && s.hist[s.rd.r].kind == FRAME_I)
  }

  predicate SeenOk(s: System) {
    && (forall i, j :: 0 <= i < j < |s.seen| ==> s.seen[i] < s.seen[j])
    && (forall i :: 0 <= i < |s.seen| ==> s.seen[i] < |s.hist|)
    && (forall i :: 0 <= i < |s.seen| && (i == 0 || s.seen[i] != s.seen[i - 1] + 1) ==> s.hist[s.seen[i]].kind == FRAME_I)
    && |s.got| == |s.seen| == |s.intact|
    && (forall i :: 0 <= i < |s.seen| ==> SameMeta(s.got[i], s.hist[s.seen[i]]))
  }

  predicate SameMeta(a: Frame, b: Frame) {
    a.ts == b.ts && a.kind == b.kind && a.priority == b.priority
  }

  ghost predicate SystemInv(s: System) {
    && MetaInv(s.st, s.hist)
    && s.rd.r <= s.st.w
    && (s.rd.needI ==> s.seen == [])
    && (s.seen != [] ==> s.seen[|s.seen| - 1] < s.rd.r)
    && Resumes(s)
    && SeenOk(s)
  }

  lemma StartInv(frames: nat, size: nat)
    requires 2 <= frames && 0 < size
    ensures SystemInv(System(Create(frames, size), [], Reader(0, true), [], [], [], []))
  {
    CreateMeta(frames, size);
  }

  /** One read: a reader that delivers stands on a retained frame, which is the one it
      stood on before or a key frame at or after it. */
  lemma GetExact(st: Ring, hist: seq<Frame>, rd: Reader, ask: Ask)
    requires MetaInv(st, hist) && rd.r <= st.w
    ensures var (a, got) := Get(st, rd, ask);
            && a.r <= st.w
            && (a.needI ==> rd.needI)
            && (!rd.needI ==> rd.r <= a.r)
            && (got.Delivered? ==>
                  && !a.needI && a.r == got.k + 1 && got.k < st.w && Oldest(st) <= got.k && (!rd.needI ==> rd.r <= got.k)
                  && SameMeta(got.frame, hist[got.k]) && got.frame == FrameAt(st, got.k)
                  && (hist[got.k].kind == FRAME_I || (!rd.needI && got.k == rd.r)))
            && (!got.Delivered? && !a.needI ==>
                  (a.r < st.w && hist[a.r].kind == FRAME_I) || a.r == rd.r)
            && (!got.Delivered? && !a.needI && rd.needI ==> a.r < st.w && hist[a.r].kind == FRAME_I)
  {
    if st.w != rd.r {
      var (a, ok) := if st.w - rd.r > |st.slots| then JumpOldest(st, rd) else (rd, true);
      JumpOldestExact(st, hist, rd);
      if ok {
        GetFirstExact(st, hist, a, ask);
      }
    }
  }

  lemma GetFirstExact(st: Ring, hist: seq<Frame>, rd: Reader, ask: Ask)
    requires MetaInv(st, hist) && rd.r < st.w && Oldest(st) <= rd.r
    ensures var (a, got) := GetFirst(st, rd, ask);
            && a.r <= st.w && (a.needI ==> rd.needI) && (!rd.needI ==> rd.r <= a.r)
            && (got.Delivered? ==>
                  && !a.needI && a.r == got.k + 1 && got.k < st.w && Oldest(st) <= got.k && (!rd.needI ==> rd.r <= got.k)
                  && SameMeta(got.frame, hist[got.k]) && got.frame == FrameAt(st, got.k)
                  && (hist[got.k].kind == FRAME_I || (!rd.needI && got.k == rd.r)))
            && (!got.Delivered? && !a.needI ==>
                  (a.r < st.w && hist[a.r].kind == FRAME_I) || (a.r == rd.r && !rd.needI))
  {
    if rd.needI {
      var b := if st.w >= 5 then rd.(r := st.w - 5) else rd;
      JumpNewestExact(st, hist, b);
      var (a, ok) := JumpNewest(st, b);
      if ok {
        GetHereExact(st, hist, a.(needI := false), ask);
      }
    } else {
      GetHereExact(st, hist, rd, ask);
    }
  }

  lemma GetHereExact(st: Ring, hist: seq<Frame>, rd: Reader, ask: Ask)
    requires MetaInv(st, hist) && rd.r < st.w && Oldest(st) <= rd.r
    ensures var (a, got) := GetHere(st, rd, ask);
            && a.needI == rd.needI && rd.r <= a.r <= st.w
            && (got.Delivered? ==>
                  && a.r == got.k + 1 && got.k < st.w && Oldest(st) <= got.k && rd.r <= got.k
                  && SameMeta(got.frame, hist[got.k]) && got.frame == FrameAt(st, got.k)
                  && (hist[got.k].kind == FRAME_I || got.k == rd.r))
            && (!got.Delivered? ==> (a.r < st.w && hist[a.r].kind == FRAME_I) || a.r == rd.r)
  {
    JumpOldestExact(st, hist, rd);
    var (a, ok) := if SlotOf(st, rd.r).valid then (rd, true) else JumpOldest(st, rd);
    if ok {
      assert SlotHas(SlotOf(st, a.r), hist[a.r]);
    }
  }

  lemma WriteKept(s: System, f: Frame)
    requires SystemInv(s)
    ensures SystemInv(Step(s, Write(f)))
  {
    if !TooBig(s.st, f) {
      PutMeta(s.st, s.hist, f);
      MetaParts(s.st, s.hist);
      MetaParts(Put(s.st, f).0, s.hist + [f]);
      hide MetaInv, Put, WellFormed, TooBig;
    }
  }

  lemma InvalidateKept(s: System, gone: set<nat>)
    requires SystemInv(s)
    ensures SystemInv(Step(s, Invalidate(gone)))
  {
    var t := Step(s, Invalidate(gone)).st;
    assert forall k :: Oldest(s.st) <= k < s.st.w ==> SlotHas(SlotOf(s.st, k), s.hist[k]);
  }

  lemma ReadKept(s: System, ask: Ask)
    requires SystemInv(s)
    ensures SystemInv(Step(s, Read(ask)))
  {
    hide MetaInv, Get, FrameAt, SeenOk, SameMeta, WellFormed, Intact;
    SystemParts(s);
    MetaParts(s.st, s.hist);
    GetExact(s.st, s.hist, s.rd, ask);
    var got := Get(s.st, s.rd, ask).1;
    if got.Delivered? {
      SeenAppend(s, got.k, got.frame, Step(s, Read(ask)));
    } else {
      SeenSame(s, Step(s, Read(ask)));
    }
  }

  lemma SeenSame(s: System, t: System)
    requires SeenOk(s) && t.hist == s.hist && t.seen == s.seen && t.got == s.got && t.intact == s.intact
    ensures SeenOk(t)
  {
  }

  lemma SeenAppend(s: System, k: nat, frame: Frame, t: System)
    requires SeenOk(s) && k < |s.hist| && SameMeta(frame, s.hist[k])
    requires s.seen != [] ==> s.seen[|s.seen| - 1] < k
    requires (s.seen != [] && k == s.seen[|s.seen| - 1] + 1) || s.hist[k].kind == FRAME_I
    requires t.hist == s.hist && t.seen == s.seen + [k] && t.got == s.got + [frame] && |t.intact| == |s.intact| + 1
    ensures SeenOk(t)
  {
    hide SameMeta;
    var n := |s.seen|;
    forall i, j | 0 <= i < j < |t.seen| ensures t.seen[i] < t.seen[j] {
      if j == n {
        assert i == n - 1 || s.seen[i] < s.seen[n - 1];
      }
    }
    forall i | 0 <= i < |t.seen|
      ensures t.seen[i] < |t.hist| && SameMeta(t.got[i], t.hist[t.seen[i]])
      ensures i == 0 || t.seen[i] != t.seen[i - 1] + 1 ==> t.hist[t.seen[i]].kind == FRAME_I
    {
      if i > 0 {
        assert t.seen[i - 1] == s.seen[i - 1];
      }
      if i < n {
        assert t.seen[i] == s.seen[i] && t.got[i] == s.got[i];
      } else {
        assert t.seen[i] == k && t.got[i] == frame;
      }
    }
  }

  /** Whatever is written, invalidated and read, in any order: the sequence numbers a
      reader is given strictly increase, the first is a key frame, and so is each one
      that does not directly follow the one before. */
  lemma {:induction false} RunKept(s: System, es: seq<Event>)
    requires SystemInv(s) && InRange(s, es)
    ensures SystemInv(Run(s, es))
    decreases |es|
  {
    if es != [] {
      match es[0] {
        case Write(f) => WriteKept(s, f);
        case Invalidate(gone) => InvalidateKept(s, gone);
        case Read(ask) => ReadKept(s, ask);
      }
      hide SystemInv;
      RunKept(Step(s, es[0]), es[1..]);
    }
  }

  /** Timestamps that never go back when written never go back when read. */
  lemma ReadInOrder(s: System)
    requires SystemInv(s)
    requires forall i, j :: 0 <= i < j < |s.hist| ==> s.hist[i].ts <= s.hist[j].ts
    ensures forall i, j :: 0 <= i < j < |s.got| ==> s.got[i].ts <= s.got[j].ts
  {
    forall i, j | 0 <= i < j < |s.got| ensures s.got[i].ts <= s.got[j].ts {
      assert s.seen[i] < s.seen[j] && SameMeta(s.got[i], s.hist[s.seen[i]]) && SameMeta(s.got[j], s.hist[s.seen[j]]);
    }
  }

  // ---------------------------------------------------------------- bytes over a run

  ghost predicate ByteSystemInv(s: System) {
    && SystemInv(s)
    && ByteInv(s.st, s.hist)
    && (forall i :: 0 <= i < |s.seen| && s.intact[i] ==> s.got[i] == s.hist[s.seen[i]])
  }

  lemma StepHistory(s: System, e: Event)
    requires WellFormed(s.st)
    ensures s.hist <= Step(s, e).hist && WellFormed(Step(s, e).st)
    ensures |Step(s, e).st.slots| == |s.st.slots| && |Step(s, e).st.data| == |s.st.data|
  {
  }

  lemma {:induction false} RunHistory(s: System, es: seq<Event>)
    requires WellFormed(s.st)
    ensures s.hist <= Run(s, es).hist
    decreases |es|
  {
    if es != [] {
      StepHistory(s, es[0]);
      RunHistory(Step(s, es[0]), es[1..]);
    }
  }

  lemma SystemParts(s: System)
    requires SystemInv(s)
    ensures MetaInv(s.st, s.hist) && SeenOk(s) && s.rd.r <= s.st.w
  {
  }

  lemma DropBytes(st: Ring, hist: seq<Frame>, gone: set<nat>)
    requires ByteInv(st, hist) && MetaInv(Drop(st, gone), hist)
    ensures ByteInv(Drop(st, gone), hist)
  {
    var t := Drop(st, gone);
    assert forall i :: 0 <= i < |st.slots| ==> t.slots[i].position == st.slots[i].position;
    ByteParts(st, hist);
    hide MetaInv, Span, Offset, Halves, Media.Read;
    forall k: nat | k <= st.w && st.w - k < |st.slots| ensures SlotOf(t, k).position == Offset(hist, k, |st.data|) {
      if k < st.w {
        PositionOf(st, hist, k);
      }
    }
  }

  lemma ByteStep(s: System, e: Event)
    requires ByteSystemInv(s)
    ensures ByteSystemInv(Step(s, e))
  {
    match e {
      case Write(f) =>
        WriteKept(s, f);
        SystemParts(s);
        hide SystemInv, ByteInv, Put;
        if !TooBig(s.st, f) {
          PutBytes(s.st, s.hist, f);
        }
      case Invalidate(gone) =>
        InvalidateKept(s, gone);
        SystemParts(Step(s, e));
        hide SystemInv, ByteInv;
        DropBytes(s.st, s.hist, gone);
      case Read(ask) =>
        ReadKept(s, ask);
        SystemParts(s);
        GetExact(s.st, s.hist, s.rd, ask);
        hide SystemInv, ByteInv, Get, FrameAt, Intact;
        var got := Get(s.st, s.rd, ask).1;
        if got.Delivered? && Intact(s.hist, got.k, |s.st.slots|, |s.st.data|) {
          ReadsExactly(s.st, s.hist, got.k);
        }
    }
  }

  /** Over any run of puts, gets and invalidations, every frame that is intact when it is
      read is read exactly as it was put: at most a buffer has been put from it on, and it
      lags by less than `uiMaxValidFrames` (or by as much, when exactly a buffer has been
      put).  This is what the code does as long as the run is `InRange`; a put outside the
      slot array may write into the buffer's bytes. */
  lemma {:induction false} RunBytes(s: System, es: seq<Event>)
    requires ByteSystemInv(s) && WellFormed(s.st)
    ensures ByteSystemInv(Run(s, es))
    decreases |es|
  {
    if es != [] {
      ByteStep(s, es[0]);
      StepHistory(s, es[0]);
      hide ByteSystemInv, Step, WellFormed;
      RunBytes(Step(s, es[0]), es[1..]);
    }
  }

  lemma StartBytes(frames: nat, size: nat)
    requires 2 <= frames && 0 < size
    ensures ByteSystemInv(System(Create(frames, size), [], Reader(0, true), [], [], [], []))
  {
    StartInv(frames, size);
    CreateBytes(frames, size);
  }

  // ---------------------------------------------------------------- roomy runs

  lemma RoomyStep(s: System, e: Event)
    requires ByteSystemInv(s) && WellFormed(s.st)
    requires Roomy(Step(s, e).hist, |s.st.slots|, |s.st.data|)
    ensures e.Write? ==> PutInRange(s.st, e.frame)
  {
    if e.Write? && !TooBig(s.st, e.frame) {
      assert Step(s, e).hist == s.hist + [e.frame];
      hide SystemInv, ByteInv, Put, Roomy, PutInRange;
      RingCover.RoomyInRange(s.st, s.hist, e.frame);
    }
  }

  /** While any `uiMaxValidFrames` consecutive frames of the whole run are together
      shorter than the buffer, every put stays inside the slot array. */
  lemma {:induction false} RunInRange(s: System, es: seq<Event>)
    requires ByteSystemInv(s) && WellFormed(s.st)
    requires Roomy(Run(s, es).hist, |s.st.slots|, |s.st.data|)
    ensures InRange(s, es)
    decreases |es|
  {
    if es != [] {
      var t, e := Step(s, es[0]), es[0];
      StepHistory(s, e);
      RunHistory(t, es[1..]);
      hide ByteSystemInv, Step, Roomy, WellFormed, PutInRange;
      RoomyPrefix(t.hist, Run(s, es).hist, |s.st.slots|, |s.st.data|);
      RoomyStep(s, e);
      ByteStep(s, e);
      RunInRange(t, es[1..]);
    }
  }

  /** Every reader that lagged by less than `uiMaxValidFrames` found the frame intact. */
  predicate LagOk(s: System) {
    |s.lag| == |s.intact| && forall i :: 0 <= i < |s.lag| && s.lag[i] < |s.st.slots| ==> s.intact[i]
  }

  lemma LagStep(s: System, e: Event)
    requires SystemInv(s) && WellFormed(s.st) && LagOk(s) && Roomy(s.hist, |s.st.slots|, |s.st.data|)
    ensures LagOk(Step(s, e))
  {
    StepHistory(s, e);
    if e.Read? {
      SystemParts(s);
      GetExact(s.st, s.hist, s.rd, e.ask);
      hide SystemInv, Get, Roomy, Intact, FrameAt;
      var got := Get(s.st, s.rd, e.ask).1;
      if got.Delivered? && s.st.w - got.k < |s.st.slots| {
        assert |s.hist| == s.st.w;
        RoomyIntact(s.hist, got.k, |s.st.slots|, |s.st.data|);
      }
      hide MetaInv;
    }
  }

  /** In a roomy run a lag below `uiMaxValidFrames` is enough for an exact read. */
  lemma {:induction false} RunLag(s: System, es: seq<Event>)
    requires ByteSystemInv(s) && WellFormed(s.st) && LagOk(s)
    requires Roomy(Run(s, es).hist, |s.st.slots|, |s.st.data|)
    ensures LagOk(Run(s, es))
    decreases |es|
  {
    if es != [] {
      var t, e := Step(s, es[0]), es[0];
      StepHistory(s, e);
      RunHistory(t, es[1..]);
      assert SystemInv(s);
      hide ByteSystemInv, SystemInv, Step, Roomy, WellFormed, LagOk;
      RoomyPrefix(t.hist, Run(s, es).hist, |s.st.slots|, |s.st.data|);
      RoomyPrefix(s.hist, t.hist, |s.st.slots|, |s.st.data|);
      LagStep(s, e);
      ByteStep(s, e);
      RunLag(t, es[1..]);
    }
  }

  predicate AllValid(st: Ring)
    requires st.slots != []
  {
    forall k :: Oldest(st) <= k < st.w ==> SlotOf(st, k).valid
  }

  lemma AllValidPut(st: Ring, hist: seq<Frame>, f: Frame)
    requires ByteInv(st, hist) && Roomy(hist + [f], |st.slots|, |st.data|) && !TooBig(st, f)
    requires st.slots != [] && AllValid(st)
    ensures |Put(st, f).0.slots| == |st.slots| && AllValid(Put(st, f).0)
  {
    hide ByteInv, MetaInv, WellFormed, Put, Roomy, TooBig;
    ByteParts(st, hist);
    var t := Put(st, f).0;
    PutHalves(st, hist, f);
    forall k: nat | Oldest(t) <= k < t.w ensures SlotOf(t, k).valid {
      ValidAfter(st, hist, f, k);
    }
  }

  lemma ValidAfter(st: Ring, hist: seq<Frame>, f: Frame, k: nat)
    requires ByteInv(st, hist) && Roomy(hist + [f], |st.slots|, |st.data|) && !TooBig(st, f)
    requires k <= st.w < k + |st.slots| && (k < st.w ==> SlotOf(st, k).valid)
    ensures Put(st, f).0.slots != [] && SlotOf(Put(st, f).0, k).valid
  {
    hide ByteInv, MetaInv, WellFormed, Put, Roomy, TooBig;
    ByteParts(st, hist);
    PutHalves(st, hist, f);
    if k < st.w {
      RingCover.PutKeepsValid(st, hist, f, k);
    } else {
      PutSlots(st, f);
    }
  }

  lemma AllValidStep(s: System, e: Event)
    requires ByteSystemInv(s) && WellFormed(s.st) && AllValid(s.st) && !e.Invalidate?
    requires Roomy(Step(s, e).hist, |s.st.slots|, |s.st.data|)
    ensures WellFormed(Step(s, e).st) && AllValid(Step(s, e).st)
  {
    StepHistory(s, e);
    if e.Write? && !TooBig(s.st, e.frame) {
      assert Step(s, e).hist == s.hist + [e.frame] && Step(s, e).st == Put(s.st, e.frame).0;
      hide SystemInv, ByteInv, Put, Roomy, AllValid, WellFormed;
      AllValidPut(s.st, s.hist, e.frame);
    }
  }

  /** And as long as nobody invalidates a slot, all retained frames stay valid. */
  lemma {:induction false} RunAllValid(s: System, es: seq<Event>)
    requires ByteSystemInv(s) && WellFormed(s.st) && AllValid(s.st)
    requires forall i :: 0 <= i < |es| ==> !es[i].Invalidate?
    requires Roomy(Run(s, es).hist, |s.st.slots|, |s.st.data|)
    ensures WellFormed(Run(s, es).st) && AllValid(Run(s, es).st)
    decreases |es|
  {
    if es != [] {
      var t, e := Step(s, es[0]), es[0];
      StepHistory(s, e);
      RunHistory(t, es[1..]);
      hide ByteSystemInv, Step, Roomy, WellFormed, AllValid;
      RoomyPrefix(t.hist, Run(s, es).hist, |s.st.slots|, |s.st.data|);
      ByteStep(s, e);
      AllValidStep(s, e);
      RunAllValid(t, es[1..]);
    }
  }
}
