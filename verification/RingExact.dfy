/**
 What a put and a get do to the ring, answer by answer, from the slots alone and with the
 numbers of the code; and over runs, when a reader is given every frame.
 */
module RingExact {
  import opened Media
  import opened RingSpec
  import opened RingInv
  import opened RingRun

  // ---------------------------------------------------------------- one put

  /** A frame is refused with -2 if and only if it is half the buffer or longer, and then
      nothing changes. */
  lemma PutRefusedIff(st: Ring, f: Frame)
    requires WellFormed(st)
    ensures var (t, code) := Put(st, f);
            && (code == -2 <==> |st.data| / 2 <= |f.bytes|) && (code == 0 <==> |f.bytes| < |st.data| / 2)
            && (code == -2 ==> t == st) && (code == 0 ==> t.w == st.w + 1)
  {
  }

  /** The start `p` lies in the closed interval that `len` bytes from `start` fill.  For an
      empty frame that interval is taken for the whole round. */
  predicate Inside(p: nat, start: nat, len: nat, size: nat) {
    if 0 < len && start + len <= size then start <= p <= start + len
    else start <= p || p <= start + len - (if start + len <= size then 0 else size)
  }

  /** A put makes its own slot valid and clears the flags of the slots behind it, up to the
      first whose start is not in the interval written, the end of the slot array, or
      `uiMaxValidFrames - 2` slots; all others keep theirs. */
  lemma FlagsExact(st: Ring, f: Frame, i: nat)
    requires WellFormed(st) && |f.bytes| < |st.data| / 2 && i < |st.slots|
    ensures var t, n, own := Put(st, f).0, |st.slots|, st.w % |st.slots|;
            var next, start := (own + 1) % n, st.slots[own].position;
            && t.slots[own].valid
            && (i != own ==>
                  (t.slots[i].valid <==>
                     st.slots[i].valid
                     && !(next <= i < next + (n - 2)
                          && forall j :: next <= j <= i ==> Inside(st.slots[j].position, start, |f.bytes|, |st.data|))))
  {
    var n, own := |st.slots|, st.w % |st.slots|;
    var next, start := (own + 1) % n, st.slots[own].position;
    var end := EndOf(|st.data|, start, |f.bytes|);
    var slots := st.slots[own := Filled(st, f)];
    NeverOwnSlot(n, st.w);
    var lim := CoverLimit(slots, next);
    var e := RunEnd(slots, start, end, next, lim);
    assert Put(st, f).0.slots[i].valid == (slots[i].valid && !(next <= i < e));
    assert Put(st, f).0.slots[own].valid;
    assert forall j :: 0 <= j < n ==> slots[j].position == st.slots[j].position;
    assert forall j :: 0 <= j < n ==> (Covered(slots[j].position, start, end) <==> Inside(st.slots[j].position, start, |f.bytes|, |st.data|));
    if next <= i < lim {
      if e <= i {
        assert !Inside(st.slots[e].position, start, |f.bytes|, |st.data|);
      } else {
        assert forall j :: next <= j <= i ==> Inside(st.slots[j].position, start, |f.bytes|, |st.data|);
      }
    }
  }

  // ---------------------------------------------------------------- one get

  /** What a reader at frame `k` is answered: nothing when the frame is too long for it, its
      timestamp when it reads by time and the frame is more than 2000 ahead, and otherwise
      the frame, after which it stands at the next one. */
  predicate AnsweredAt(st: Ring, ask: Ask, k: nat, a: Reader, got: Got)
    requires st.slots != []
  {
    var slot := st.slots[k % |st.slots|];
    if slot.len > ask.maxLen then a == Reader(k, false) && got == Nothing
    else if ask.byTime && 0 < ask.since && slot.ts > ask.since + 2000 then a == Reader(k, false) && got == SlowAt(slot.ts)
    else
      && a == Reader(k + 1, false)
      && got == Delivered(k, Frame(Media.Read(st.data, slot.position, slot.len), slot.ts, slot.kind, slot.priority))
  }

  predicate ValidAt(st: Ring, k: nat)
    requires st.slots != []
  {
    st.slots[k % |st.slots|].valid
  }

  /** A valid frame of type 0. */
  predicate KeyFrame(st: Ring, k: nat)
    requires st.slots != []
  {
    ValidAt(st, k) && st.slots[k % |st.slots|].kind == 0
  }

  predicate LeastKey(st: Ring, from: nat, k: nat)
    requires st.slots != []
  {
    from <= k < st.w && KeyFrame(st, k) && forall j :: from <= j < k ==> !KeyFrame(st, j)
  }

  predicate GreatestKey(st: Ring, behind: nat, k: nat)
    requires st.slots != []
  {
    behind < k < st.w && KeyFrame(st, k) && forall j :: k < j < st.w ==> !KeyFrame(st, j)
  }

  predicate NoKey(st: Ring, from: nat)
    requires st.slots != []
  {
    forall j :: from <= j < st.w ==> !KeyFrame(st, j)
  }

  /** The reader has not been overtaken by a whole round of the slots. */
  predicate Keeps(st: Ring, r: nat) {
    r < st.w <= r + |st.slots|
  }

  /** A reader that has had its key frame, has not been overtaken and stands on a valid frame
      is answered about exactly that frame. */
  lemma GetStanding(st: Ring, rd: Reader, ask: Ask)
    requires st.slots != [] && !rd.needI && Keeps(st, rd.r) && ValidAt(st, rd.r)
    ensures var (a, got) := Get(st, rd, ask); AnsweredAt(st, ask, rd.r, a, got)
  {
  }

  /** One that has been overtaken, or whose frame is not valid any more, is sent on to the
      least valid key frame that is left and not behind it, and is told that it is slow if
      there is none. */
  lemma GetSentOn(st: Ring, rd: Reader, ask: Ask)
    requires st.slots != [] && !rd.needI && rd.r < st.w && !(Keeps(st, rd.r) && ValidAt(st, rd.r))
    ensures var (a, got) := Get(st, rd, ask);
            var from := if rd.r + |st.slots| < st.w then st.w - |st.slots| else rd.r;
            && (forall k :: LeastKey(st, from, k) ==> AnsweredAt(st, ask, k, a, got))
            && (NoKey(st, from) ==> got == Slow && a == rd)
            && (NoKey(st, from) || exists k :: LeastKey(st, from, k))
  {
    var from := if rd.r + |st.slots| < st.w then st.w - |st.slots| else rd.r;
    OldestKey(st, rd);
  }

  /** The search for the oldest key frame, from the reader or the oldest frame left. */
  lemma OldestKey(st: Ring, rd: Reader)
    requires st.slots != [] && rd.r < st.w
    ensures var from := if rd.r + |st.slots| < st.w then st.w - |st.slots| else rd.r;
            var (a, ok) := JumpOldest(st, rd);
            && a.needI == rd.needI
            && (ok ==> LeastKey(st, from, a.r) && forall k :: LeastKey(st, from, k) ==> k == a.r)
            && (!ok ==> a == rd && NoKey(st, from))
  {
    var from := if rd.r + |st.slots| < st.w then st.w - |st.slots| else rd.r;
    var k := NextKey(st, from);
    forall j | from <= j < st.w ensures KeyFrame(st, j) <==> KeyAt(st, j) {
    }
  }

  /** The search for the newest key frame strictly ahead of the reader. */
  lemma NewestKey(st: Ring, rd: Reader)
    requires st.slots != [] && rd.r < st.w
    ensures var (a, ok) := JumpNewest(st, rd);
            && a.needI == rd.needI
            && (ok ==> GreatestKey(st, rd.r, a.r) && forall k :: GreatestKey(st, rd.r, k) ==> k == a.r)
            && (!ok ==> a == rd && NoKey(st, rd.r + 1))
  {
    forall j | rd.r <= j < st.w ensures KeyFrame(st, j) <==> KeyAt(st, j) {
    }
  }

  /** A new reader starts at the greatest valid key frame that is one of the newest four,
      and gets nothing and stays new while there is none.  While fewer than five frames have
      been put, it is the greatest one ahead of it.  Only when it has been overtaken and no
      key frame is left at all is it told that it is slow. */
  lemma GetNewcomer(st: Ring, rd: Reader, ask: Ask)
    requires st.slots != [] && rd.needI && rd.r < st.w
    ensures var (a, got) := Get(st, rd, ask);
            if rd.r + |st.slots| < st.w && NoKey(st, st.w - |st.slots|) then
              got == Slow && a == rd
            else
              exists behind: nat ::
                && (st.w >= 5 ==> behind == st.w - 5)
                && (st.w < 5 && st.w <= rd.r + |st.slots| ==> behind == rd.r)
                && (st.w < 5 && rd.r + |st.slots| < st.w ==> LeastKey(st, st.w - |st.slots|, behind))
                && (forall k :: GreatestKey(st, behind, k) ==> AnsweredAt(st, ask, k, a, got))
                && (NoKey(st, behind + 1) ==> got == Nothing && a == Reader(behind, true))
                && (NoKey(st, behind + 1) || exists k :: GreatestKey(st, behind, k))
  {
    OldestKey(st, rd);
    var stale := rd.r + |st.slots| < st.w;
    var (b, ok) := if stale then JumpOldest(st, rd) else (rd, true);
    if ok {
      var behind := if st.w >= 5 then st.w - 5 else b.r;
      NewestKey(st, b.(r := behind));
      hide JumpOldest, JumpNewest;
      GetFromNewest(st, rd, ask, b, behind);
    }
  }

  lemma GetFromNewest(st: Ring, rd: Reader, ask: Ask, b: Reader, behind: nat)
    requires st.slots != [] && rd.needI && b.needI && rd.r < st.w && b.r < st.w
    requires behind == if st.w >= 5 then st.w - 5 else b.r
    requires (b, true) == if st.w - rd.r > |st.slots| then JumpOldest(st, rd) else (rd, true)
    ensures var (a, got) := Get(st, rd, ask);
            && (forall k :: GreatestKey(st, behind, k) ==> AnsweredAt(st, ask, k, a, got))
            && (NoKey(st, behind + 1) ==> got == Nothing && a == Reader(behind, true))
            && (NoKey(st, behind + 1) || exists k :: GreatestKey(st, behind, k))
  {
    NewestKey(st, b.(r := behind));
    hide JumpOldest, JumpNewest;
  }

  /** A reader is told that it is fast if and only if it is not behind the writer; level with
      it, it stays, and ahead of it (which no run reaches) it goes to the oldest key frame. */
  lemma GetFastIff(st: Ring, rd: Reader, ask: Ask)
    requires st.slots != []
    ensures var (a, got) := Get(st, rd, ask);
            var oldest := if st.w < |st.slots| then 0 else st.w - |st.slots|;
            && (got == Fast <==> st.w <= rd.r) && (st.w == rd.r ==> a == rd)
            && (st.w == 0 < rd.r ==> a == rd.(r := 0))
            && (0 < st.w < rd.r ==>
                  && (forall k :: LeastKey(st, oldest, k) ==> a == rd.(r := k))
                  && (NoKey(st, oldest) ==> a == rd))
  {
    if 0 < st.w < rd.r {
      forall j | Oldest(st) <= j < st.w ensures KeyFrame(st, j) <==> KeyAt(st, j) {
      }
    }
  }

  // ---------------------------------------------------------------- a reader that keeps up

  /** Whenever the reader reads, at most `uiMaxValidFrames` frames wait for it, and the first
      of them is short enough for it and not more than 2000 ahead when it reads by time. */
  predicate KeepsUp(s: System, es: seq<Event>)
    requires WellFormed(s.st)
    decreases |es|
  {
    es != [] ==>
      && (es[0].Read? && s.rd.r < s.st.w ==> Suits(s, es[0].ask))
      && WellFormed(Step(s, es[0]).st)
      && KeepsUp(Step(s, es[0]), es[1..])
  }

  predicate Suits(s: System, ask: Ask) {
    && s.st.w <= s.rd.r + |s.st.slots| && s.rd.r < |s.hist|
    && |s.hist[s.rd.r].bytes| <= ask.maxLen
    && (ask.byTime && 0 < ask.since ==> s.hist[s.rd.r].ts <= ask.since + 2000)
  }

  /** How many of the reads find a frame waiting when every one that does is given it: `w`
      frames have been put, the reader is at `r`. */
  function Waiting(w: nat, r: nat, size: nat, es: seq<Event>): nat
    decreases |es|
  {
    if es == [] then 0
    else match es[0]
      case Write(f) => Waiting(if |f.bytes| < size / 2 then w + 1 else w, r, size, es[1..])
      case Invalidate(_) => Waiting(w, r, size, es[1..])
      case Read(_) => if r < w then 1 + Waiting(w, r + 1, size, es[1..]) else Waiting(w, r, size, es[1..])
  }

  /** `n` numbers from `start` on. */
  function From(start: nat, n: nat): (r: seq<nat>)
    ensures |r| == n && forall i :: 0 <= i < n ==> r[i] == start + i
  {
    seq(n, i => start + i)
  }

  lemma ReadStep(s: System, ask: Ask)
    requires SystemInv(s) && WellFormed(s.st) && AllValid(s.st) && !s.rd.needI
    requires s.rd.r < s.st.w ==> Suits(s, ask)
    ensures var t := Step(s, Event.Read(ask));
            && t.st == s.st
            && t.rd == Reader(if s.rd.r < s.st.w then s.rd.r + 1 else s.rd.r, false)
            && t.seen == s.seen + (if s.rd.r < s.st.w then [s.rd.r] else [])
  {
    if s.rd.r < s.st.w {
      assert SlotHas(SlotOf(s.st, s.rd.r), s.hist[s.rd.r]);
      GetStanding(s.st, s.rd, ask);
    }
    hide Intact, Media.Read;
  }

  lemma WriteStep(s: System, f: Frame)
    requires WellFormed(s.st)
    ensures var t := Step(s, Write(f));
            && t.rd == s.rd && t.seen == s.seen
            && t.st.w == if |f.bytes| < |s.st.data| / 2 then s.st.w + 1 else s.st.w
  {
    PutRefusedIff(s.st, f);
    hide Put;
  }

  lemma NoneSeen(seen: seq<nat>)
    ensures seen + [] == seen
  {
  }

  lemma GaplessStep(s: System, es: seq<Event>)
    requires SystemInv(s) && WellFormed(s.st) && AllValid(s.st) && !s.rd.needI
    requires es != [] && !es[0].Invalidate? && KeepsUp(s, es)
    ensures var t, size := Step(s, es[0]), |s.st.data|;
            var d := if es[0].Read? && s.rd.r < s.st.w then 1 else 0;
            && WellFormed(t.st) && KeepsUp(t, es[1..])
            && t.rd == Reader(s.rd.r + d, false)
            && t.seen == s.seen + (if d == 1 then [s.rd.r] else [])
            && Waiting(s.st.w, s.rd.r, size, es) == d + Waiting(t.st.w, t.rd.r, size, es[1..])
  {
    KeepsUpParts(s, es);
    WaitingStep(s.st.w, s.rd.r, |s.st.data|, es);
    NoneSeen(s.seen);
    hide SystemInv, Step, WellFormed, AllValid, Suits, KeepsUp, Waiting;
    match es[0] {
      case Write(f) => WriteStep(s, f);
      case Read(ask) => ReadStep(s, ask);
    }
  }

  lemma KeepsUpParts(s: System, es: seq<Event>)
    requires WellFormed(s.st) && es != [] && KeepsUp(s, es)
    ensures es[0].Read? && s.rd.r < s.st.w ==> Suits(s, es[0].ask)
    ensures WellFormed(Step(s, es[0]).st) && KeepsUp(Step(s, es[0]), es[1..])
  {
    hide Step, Suits;
  }

  lemma WaitingStep(w: nat, r: nat, size: nat, es: seq<Event>)
    requires es != []
    ensures Waiting(w, r, size, es)
            == var d := if es[0].Read? && r < w then 1 else 0;
               d + Waiting(if es[0].Write? && |es[0].frame.bytes| < size / 2 then w + 1 else w, r + d, size, es[1..])
  {
  }

  lemma SeenOn(seen: seq<nat>, start: nat, d: nat, n: nat, mid: seq<nat>, all: seq<nat>)
    requires d <= 1 && mid == seen + (if d == 1 then [start] else []) && all == mid + From(start + d, n)
    ensures all == seen + From(start, d + n)
  {
    if d == 0 {
      assert mid == seen;
    } else {
      assert From(start, 1 + n) == [start] + From(start + 1, n);
      assert seen + [start] + From(start + 1, n) == seen + ([start] + From(start + 1, n));
    }
  }

  /** The whole run, from its first step and the rest of it. */
  lemma GaplessFrom(s: System, es: seq<Event>, t: System, u: System)
    requires es != []
    requires var size, d := |s.st.data|, if es[0].Read? && s.rd.r < s.st.w then 1 else 0;
             && t.rd == Reader(s.rd.r + d, false)
             && t.seen == s.seen + (if d == 1 then [s.rd.r] else [])
             && Waiting(s.st.w, s.rd.r, size, es) == d + Waiting(t.st.w, t.rd.r, size, es[1..])
             && var n := Waiting(t.st.w, t.rd.r, size, es[1..]);
                u.rd == Reader(t.rd.r + n, false) && u.seen == t.seen + From(t.rd.r, n)
    ensures var n := Waiting(s.st.w, s.rd.r, |s.st.data|, es);
            u.rd == Reader(s.rd.r + n, false) && u.seen == s.seen + From(s.rd.r, n)
  {
    hide Waiting, From;
    var d: nat := if es[0].Read? && s.rd.r < s.st.w then 1 else 0;
    SeenOn(s.seen, s.rd.r, d, Waiting(t.st.w, t.rd.r, |s.st.data|, es[1..]), t.seen, u.seen);
  }

  /** A roomy run without invalidations, of a reader that keeps up. */
  ghost predicate Gapless(s: System, es: seq<Event>) {
    && ByteSystemInv(s) && WellFormed(s.st) && AllValid(s.st) && !s.rd.needI
    && (forall i :: 0 <= i < |es| ==> !es[i].Invalidate?)
    && Roomy(Run(s, es).hist, |s.st.slots|, |s.st.data|) && KeepsUp(s, es)
  }

  lemma GaplessKept(s: System, es: seq<Event>)
    requires es != [] && Gapless(s, es)
    ensures WellFormed(s.st) && Gapless(Step(s, es[0]), es[1..])
    ensures var t, size := Step(s, es[0]), |s.st.data|;
            var d := if es[0].Read? && s.rd.r < s.st.w then 1 else 0;
            && |t.st.data| == size
            && t.rd == Reader(s.rd.r + d, false)
            && t.seen == s.seen + (if d == 1 then [s.rd.r] else [])
            && Waiting(s.st.w, s.rd.r, size, es) == d + Waiting(t.st.w, t.rd.r, size, es[1..])
            && Run(s, es) == Run(t, es[1..])
  {
    var t, e := Step(s, es[0]), es[0];
    StepHistory(s, e);
    RunHistory(t, es[1..]);
    SystemOf(s);
    assert Run(s, es) == Run(t, es[1..]);
    hide Run, ByteSystemInv, SystemInv, Step, Roomy, WellFormed, AllValid, KeepsUp, Waiting, From;
    RoomyPrefix(t.hist, Run(s, es).hist, |s.st.slots|, |s.st.data|);
    ByteStep(s, e);
    AllValidStep(s, e);
    GaplessStep(s, es);
  }

  lemma {:induction false} GaplessRun(s: System, es: seq<Event>)
    requires Gapless(s, es) && WellFormed(s.st)
    ensures var u, n := Run(s, es), Waiting(s.st.w, s.rd.r, |s.st.data|, es);
            u.rd == Reader(s.rd.r + n, false) && u.seen == s.seen + From(s.rd.r, n)
    decreases |es|
  {
    if es == [] {
      assert s.seen + From(s.rd.r, 0) == s.seen;
    } else {
      var t := Step(s, es[0]);
      GaplessKept(s, es);
      hide Run, Step, Gapless, Waiting, From, WellFormed;
      assert WellFormed(t.st) by { GaplessWell(t, es[1..]); }
      GaplessRun(t, es[1..]);
      GaplessFrom(s, es, t, Run(s, es));
    }
  }

  lemma GaplessWell(s: System, es: seq<Event>)
    requires Gapless(s, es)
    ensures WellFormed(s.st)
  {
  }

  /** In a roomy run without invalidations, a reader that keeps up is given every frame from
      where it stands on, one at each read that finds one waiting, without a gap: it is
      never sent on and never put off. */
  lemma RunGapless(s: System, es: seq<Event>)
    requires ByteSystemInv(s) && WellFormed(s.st) && AllValid(s.st) && !s.rd.needI
    requires forall i :: 0 <= i < |es| ==> !es[i].Invalidate?
    requires Roomy(Run(s, es).hist, |s.st.slots|, |s.st.data|) && KeepsUp(s, es)
    ensures var t, n := Run(s, es), Waiting(s.st.w, s.rd.r, |s.st.data|, es);
            t.rd == Reader(s.rd.r + n, false) && t.seen == s.seen + From(s.rd.r, n)
  {
    hide Run, ByteSystemInv, Roomy, WellFormed, AllValid, KeepsUp, Waiting, From;
    GaplessRun(s, es);
  }

  lemma SystemOf(s: System)
    requires ByteSystemInv(s)
    ensures SystemInv(s)
  {
  }
}
