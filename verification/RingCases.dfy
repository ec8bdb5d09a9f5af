/** Concrete runs of the frame ring in which it loses bytes or leaves its slot array. */
module RingCases {
  import opened Media
  import opened RingSpec
  import opened RingInv
  import RingCover

  // ---------------------------------------------------------------- outside the slot array

  /** Four slots and ten bytes: the third frame of four bytes goes round the end of the
      buffer, and the loop takes the start of the slot not yet written, 0, for covered. */
  lemma FirstRoundLeavesArray(a: Frame, b: Frame, c: Frame)
    requires |a.bytes| == |b.bytes| == |c.bytes| == 4
    ensures var s0 := Create(4, 10);
            && WellFormed(s0) && PutInRange(s0, a) && Put(s0, a).1 == 0
            && var s1 := Put(s0, a).0;
               && PutInRange(s1, b) && Put(s1, b).1 == 0
               && var s2 := Put(s1, b).0;
                  !TooBig(s2, c) && !PutInRange(s2, c)
  {
    hide ByteInv, Put, PutInRange, TooBig;
    var s0 := Create(4, 10);
    CreateBytes(4, 10);
    EarlyPut(s0, [], a);
    assert [] + [a] == [a];
    EarlyPut(Put(s0, a).0, [a], b);
    assert [a] + [b] == [a, b];
    ThirdPut(Put(Put(s0, a).0, b).0, a, b, c);
  }

  lemma EarlyPut(st: Ring, hist: seq<Frame>, f: Frame)
    requires ByteInv(st, hist) && |st.slots| == 4 && |st.data| == 10 && st.w < 2 && |f.bytes| == 4
    ensures WellFormed(st) && PutInRange(st, f) && Put(st, f).1 == 0 && ByteInv(Put(st, f).0, hist + [f])
    ensures var t := Put(st, f).0; t.w == st.w + 1 && |t.slots| == 4 && |t.data| == 10
  {
    ByteParts(st, hist);
    RingCover.InRangeIff(st, hist, f);
    PutBytes(st, hist, f);
    PutSizes(st, f);
  }

  lemma ThirdPut(st: Ring, a: Frame, b: Frame, c: Frame)
    requires ByteInv(st, [a, b]) && |st.slots| == 4 && |st.data| == 10 && st.w == 2
    requires |a.bytes| == |b.bytes| == |c.bytes| == 4
    ensures WellFormed(st) && !TooBig(st, c) && !PutInRange(st, c)
  {
    ByteParts(st, [a, b]);
    RingCover.InRangeIff(st, [a, b], c);
    hide ByteInv, MetaInv, PutInRange, Offset;
    assert Span([a, b], 0, 1) == 4;
    assert Span([a, b], 0, 2) == 8;
    assert RingCover.Hit([a, b], 0, 4, 10);
  }

  lemma PutSizes(st: Ring, f: Frame)
    requires WellFormed(st) && !TooBig(st, f)
    ensures var t := Put(st, f); t.1 == 0 && t.0.w == st.w + 1 && |t.0.slots| == |st.slots| && |t.0.data| == |st.data|
  {
  }

  const RING_BUFFER_SIZE_DEF: nat := 10 * 1024 * 1024
  const RING_BUFFER_CAP_DEF: nat := 30

  function PutAll(st: Ring, fs: seq<Frame>): (r: Ring)
    requires WellFormed(st)
    ensures WellFormed(r) && |r.slots| == |st.slots| && |r.data| == |st.data|
    decreases |fs|
  {
    if fs == [] then st else PutAll(Put(st, fs[0]).0, fs[1..])
  }

  lemma {:induction false} PutAllInv(st: Ring, hist: seq<Frame>, fs: seq<Frame>)
    requires ByteInv(st, hist) && WellFormed(st)
    requires forall i :: 0 <= i < |fs| ==> !TooBig(st, fs[i])
    ensures ByteInv(PutAll(st, fs), hist + fs)
    decreases |fs|
  {
    hide ByteInv, WellFormed, Put;
    if fs == [] {
      assert hist + fs == hist;
    } else {
      var t := Put(st, fs[0]).0;
      PutBytes(st, hist, fs[0]);
      SameSize(st, fs[0]);
      PutAllInv(t, hist + [fs[0]], fs[1..]);
      assert hist + fs == (hist + [fs[0]]) + fs[1..];
    }
  }

  lemma SameSize(st: Ring, f: Frame)
    requires WellFormed(st)
    ensures WellFormed(Put(st, f).0) && |Put(st, f).0.data| == |st.data|
  {
  }

  lemma {:induction false} SpanEqual(hist: seq<Frame>, n: nat, len: nat)
    requires n <= |hist| && forall i :: 0 <= i < |hist| ==> |hist[i].bytes| == len
    ensures Span(hist, 0, n) == n * len
  {
    if n > 0 {
      SpanEqual(hist, n - 1, len);
      assert n * len == (n - 1) * len + len;
    }
  }

  /** With the default slots and size, frames of 1300000 bytes, shorter than a third of the
      default arena of the sorter: eight of them stay inside the slot array, and the ninth
      leaves it. */
  lemma DefaultsLeaveArray(fs: seq<Frame>, f: Frame)
    requires |fs| <= 8 && |f.bytes| == 1300000 && forall i :: 0 <= i < |fs| ==> |fs[i].bytes| == 1300000
    ensures WellFormed(Create(RING_BUFFER_CAP_DEF, RING_BUFFER_SIZE_DEF))
    ensures var st := PutAll(Create(RING_BUFFER_CAP_DEF, RING_BUFFER_SIZE_DEF), fs);
            !TooBig(st, f) && (PutInRange(st, f) <==> |fs| < 8)
  {
    hide ByteInv, MetaInv, PutAll, PutInRange, Put;
    var s0 := Create(RING_BUFFER_CAP_DEF, RING_BUFFER_SIZE_DEF);
    CreateBytes(RING_BUFFER_CAP_DEF, RING_BUFFER_SIZE_DEF);
    ByteParts(s0, []);
    assert |s0.slots| == RING_BUFFER_CAP_DEF && |s0.data| == RING_BUFFER_SIZE_DEF;
    PutAllInv(s0, [], fs);
    assert [] + fs == fs;
    LongInRangeIff(PutAll(s0, fs), fs, f);
  }

  lemma LongInRangeIff(st: Ring, fs: seq<Frame>, f: Frame)
    requires ByteInv(st, fs) && |st.slots| == RING_BUFFER_CAP_DEF && |st.data| == RING_BUFFER_SIZE_DEF
    requires |fs| <= 8 && |f.bytes| == 1300000 && forall i :: 0 <= i < |fs| ==> |fs[i].bytes| == 1300000
    ensures WellFormed(st) && !TooBig(st, f) && (PutInRange(st, f) <==> |fs| < 8)
  {
    hide ByteInv, MetaInv, WellFormed, PutInRange, RingCover.Hit;
    ByteParts(st, fs);
    RingCover.InRangeIff(st, fs, f);
    LongHit(fs);
    assert RingCover.First(|fs|, 30) == 0 == RingCover.Last(|fs|, 30);
    SmallMod(|fs| + 1, 30);
  }

  lemma LongHit(fs: seq<Frame>)
    requires |fs| <= 8 && forall i :: 0 <= i < |fs| ==> |fs[i].bytes| == 1300000
    ensures 2 <= |fs| ==> (RingCover.Hit(fs, 0, 1300000, RING_BUFFER_SIZE_DEF) <==> |fs| == 8)
  {
    SpanEqual(fs, |fs|, 1300000);
    SmallMod(|fs| * 1300000, RING_BUFFER_SIZE_DEF);
    assert Offset(fs, 0, RING_BUFFER_SIZE_DEF) == 0;
  }

  // ---------------------------------------------------------------- a whole ring behind

  function Same(n: byte): Frame {
    Frame([n, n, n], n, FRAME_I, 0)
  }

  /** Two slots and ten bytes, after the key frames 1, 2, ... of three bytes each. */
  function Sample(n: nat): Ring {
    if n == 0 then Create(2, 10)
    else if n == 1 then Ring([1, 1, 1, 0, 0, 0, 0, 0, 0, 0], [Slot(true, 0, 3, 1, 0, 0), Slot(false, 3, 0, 0, 0, 0)], 1)
    else if n == 2 then Ring([1, 1, 1, 2, 2, 2, 0, 0, 0, 0], [Slot(true, 6, 3, 1, 0, 0), Slot(true, 3, 3, 2, 0, 0)], 2)
    else if n == 3 then Ring([1, 1, 1, 2, 2, 2, 3, 3, 3, 0], [Slot(true, 6, 3, 3, 0, 0), Slot(true, 9, 3, 2, 0, 0)], 3)
    else Ring([4, 4, 1, 2, 2, 2, 3, 3, 3, 4], [Slot(true, 2, 3, 3, 0, 0), Slot(true, 9, 3, 4, 0, 0)], 4)
  }

  lemma SamplePut(n: nat)
    requires n < 4
    ensures WellFormed(Sample(n)) && !TooBig(Sample(n), Same(n + 1)) && Put(Sample(n), Same(n + 1)) == (Sample(n + 1), 0)
  {
    hide Sample, WellFormed, Media.Write, Cover;
    SampleShape(n);
    SampleShape(n + 1);
    SampleData(n);
    SampleSlots(n);
  }

  lemma SampleShape(n: nat)
    requires n <= 4
    ensures |Sample(n).slots| == 2 && |Sample(n).data| == 10 && Sample(n).w == n && WellFormed(Sample(n))
  {
  }

  lemma SampleData(n: nat)
    requires n < 4
    ensures SlotOf(Sample(n), n).position == n * 3 && Media.Write(Sample(n).data, n * 3, Same(n + 1).bytes) == Sample(n + 1).data
  {
    hide Media.Write, SlotOf;
    var d, pos, b := Sample(n).data, n * 3, Same(n + 1).bytes;
    forall j | 0 <= j < 10 ensures Media.Write(d, pos, b)[j] == Sample(n + 1).data[j] {
      WriteAt(d, pos, b, if j >= pos then j - pos else j - pos + 10);
    }
    SampleStart(n);
  }

  lemma SampleStart(n: nat)
    requires n < 4
    ensures SlotOf(Sample(n), n).position == n * 3
  {
  }

  /** In a ring of two slots the cover loop looks at none. */
  lemma SampleSlots(n: nat)
    requires n < 4
    ensures var slots := Sample(n).slots[n % 2 := Slot(true, n * 3, 3, n + 1, FRAME_I, 0)];
            && Cover(slots, n * 3, EndOf(10, n * 3, 3), (n + 1) % 2) == slots
            && Sample(n + 1).slots == slots[(n + 1) % 2 := slots[(n + 1) % 2].(position := Around(n * 3, 3, 10))]
  {
  }

  lemma SampleFirstRead(ask: Ask)
    requires ask.maxLen >= 3 && !ask.byTime
    ensures Get(Sample(2), Reader(0, true), ask) == (Reader(2, false), Delivered(1, Same(2)))
  {
    var st := Sample(2);
    assert KeyAt(st, 1);
    assert JumpNewest(st, Reader(0, true)) == (Reader(1, true), true);
    assert FrameAt(st, 1).bytes == [2, 2, 2];
  }

  /** A reader whose lag is exactly `uiMaxValidFrames` is not sent on, its slot is still
      valid, and it is given other bytes than were put: after its first read it has fallen
      two frames behind in a ring of two. */
  lemma WholeRingLagMisreads(ask: Ask)
    requires ask.maxLen >= 3 && !ask.byTime
    ensures Roomy([Same(1), Same(2), Same(3), Same(4)], 2, 10)
    ensures Sample(0) == Create(2, 10)
    ensures forall n: nat :: n < 4 ==> WellFormed(Sample(n)) && Put(Sample(n), Same(n + 1)) == (Sample(n + 1), 0)
    ensures var rd := Get(Sample(2), Reader(0, true), ask).0;
            var (_, got) := Get(Sample(4), rd, ask);
            Sample(4).w - rd.r == 2 && got.Delivered? && got.k == 2 && got.frame != Same(3)
  {
    SampleFirstRead(ask);
    forall n: nat | n < 4 ensures WellFormed(Sample(n)) && Put(Sample(n), Same(n + 1)) == (Sample(n + 1), 0) {
      SamplePut(n);
    }
    assert Sample(0).data == Create(2, 10).data;
    var st := Sample(4);
    assert FrameAt(st, 2).bytes == [1, 2, 2];
    var h := [Same(1), Same(2), Same(3), Same(4)];
    forall a, b | 0 <= a <= b <= 4 && b - a <= 2 ensures Span(h, a, b) < 10 {
      ShortSpan(h, a, b);
    }
  }

  lemma ShortSpan(h: seq<Frame>, a: nat, b: nat)
    requires a <= b <= |h| && b <= a + 2 && forall i :: 0 <= i < |h| ==> |h[i].bytes| == 3
    ensures Span(h, a, b) < 10
  {
    if b == a + 2 {
      assert Span(h, a, a + 1) == 3;
    }
  }

  // ---------------------------------------------------------------- three frames behind

  /** A key frame of `len` bytes, all of them `n`. */
  function Key(n: byte, len: nat): Frame {
    Frame(seq(len, _ => n), n, FRAME_I, 0)
  }

  function Used(position: nat, len: nat, ts: nat): Slot {
    Slot(true, position, len, ts, FRAME_I, 0)
  }

  function Gone(position: nat, len: nat, ts: nat): Slot {
    Slot(false, position, len, ts, FRAME_I, 0)
  }

  function LenOf(n: nat): nat {
    if n < 4 then 2 else 4
  }

  /** Five slots and ten bytes, after the first `n` of four key frames of two bytes and
      three of four. */
  function Crowded(n: nat): Ring {
    if n == 0 then Create(5, 10)
    else if n == 1 then
      Ring([1, 1, 0, 0, 0, 0, 0, 0, 0, 0], [Used(0, 2, 1), Gone(2, 0, 0), Gone(0, 0, 0), Gone(0, 0, 0), Gone(0, 0, 0)], 1)
    else if n == 2 then
      Ring([1, 1, 2, 2, 0, 0, 0, 0, 0, 0], [Used(0, 2, 1), Used(2, 2, 2), Gone(4, 0, 0), Gone(0, 0, 0), Gone(0, 0, 0)], 2)
    else if n == 3 then
      Ring([1, 1, 2, 2, 3, 3, 0, 0, 0, 0], [Used(0, 2, 1), Used(2, 2, 2), Used(4, 2, 3), Gone(6, 0, 0), Gone(0, 0, 0)], 3)
    else if n == 4 then
      Ring([1, 1, 2, 2, 3, 3, 4, 4, 0, 0], [Used(0, 2, 1), Used(2, 2, 2), Used(4, 2, 3), Used(6, 2, 4), Gone(8, 0, 0)], 4)
    else if n == 5 then
      Ring([5, 5, 2, 2, 3, 3, 4, 4, 5, 5], [Gone(2, 2, 1), Gone(2, 2, 2), Used(4, 2, 3), Used(6, 2, 4), Used(8, 4, 5)], 5)
    else if n == 6 then
      Ring([5, 5, 6, 6, 6, 6, 4, 4, 5, 5], [Used(2, 4, 6), Gone(6, 2, 2), Gone(4, 2, 3), Gone(6, 2, 4), Used(8, 4, 5)], 6)
    else
      Ring([5, 5, 6, 6, 6, 6, 7, 7, 7, 7], [Used(2, 4, 6), Used(6, 4, 7), Gone(0, 2, 3), Gone(6, 2, 4), Used(8, 4, 5)], 7)
  }

  /** Where frame `n` starts, and up to which slot the cover loop then clears. */
  function StartOf(n: nat): nat {
    if n <= 4 then 2 * n else if n == 5 then 2 else 6
  }

  function ClearsTo(n: nat): nat {
    if n == 0 then 4 else if n < 4 then n + 1 else if n == 4 then 2 else if n == 5 then 4 else 2
  }

  lemma CrowdedShape(n: nat)
    requires n <= 7
    ensures var st := Crowded(n); |st.slots| == 5 && |st.data| == 10 && st.w == n && WellFormed(st)
  {
  }

  lemma CrowdedData(n: nat)
    requires n < 7
    ensures Media.Write(Crowded(n).data, StartOf(n), Key(n + 1, LenOf(n)).bytes) == Crowded(n + 1).data
  {
    hide Media.Write;
    var d, pos, b := Crowded(n).data, StartOf(n), Key(n + 1, LenOf(n)).bytes;
    forall j | 0 <= j < 10 ensures Media.Write(d, pos, b)[j] == Crowded(n + 1).data[j] {
      WriteAt(d, pos, b, if j >= pos then j - pos else j - pos + 10);
    }
  }

  /** The slots as the cover loop finds them. */
  function Filling(n: nat): seq<Slot>
    requires n < 7
  {
    CrowdedShape(n);
    Crowded(n).slots[n % 5 := Used(StartOf(n), LenOf(n), n + 1)]
  }

  lemma CrowdedRun(n: nat)
    requires n < 7
    ensures var slots, next, end := Filling(n), (n + 1) % 5, EndOf(10, StartOf(n), LenOf(n));
            && |slots| == 5 && end >= 0 && next <= ClearsTo(n) <= CoverLimit(slots, next)
            && (forall i :: next <= i < ClearsTo(n) ==> Covered(slots[i].position, StartOf(n), end))
            && ClearsTo(n) < 5
            && (ClearsTo(n) < CoverLimit(slots, next) ==> !Covered(slots[ClearsTo(n)].position, StartOf(n), end))
            && (next <= 2 || !Covered(slots[ClearsTo(n)].position, StartOf(n), end))
  {
  }

  lemma RunEndIs(slots: seq<Slot>, start: nat, end: nat, next: nat, limit: nat, e: nat)
    requires next <= e <= limit <= |slots|
    requires forall i :: next <= i < e ==> Covered(slots[i].position, start, end)
    requires e < limit ==> !Covered(slots[e].position, start, end)
    ensures RunEnd(slots, start, end, next, limit) == e
  {
    hide Covered;
  }

  lemma CrowdedSlots(n: nat)
    requires n < 7
    ensures var slots, next := Clear(Filling(n), (n + 1) % 5, ClearsTo(n)), (n + 1) % 5;
            && |slots| == 5
            && Crowded(n + 1).slots == slots[next := slots[next].(position := Around(StartOf(n), LenOf(n), 10))]
  {
  }

  lemma CrowdedPut(n: nat)
    requires n < 7
    ensures var st, f := Crowded(n), Key(n + 1, LenOf(n));
            WellFormed(st) && PutInRange(st, f) && Put(st, f) == (Crowded(n + 1), 0)
  {
    var st, f := Crowded(n), Key(n + 1, LenOf(n));
    CrowdedShape(n);
    CrowdedShape(n + 1);
    CrowdedFilled(n);
    CrowdedData(n);
    CrowdedRun(n);
    CrowdedSlots(n);
    ModNext(n, 5);
    var slots, pos, next, end := Filling(n), StartOf(n), (n + 1) % 5, EndOf(10, StartOf(n), LenOf(n));
    hide Crowded, WellFormed, Media.Write, Filling, Clear, RunEnd, Covered, StartOf, ClearsTo, EndOf;
    RunEndIs(slots, pos, end, next, CoverLimit(slots, next), ClearsTo(n));
    if next > 2 {
      RunEndIs(slots, pos, end, next, 5, ClearsTo(n));
    }
  }

  lemma CrowdedFilled(n: nat)
    requires n < 7
    ensures var st, f := Crowded(n), Key(n + 1, LenOf(n));
            && |st.slots| == 5 && WellFormed(st) && !TooBig(st, f) && |f.bytes| == LenOf(n)
            && SlotOf(st, n).position == StartOf(n)
            && st.slots[n % 5 := Filled(st, f)] == Filling(n)
            && |Filling(n)| == 5
  {
    CrowdedShape(n);
  }

  lemma CrowdedFirstRead(ask: Ask)
    requires ask.maxLen >= 4 && !ask.byTime
    ensures Get(Crowded(4), Reader(0, true), ask) == (Reader(4, false), Delivered(3, Key(4, 2)))
  {
    var st := Crowded(4);
    assert KeyAt(st, 3);
    assert JumpNewest(st, Reader(0, true)) == (Reader(3, true), true);
    assert FrameAt(st, 3).bytes == Key(4, 2).bytes;
  }

  /** All writes stay inside the slot array and a reader is only three frames behind in a
      ring of five, but it is given other bytes than were put: the loop stopped at a start
      that is left over from the round before, and the frame written over stayed valid. */
  lemma SmallLagMisreads(ask: Ask)
    requires ask.maxLen >= 4 && !ask.byTime
    ensures Crowded(0) == Create(5, 10)
    ensures forall n: nat :: n < 7 ==>
              WellFormed(Crowded(n)) && PutInRange(Crowded(n), Key(n + 1, LenOf(n)))
              && Put(Crowded(n), Key(n + 1, LenOf(n))) == (Crowded(n + 1), 0)
    ensures var rd := Get(Crowded(4), Reader(0, true), ask).0;
            var (_, got) := Get(Crowded(7), rd, ask);
            Crowded(7).w - rd.r == 3 && got.Delivered? && got.k == 4 && got.frame != Key(5, 4)
  {
    forall n: nat | n < 7
      ensures WellFormed(Crowded(n)) && PutInRange(Crowded(n), Key(n + 1, LenOf(n)))
      ensures Put(Crowded(n), Key(n + 1, LenOf(n))) == (Crowded(n + 1), 0)
    {
      CrowdedPut(n);
    }
    CrowdedFirstRead(ask);
    var st := Crowded(7);
    assert FrameAt(st, 4).bytes == [7, 7, 5, 5];
    assert FrameAt(st, 4).bytes[0] != Key(5, 4).bytes[0];
  }
}
