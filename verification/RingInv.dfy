/** What the frame ring keeps of the frames put into it. */
module RingInv {
  import opened Media
  import opened RingSpec

  // ---------------------------------------------------------------- slots round the ring

  lemma ModUnique(a: nat, b: nat, m: nat)
    requires a <= b < a + m && a % m == b % m
    ensures a == b
  {
    var q, p := a / m, b / m;
    assert b - a == p * m - q * m;
    AtLeastOnce(p - q, m);
    assert p * m - q * m == (p - q) * m;
  }

  lemma AtLeastOnce(d: int, m: nat)
    requires 0 < m
    ensures d >= 1 ==> d * m >= m
    ensures d <= -1 ==> d * m + m <= 0
  {
  }

  lemma ModNext(a: nat, m: nat)
    requires 0 < m
    ensures (a % m + 1) % m == (a + 1) % m
  {
    var q := a / m;
    assert a + 1 == q * m + (a % m + 1);
    ModShift(a % m + 1, q, m);
  }

  lemma {:induction false} ModShift(a: nat, q: nat, m: nat)
    requires 0 < m
    ensures (q * m + a) % m == a % m
    decreases q
  {
    if q > 0 {
      ModShift(a, q - 1, m);
      assert q * m + a == ((q - 1) * m + a) + m;
      ModAdd((q - 1) * m + a, m);
    }
  }

  lemma ModAdd(a: nat, m: nat)
    requires 0 < m
    ensures (a + m) % m == a % m
  {
    var d := (a + m) / m - a / m - 1;
    assert ((a + m) / m) * m - (a / m) * m - m == d * m;
    AtLeastOnce(d, m);
  }

  // ---------------------------------------------------------------- metadata

  predicate SlotHas(s: Slot, f: Frame) {
    s.len == |f.bytes| && s.ts == f.ts && s.kind == f.kind && s.priority == f.priority
  }

  /** Every frame that still has a slot has its length, timestamp, type and priority
      there; slots not yet written are not valid. */
  ghost predicate MetaInv(st: Ring, hist: seq<Frame>) {
    && WellFormed(st)
    && |hist| == st.w
    && (forall k :: Oldest(st) <= k < st.w ==> SlotHas(SlotOf(st, k), hist[k]))
    && (forall i :: st.w <= i < |st.slots| ==> !st.slots[i].valid)
  }

  lemma CreateMeta(frames: nat, size: nat)
    requires 2 <= frames && 0 < size
    ensures MetaInv(Create(frames, size), [])
  {
  }

  /** Only the slot of the new frame gets new metadata, and only it can become valid. */
  lemma PutSlots(st: Ring, f: Frame)
    requires WellFormed(st) && !TooBig(st, f)
    ensures var t := Put(st, f).0;
            && t.w == st.w + 1
            && SlotHas(SlotOf(t, st.w), f) && SlotOf(t, st.w).position == SlotOf(st, st.w).position
            && SlotOf(t, st.w).valid
            && (forall i :: 0 <= i < |st.slots| && i != st.w % |st.slots| ==>
                  && t.slots[i] == st.slots[i].(valid := t.slots[i].valid, position := t.slots[i].position)
                  && (t.slots[i].valid ==> st.slots[i].valid)
                  && (i != (st.w + 1) % |st.slots| ==> t.slots[i].position == st.slots[i].position))
            && SlotOf(t, st.w + 1).position == Around(SlotOf(st, st.w).position, |f.bytes|, |st.data|)
  {
    var m, w := |st.slots|, st.w % |st.slots|;
    ModNext(st.w, m);
    var next := (w + 1) % m;
    assert next != w by {
      if next == w { ModUnique(st.w, st.w + 1, m); }
    }
    NeverOwnSlot(m, st.w);
  }

  /** The cover loop starts behind the slot just filled and stops before it comes round. */
  lemma NeverOwnSlot(m: nat, k: nat)
    requires 2 <= m
    ensures var w, next := k % m, (k % m + 1) % m;
            !(next <= w < (if next + (m - 2) <= m then next + (m - 2) else m))
  {
    var w := k % m;
    if w + 1 < m {
      assert (w + 1) % m == w + 1;
    } else {
      assert (w + 1) % m == 0;
    }
  }

  lemma OtherSlot(st: Ring, k: nat)
    requires 2 <= |st.slots| && k < st.w && st.w - k < |st.slots|
    ensures k % |st.slots| != st.w % |st.slots|
    ensures st.w - k < |st.slots| - 1 ==> k % |st.slots| != (st.w + 1) % |st.slots|
  {
    if k % |st.slots| == st.w % |st.slots| {
      ModUnique(k, st.w, |st.slots|);
    }
    if st.w + 1 - k < |st.slots| && k % |st.slots| == (st.w + 1) % |st.slots| {
      ModUnique(k, st.w + 1, |st.slots|);
    }
  }

  lemma PutMeta(st: Ring, hist: seq<Frame>, f: Frame)
    requires MetaInv(st, hist) && !TooBig(st, f)
    ensures MetaInv(Put(st, f).0, hist + [f])
  {
    var t, m := Put(st, f).0, |st.slots|;
    PutSlots(st, f);
    forall k | Oldest(t) <= k < t.w ensures SlotHas(SlotOf(t, k), (hist + [f])[k]) {
      if k < st.w {
        OtherSlot(st, k);
        assert SlotHas(SlotOf(st, k), hist[k]);
        KeepsMeta(st, f, k);
      }
    }
    forall i | t.w <= i < m ensures !t.slots[i].valid {
      SmallMod(st.w, m);
    }
  }

  lemma SmallMod(k: nat, m: nat)
    requires k < m
    ensures k % m == k
  {
  }

  lemma KeepsMeta(st: Ring, f: Frame, k: nat)
    requires WellFormed(st) && !TooBig(st, f) && k % |st.slots| != st.w % |st.slots|
    ensures var t, a, b := Put(st, f).0, SlotOf(Put(st, f).0, k), SlotOf(st, k);
            a.len == b.len && a.ts == b.ts && a.kind == b.kind && a.priority == b.priority
  {
    PutSlots(st, f);
  }

  // ---------------------------------------------------------------- bytes

  /** The bytes of the frames from `a` on, up to and without `b`. */
  function Span(hist: seq<Frame>, a: nat, b: nat): nat
    requires a <= b <= |hist|
    decreases b
  {
    if a == b then 0 else Span(hist, a, b - 1) + |hist[b - 1].bytes|
  }

  lemma {:induction false} SpanSplit(hist: seq<Frame>, a: nat, b: nat, c: nat)
    requires a <= b <= c <= |hist|
    ensures Span(hist, a, c) == Span(hist, a, b) + Span(hist, b, c)
    decreases c
  {
    if b < c {
      SpanSplit(hist, a, b, c - 1);
    }
  }

  lemma {:induction false} SpanPrefix(hist: seq<Frame>, more: seq<Frame>, a: nat, b: nat)
    requires a <= b <= |hist| && hist <= more
    ensures Span(more, a, b) == Span(hist, a, b)
    decreases b
  {
    if a < b {
      SpanPrefix(hist, more, a, b - 1);
    }
  }

  /** The first frame of a run is part of it. */
  lemma SpanFirst(hist: seq<Frame>, a: nat, b: nat)
    requires a < b <= |hist|
    ensures Span(hist, a, b) == |hist[a].bytes| + Span(hist, a + 1, b)
  {
    SpanSplit(hist, a, a + 1, b);
    assert Span(hist, a, a + 1) == |hist[a].bytes|;
  }

  /** The ring takes frames shorter than half the buffer only. */
  predicate Halves(hist: seq<Frame>, size: nat) {
    forall k :: 0 <= k < |hist| ==> 2 * |hist[k].bytes| < size
  }

  /** Where frame `k` starts: the bytes before it, less whole rounds of the byte ring. */
  function Offset(hist: seq<Frame>, k: nat, size: nat): nat
    requires k <= |hist|
  {
    if size == 0 then 0 else Span(hist, 0, k) % size
  }

  lemma OffsetPrefix(hist: seq<Frame>, more: seq<Frame>, k: nat, size: nat)
    requires k <= |hist| && hist <= more
    ensures Offset(more, k, size) == Offset(hist, k, size)
  {
    SpanPrefix(hist, more, 0, k);
  }

  lemma ModDrop(t: nat, n: nat, m: nat)
    requires 0 < m
    ensures (t + n) % m == (t % m + n) % m
  {
    var q, g := t / m, t % m;
    assert t == q * m + g;
    ModShift(g + n, q, m);
  }

  lemma ModPlus(t: nat, n: nat, m: nat)
    requires 0 < m
    ensures 0 <= t % m < m && (t + n) % m == Around(t % m, n % m, m)
  {
    var g, h := t % m, n % m;
    ModDrop(t, n, m);
    ModDrop(n, g, m);
    if g + h < m {
      SmallMod(g + h, m);
    } else {
      ModAdd(g + h - m, m);
      SmallMod(g + h - m, m);
    }
  }

  /** From frame `a` to frame `b` it is the bytes between them, less whole rounds. */
  lemma OffsetGap(hist: seq<Frame>, a: nat, b: nat, size: nat)
    requires a <= b <= |hist| && 0 < size
    ensures Offset(hist, a, size) < size && Offset(hist, b, size) < size
    ensures Offset(hist, b, size) == Around(Offset(hist, a, size), Span(hist, a, b) % size, size)
  {
    SpanSplit(hist, 0, a, b);
    hide Span;
    ModPlus(Span(hist, 0, a), Span(hist, a, b), size);
  }

  /** Every frame that still has its own slot, all but the one whose slot is next, has its
      start there, and every frame that is not a whole buffer behind has its bytes. */
  ghost predicate ByteInv(st: Ring, hist: seq<Frame>) {
    && MetaInv(st, hist)
    && Halves(hist, |st.data|)
    && SlotOf(st, st.w).position == Offset(hist, st.w, |st.data|)
    && (forall k :: 0 <= k < st.w && st.w - k < |st.slots| ==> SlotOf(st, k).position == Offset(hist, k, |st.data|))
    && (forall k :: 0 <= k < st.w && Span(hist, k, st.w) <= |st.data| ==>
          Read(st.data, Offset(hist, k, |st.data|), |hist[k].bytes|) == hist[k].bytes)
    && (forall i :: st.w < i < |st.slots| ==> st.slots[i].position == 0)
  }

  lemma CreateBytes(frames: nat, size: nat)
    requires 2 <= frames && 0 < size
    ensures ByteInv(Create(frames, size), [])
  {
  }

  lemma MetaParts(st: Ring, hist: seq<Frame>)
    requires MetaInv(st, hist)
    ensures WellFormed(st) && |hist| == st.w
    ensures 0 < |st.data|
  {
    assert st.slots[0].position < |st.data|;
  }

  lemma ByteParts(st: Ring, hist: seq<Frame>)
    requires ByteInv(st, hist)
    ensures MetaInv(st, hist) && WellFormed(st) && |hist| == st.w && 0 < |st.data| && Halves(hist, |st.data|)
    ensures SlotOf(st, st.w).position == Offset(hist, st.w, |st.data|)
  {
    MetaParts(st, hist);
  }

  lemma BytesOf(st: Ring, hist: seq<Frame>, k: nat)
    requires ByteInv(st, hist) && k < st.w && Span(hist, k, st.w) <= |st.data|
    ensures Read(st.data, Offset(hist, k, |st.data|), |hist[k].bytes|) == hist[k].bytes
  {
  }

  lemma PositionOf(st: Ring, hist: seq<Frame>, k: nat)
    requires ByteInv(st, hist) && k < st.w && st.w - k < |st.slots|
    ensures SlotOf(st, k).position == Offset(hist, k, |st.data|)
  {
  }

  /** What was written less than a whole buffer ago is not written over. */
  lemma PutKeepsBytes(st: Ring, hist: seq<Frame>, f: Frame, k: nat)
    requires ByteInv(st, hist) && !TooBig(st, f) && k < st.w
    requires Span(hist, k, st.w) + |f.bytes| <= |st.data|
    ensures Read(Put(st, f).0.data, Offset(hist, k, |st.data|), |hist[k].bytes|) == hist[k].bytes
  {
    var size, gap := |st.data|, Span(hist, k, st.w);
    ByteParts(st, hist);
    BytesOf(st, hist, k);
    PutData(st, f);
    SpanFirst(hist, k, st.w);
    OffsetGap(hist, k, st.w, size);
    hide ByteInv, MetaInv, WellFormed, Offset, Span, Halves, Read, Write, Put, TooBig;
    RoundOnce(Offset(hist, k, size), gap, size);
    ReadElsewhere(st.data, Offset(hist, k, size), |hist[k].bytes|, gap, f.bytes);
  }

  lemma RoundOnce(a: nat, gap: nat, size: nat)
    requires a < size && gap <= size
    ensures Around(a, gap % size, size) == Around(a, gap, size)
  {
    if gap < size {
      SmallMod(gap, size);
    } else {
      ModAdd(0, size);
      SmallMod(0, size);
    }
  }

  lemma PutData(st: Ring, f: Frame)
    requires WellFormed(st) && !TooBig(st, f)
    ensures Put(st, f).0.data == Write(st.data, SlotOf(st, st.w).position, f.bytes)
  {
  }

  lemma PutNewBytes(st: Ring, hist: seq<Frame>, f: Frame)
    requires ByteInv(st, hist) && !TooBig(st, f)
    ensures Read(Put(st, f).0.data, Offset(hist, st.w, |st.data|), |f.bytes|) == f.bytes
  {
    ByteParts(st, hist);
    hide ByteInv, MetaInv, Read, Write, Cover;
    ReadWritten(st.data, SlotOf(st, st.w).position, f.bytes);
  }

  lemma PutPositions(st: Ring, hist: seq<Frame>, f: Frame, k: nat)
    requires ByteInv(st, hist) && !TooBig(st, f) && k <= st.w + 1 && st.w + 1 - k < |st.slots|
    ensures SlotOf(Put(st, f).0, k).position == Offset(hist + [f], k, |st.data|)
  {
    ByteParts(st, hist);
    PutSlots(st, f);
    OffsetPrefix(hist, hist + [f], if k <= st.w then k else st.w, |st.data|);
    if k < st.w {
      PositionOf(st, hist, k);
      OtherSlot(st, k);
    }
    hide ByteInv, MetaInv, Put, Offset;
    if k == st.w + 1 {
      OffsetGap(hist + [f], st.w, st.w + 1, |st.data|);
      assert Span(hist + [f], st.w, st.w + 1) == |f.bytes|;
      SmallMod(|f.bytes|, |st.data|);
    }
  }

  /** Whatever is put, starts and bytes stay as the lengths say (for the code: as long as the
      put stays inside the slot array). */
  lemma PutBytes(st: Ring, hist: seq<Frame>, f: Frame)
    requires ByteInv(st, hist) && !TooBig(st, f)
    ensures ByteInv(Put(st, f).0, hist + [f])
  {
    var t, all := Put(st, f).0, hist + [f];
    PutMeta(st, hist, f);
    PutUnused(st, hist, f);
    ByteParts(st, hist);
    hide ByteInv, MetaInv, Put, Offset, Read, Span, Halves;
    PutHalves(st, hist, f);
    forall k: nat | k <= t.w && t.w - k < |t.slots| ensures SlotOf(t, k).position == Offset(all, k, |t.data|) {
      PutPositions(st, hist, f, k);
    }
    forall k: nat | k < t.w && Span(all, k, t.w) <= |t.data|
      ensures Read(t.data, Offset(all, k, |t.data|), |all[k].bytes|) == all[k].bytes
    {
      PutBytesOf(st, hist, f, k);
    }
    BytesWhole(t, all);
  }

  lemma PutHalves(st: Ring, hist: seq<Frame>, f: Frame)
    requires Halves(hist, |st.data|) && !TooBig(st, f)
    requires WellFormed(st) && |hist| == st.w
    ensures Halves(hist + [f], |st.data|) && Put(st, f).0.w == |hist| + 1
    ensures |Put(st, f).0.data| == |st.data| && |Put(st, f).0.slots| == |st.slots|
  {
  }

  lemma PutBytesOf(st: Ring, hist: seq<Frame>, f: Frame, k: nat)
    requires ByteInv(st, hist) && !TooBig(st, f) && k <= st.w == |hist|
    requires Span(hist + [f], k, st.w + 1) <= |st.data|
    ensures var all := hist + [f];
            Read(Put(st, f).0.data, Offset(all, k, |st.data|), |all[k].bytes|) == all[k].bytes
  {
    hide ByteInv, Put, Read;
    OffsetPrefix(hist, hist + [f], k, |st.data|);
    SpanPrefix(hist, hist + [f], k, st.w);
    if k < st.w {
      PutKeepsBytes(st, hist, f, k);
    } else {
      PutNewBytes(st, hist, f);
    }
  }

  lemma BytesWhole(st: Ring, hist: seq<Frame>)
    requires MetaInv(st, hist) && Halves(hist, |st.data|) && |hist| == st.w
    requires 2 <= |st.slots|
    requires forall k: nat :: k <= st.w && st.w - k < |st.slots| ==> SlotOf(st, k).position == Offset(hist, k, |st.data|)
    requires forall k: nat :: k < st.w && Span(hist, k, st.w) <= |st.data| ==>
               Read(st.data, Offset(hist, k, |st.data|), |hist[k].bytes|) == hist[k].bytes
    requires forall i :: st.w < i < |st.slots| ==> st.slots[i].position == 0
    ensures ByteInv(st, hist)
  {
    hide MetaInv, Span, Offset, Halves, Read;
    assert SlotOf(st, st.w).position == Offset(hist, st.w, |st.data|);
  }

  lemma PutUnused(st: Ring, hist: seq<Frame>, f: Frame)
    requires ByteInv(st, hist) && !TooBig(st, f)
    ensures var t := Put(st, f).0; forall i :: t.w < i < |st.slots| ==> t.slots[i].position == 0
  {
    PutSlots(st, f);
    hide MetaInv, Put;
    var t, m := Put(st, f).0, |st.slots|;
    forall i | t.w < i < m ensures t.slots[i].position == 0 {
      SmallMod(st.w, m);
      SmallMod(st.w + 1, m);
    }
  }

  // ---------------------------------------------------------------- exactly when

  /** From frame `k` on at most a buffer has been put, and its slot still says where it
      is: it lags by less than `m`, or has come round to where it was. */
  predicate Intact(hist: seq<Frame>, k: nat, m: nat, size: nat)
    requires k <= |hist|
  {
    Span(hist, k, |hist|) <= size && (|hist| - k < m || Span(hist, k, |hist|) == size)
  }

  /** A reader of an intact frame gets exactly what was put, valid flags or not. */
  lemma ReadsExactly(st: Ring, hist: seq<Frame>, k: nat)
    requires ByteInv(st, hist) && Oldest(st) <= k < st.w && Intact(hist, k, |st.slots|, |st.data|)
    ensures FrameAt(st, k) == hist[k]
  {
    assert SlotHas(SlotOf(st, k), hist[k]);
    hide ByteInv, MetaInv, WellFormed, Read, Offset, Span;
    ByteParts(st, hist);
    BytesOf(st, hist, k);
    if st.w - k < |st.slots| {
      PositionOf(st, hist, k);
    } else {
      ModAdd(k, |st.slots|);
      OffsetGap(hist, k, st.w, |st.data|);
      RoundOnce(Offset(hist, k, |st.data|), |st.data|, |st.data|);
    }
  }

  /** A byte of frame `k` has been written again by a later frame. */
  ghost predicate Rewritten(hist: seq<Frame>, k: nat, size: nat)
    requires k < |hist|
  {
    exists j, x, y :: k < j < |hist| && Meet(hist, k, x, j, y, size)
  }

  /** Byte `x` of frame `k` lies where byte `y` of frame `j` does. */
  predicate Meet(hist: seq<Frame>, k: nat, x: int, j: int, y: int, size: nat)
    requires k < |hist| && 0 <= j < |hist|
  {
    && 0 <= x < |hist[k].bytes| && 0 <= y < |hist[j].bytes|
    && Around(Offset(hist, k, size), x, size) == Around(Offset(hist, j, size), y, size)
  }

  /** A frame is rewritten if and only if more than a buffer has been put from it on. */
  lemma RewrittenIff(hist: seq<Frame>, k: nat, size: nat)
    requires Halves(hist, size) && k < |hist| && 0 < |hist[k].bytes|
    ensures Rewritten(hist, k, size) <==> Span(hist, k, |hist|) > size
  {
    if Span(hist, k, |hist|) > size {
      var j := Reacher(hist, k, |hist|, size);
      OffsetGap(hist, k, j, size);
      RoundOnce(Offset(hist, k, size), Span(hist, k, j), size);
      assert Meet(hist, k, 0, j, size - Span(hist, k, j), size);
    } else {
      forall j, x, y | k < j < |hist| && Meet(hist, k, x, j, y, size) ensures false {
        NotReached(hist, k, x, j, y, size);
      }
    }
  }

  /** The frame with which the total from `k` on first exceeds the buffer. */
  lemma {:induction false} Reacher(hist: seq<Frame>, k: nat, n: nat, size: nat) returns (j: nat)
    requires Halves(hist, size) && k < n <= |hist| && Span(hist, k, n) > size
    ensures k < j < n && Span(hist, k, j) <= size < Span(hist, k, j) + |hist[j].bytes|
    decreases n
  {
    j := n - 1;
    if Span(hist, k, n - 1) > size {
      j := Reacher(hist, k, n - 1, size);
    }
  }

  lemma NotReached(hist: seq<Frame>, k: nat, x: int, j: nat, y: int, size: nat)
    requires Halves(hist, size) && k < j < |hist| && Span(hist, k, |hist|) <= size
    ensures !Meet(hist, k, x, j, y, size)
  {
    SpanSplit(hist, k, j, |hist|);
    SpanFirst(hist, j, |hist|);
    SpanFirst(hist, k, j);
    if 0 <= x < |hist[k].bytes| && 0 <= y < |hist[j].bytes| {
      var g := Span(hist, k, j);
      OffsetGap(hist, k, j, size);
      SmallMod(g, size);
      hide Offset, Span;
      assert x < g && g + y < size;
    }
  }

  /** The slot of a retained frame says where the frame is, and none of its bytes has been
      written again, if and only if it is intact. */
  lemma ExactIff(st: Ring, hist: seq<Frame>, k: nat)
    requires ByteInv(st, hist) && Oldest(st) <= k < st.w == |hist| && 0 < |hist[k].bytes|
    ensures SlotOf(st, k).position == Offset(hist, k, |st.data|) && !Rewritten(hist, k, |st.data|)
       <==> Intact(hist, k, |st.slots|, |st.data|)
  {
    ByteParts(st, hist);
    hide ByteInv, MetaInv, WellFormed, Offset, Span, Rewritten, Halves;
    RewrittenIff(hist, k, |st.data|);
    if st.w - k < |st.slots| {
      PositionOf(st, hist, k);
    } else if Span(hist, k, st.w) <= |st.data| {
      WholeLag(st, hist, k);
    }
  }

  /** A frame whose slot is the next one: the slot says where the new frame will start. */
  lemma WholeLag(st: Ring, hist: seq<Frame>, k: nat)
    requires ByteInv(st, hist) && k < st.w == |hist| && st.w - k == |st.slots| && 0 < |hist[k].bytes|
    requires Span(hist, k, st.w) <= |st.data|
    ensures SlotOf(st, k).position == Offset(hist, k, |st.data|) <==> Span(hist, k, st.w) == |st.data|
  {
    hide ByteInv, MetaInv, WellFormed, Offset, Span;
    var size, gap := |st.data|, Span(hist, k, st.w);
    ByteParts(st, hist);
    SpanFirst(hist, k, st.w);
    OffsetGap(hist, k, st.w, size);
    ModAdd(k, |st.slots|);
    RoundOnce(Offset(hist, k, size), gap, size);
  }

  // ---------------------------------------------------------------- roomy histories

  /** Any `m` consecutive frames, and fewer, are together shorter than the buffer. */
  predicate Roomy(hist: seq<Frame>, m: nat, size: nat) {
    && (forall k :: 0 <= k < |hist| ==> 0 < |hist[k].bytes|)
    && (forall a, b :: 0 <= a <= b <= |hist| && b - a <= m ==> Span(hist, a, b) < size)
  }

  lemma RoomyPrefix(hist: seq<Frame>, more: seq<Frame>, m: nat, size: nat)
    requires Roomy(more, m, size) && hist <= more
    ensures Roomy(hist, m, size)
  {
    forall a, b | 0 <= a <= b <= |hist| && b - a <= m ensures Span(hist, a, b) < size {
      SpanPrefix(hist, more, a, b);
    }
  }

  /** In a roomy history every frame that lags by less than `m` is intact. */
  lemma RoomyIntact(hist: seq<Frame>, k: nat, m: nat, size: nat)
    requires Roomy(hist, m, size) && k < |hist| && |hist| - k < m
    ensures Intact(hist, k, m, size)
  {
  }
}
