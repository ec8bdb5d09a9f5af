/**
 The cover loop of stream_buff.c on every reachable ring: when it stays inside the slot
 array, what it clears, and what a write touches.
 */
module RingCover {
  import opened Media
  import opened RingSpec
  import opened RingInv

  // ---------------------------------------------------------------- the slots it can look at

  /** The slot behind the one that is written. */
  function Next(w: nat, m: nat): (r: nat)
    requires 0 < m
    ensures r < m
  {
    (w + 1) % m
  }

  /** The oldest frame that the slots from the next one on say the start of.  Slots that
      are not yet written have position 0, as if they held frame 0. */
  function First(w: nat, m: nat): nat {
    if w + 1 < m then 0 else w + 1 - m
  }

  /** The frame that the last slot of the array says the start of. */
  function Last(w: nat, m: nat): nat
    requires 0 < m
  {
    if w + 1 < m then 0 else w - Next(w, m)
  }

  /** The frame that slot `i`, from the next one on, says the start of. */
  function HeldBy(w: nat, m: nat, i: nat): nat
    requires 0 < m && Next(w, m) <= i < m
  {
    if w + 1 < m then 0 else w + 1 - m + (i - Next(w, m))
  }

  lemma WindowSlot(st: Ring, hist: seq<Frame>, i: nat)
    requires ByteInv(st, hist) && Next(st.w, |st.slots|) <= i < |st.slots|
    ensures var k := HeldBy(st.w, |st.slots|, i);
            k <= st.w == |hist| && st.slots[i].position == Offset(hist, k, |st.data|)
  {
    var m, w := |st.slots|, st.w;
    ByteParts(st, hist);
    if w + 1 < m {
      SmallMod(w + 1, m);
      SmallMod(0, |st.data|);
    } else {
      HeldMod(w, m, i);
      var k := HeldBy(w, m, i);
      hide Offset, MetaInv, Span, Read;
      if k < w {
        PositionOf(st, hist, k);
      }
    }
  }

  lemma HeldMod(w: nat, m: nat, i: nat)
    requires 0 < m <= w + 1 && Next(w, m) <= i < m
    ensures HeldBy(w, m, i) % m == i && w < HeldBy(w, m, i) + m
  {
    var q, next := (w + 1) / m, Next(w, m);
    assert w + 1 == q * m + next;
    assert q >= 1;
    assert q * m == (q - 1) * m + m;
    ModShift(i, q - 1, m);
    SmallMod(i, m);
  }

  // ---------------------------------------------------------------- which starts are covered

  /** The start of frame `j` is in the interval that `len` bytes at the write point fill,
      both ends included.  An empty frame covers every start. */
  predicate Hit(hist: seq<Frame>, j: nat, len: nat, size: nat)
    requires j <= |hist| && 0 < size
  {
    var gap := Span(hist, j, |hist|) % size;
    len == 0 || gap == 0 || gap + len > size || (gap + len == size && Offset(hist, j, size) != 0)
  }

  lemma HitIff(hist: seq<Frame>, j: nat, len: nat, size: nat)
    requires j <= |hist| && len < size
    ensures var pos := Offset(hist, |hist|, size);
            EndOf(size, pos, len) >= 0
            && (Covered(Offset(hist, j, size), pos, EndOf(size, pos, len)) <==> Hit(hist, j, len, size))
  {
    OffsetGap(hist, j, |hist|, size);
    hide Offset, Span;
    CoveredIff(Offset(hist, j, size), Span(hist, j, |hist|) % size, len, size);
  }

  lemma CoveredIff(a: nat, gap: nat, len: nat, size: nat)
    requires a < size && gap < size && len < size
    ensures var pos := Around(a, gap, size);
            pos >= 0 && EndOf(size, pos, len) >= 0
            && (Covered(a, pos, EndOf(size, pos, len))
                <==> len == 0 || gap == 0 || gap + len > size || (gap + len == size && a != 0))
  {
  }

  /** The slots as the cover loop finds them. */
  function Found(st: Ring, f: Frame): (r: seq<Slot>)
    requires WellFormed(st)
    ensures |r| == |st.slots|
    ensures forall i :: 0 <= i < |r| ==> r[i].position == st.slots[i].position
    ensures forall i :: 0 <= i < |r| && i != st.w % |st.slots| ==> r[i] == st.slots[i]
  {
    st.slots[st.w % |st.slots| := Filled(st, f)]
  }

  lemma CoveredSlot(st: Ring, hist: seq<Frame>, f: Frame, i: nat)
    requires ByteInv(st, hist) && !TooBig(st, f) && Next(st.w, |st.slots|) <= i < |st.slots|
    ensures var pos := SlotOf(st, st.w).position;
            && HeldBy(st.w, |st.slots|, i) <= |hist| && 0 < |st.data|
            && (Covered(Found(st, f)[i].position, pos, EndOf(|st.data|, pos, |f.bytes|))
                <==> Hit(hist, HeldBy(st.w, |st.slots|, i), |f.bytes|, |st.data|))
  {
    ByteParts(st, hist);
    WindowSlot(st, hist, i);
    hide ByteInv, MetaInv, Offset, Hit, HeldBy, Covered;
    HitIff(hist, HeldBy(st.w, |st.slots|, i), |f.bytes|, |st.data|);
  }

  // ---------------------------------------------------------------- inside the slot array

  lemma RangeParts(st: Ring, f: Frame)
    requires WellFormed(st) && !TooBig(st, f)
    ensures var pos, next := SlotOf(st, st.w).position, Next(st.w, |st.slots|);
            && next < |st.slots| && EndOf(|st.data|, pos, |f.bytes|) >= 0
            && (PutInRange(st, f) <==> (next <= 2 || exists i ::
                  next <= i < |st.slots| && !Covered(Found(st, f)[i].position, pos, EndOf(|st.data|, pos, |f.bytes|))))
  {
    var m, pos, next := |st.slots|, SlotOf(st, st.w).position, Next(st.w, |st.slots|);
    ModNext(st.w, m);
    RunStops(Found(st, f), pos, EndOf(|st.data|, pos, |f.bytes|), next);
    hide Covered, RunEnd;
  }

  lemma RunStops(slots: seq<Slot>, start: nat, end: nat, next: nat)
    requires next <= |slots|
    ensures RunEnd(slots, start, end, next, |slots|) < |slots|
            <==> exists i :: next <= i < |slots| && !Covered(slots[i].position, start, end)
  {
    hide Covered;
    var e := RunEnd(slots, start, end, next, |slots|);
    assert e < |slots| ==> !Covered(slots[e].position, start, end);
  }

  /** The loop stays inside the slot array if and only if it starts at one of the first
      three slots or one of the frames that the slots up to the last one give the start
      of is not covered. */
  lemma InRangeIff(st: Ring, hist: seq<Frame>, f: Frame)
    requires ByteInv(st, hist) && !TooBig(st, f)
    ensures var w, m := st.w, |st.slots|;
            && 0 < m && 0 < |st.data| && Last(w, m) <= |hist|
            && (PutInRange(st, f) <==> (Next(w, m) <= 2 || exists j ::
                  First(w, m) <= j <= Last(w, m) && !Hit(hist, j, |f.bytes|, |st.data|)))
  {
    ByteParts(st, hist);
    RangeParts(st, f);
    var w, m := st.w, |st.slots|;
    var next, pos := Next(w, m), SlotOf(st, w).position;
    var end := EndOf(|st.data|, pos, |f.bytes|);
    hide ByteInv, MetaInv, WellFormed, PutInRange, Covered, Hit, Found, EndOf;
    if i: nat :| next <= i < m && !Covered(Found(st, f)[i].position, pos, end) {
      CoveredSlot(st, hist, f, i);
      assert First(w, m) <= HeldBy(w, m, i) <= Last(w, m);
    }
    if j :| First(w, m) <= j <= Last(w, m) && !Hit(hist, j, |f.bytes|, |st.data|) {
      var i := if w + 1 < m then m - 1 else next + (j - First(w, m));
      if w + 1 < m {
        SmallMod(w + 1, m);
      }
      assert HeldBy(w, m, i) == j;
      CoveredSlot(st, hist, f, i);
    }
  }

  /** In a roomy history a start is covered when the bytes from it on and the new frame
      fill the buffer. */
  lemma RoomyHit(hist: seq<Frame>, j: nat, len: nat, m: nat, size: nat)
    requires Roomy(hist, m, size) && j < |hist| <= j + m && 0 < len < size
    ensures var all := Span(hist, j, |hist|) + len;
            Hit(hist, j, len, size) <==> all > size || (all == size && Offset(hist, j, size) != 0)
  {
    SpanFirst(hist, j, |hist|);
    SmallMod(Span(hist, j, |hist|), size);
    hide Offset;
  }

  /** The newer of two frames is covered only if the older one is. */
  lemma RoomyHitOlder(hist: seq<Frame>, j: nat, k: nat, len: nat, m: nat, size: nat)
    requires Roomy(hist, m, size) && j < k < |hist| <= j + m && 0 < len < size
    ensures Hit(hist, k, len, size) ==> Hit(hist, j, len, size)
    ensures !Hit(hist, j, len, size) ==> Span(hist, k, |hist|) + len < size
  {
    RoomyHit(hist, j, len, m, size);
    RoomyHit(hist, k, len, m, size);
    SpanSplit(hist, j, k, |hist|);
    SpanFirst(hist, j, k);
    hide Hit, Offset;
  }

  /** After a roomy history the loop stays inside the slot array if and only if it starts
      at one of the first three slots, or the frames from that of the last slot on (in the
      first round: all frames) with the new one are shorter than the buffer, or fill it
      from offset 0. */
  lemma RoomyInRangeIff(st: Ring, hist: seq<Frame>, f: Frame)
    requires ByteInv(st, hist) && Roomy(hist, |st.slots|, |st.data|) && !TooBig(st, f) && 0 < |f.bytes|
    ensures var w, m, size := st.w, |st.slots|, |st.data|;
            && 0 < m && Last(w, m) <= w == |hist|
            && var all := Span(hist, Last(w, m), w) + |f.bytes|;
               PutInRange(st, f) <==> Next(w, m) <= 2 || all < size || (all == size && Offset(hist, Last(w, m), size) == 0)
  {
    var w, m, size := st.w, |st.slots|, |st.data|;
    ByteParts(st, hist);
    InRangeIff(st, hist, f);
    if Next(w, m) > 2 {
      LastBehind(w, m);
      hide ByteInv, MetaInv, WellFormed, PutInRange, Hit, Offset, Span, Roomy, First, Last, Next;
      RoomyHit(hist, Last(w, m), |f.bytes|, m, size);
      LastDecides(hist, First(w, m), Last(w, m), |f.bytes|, m, size);
    }
  }

  lemma LastDecides(hist: seq<Frame>, first: nat, last: nat, len: nat, m: nat, size: nat)
    requires Roomy(hist, m, size) && first <= last < |hist| <= first + m && 0 < len < size
    ensures (exists j :: first <= j <= last && !Hit(hist, j, len, size)) <==> !Hit(hist, last, len, size)
  {
    hide Hit, Roomy, Span;
    if j :| first <= j <= last && !Hit(hist, j, len, size) {
      if j < last {
        RoomyHitOlder(hist, j, last, len, m, size);
      }
    }
  }

  lemma LastBehind(w: nat, m: nat)
    requires 0 < m && Next(w, m) > 2
    ensures First(w, m) <= Last(w, m) < w && w <= First(w, m) + m
  {
    if w + 1 < m {
      SmallMod(w + 1, m);
    }
  }

  /** When any `uiMaxValidFrames` consecutive frames, the new one included, are together
      shorter than the buffer, the loop stays inside the slot array. */
  lemma RoomyInRange(st: Ring, hist: seq<Frame>, f: Frame)
    requires ByteInv(st, hist) && Roomy(hist + [f], |st.slots|, |st.data|) && !TooBig(st, f)
    ensures PutInRange(st, f)
  {
    ByteParts(st, hist);
    RoomyPrefix(hist, hist + [f], |st.slots|, |st.data|);
    assert (hist + [f])[|hist|] == f;
    RoomyInRangeIff(st, hist, f);
    hide ByteInv, MetaInv, PutInRange, Offset;
    if Next(st.w, |st.slots|) > 2 {
      LastBehind(st.w, |st.slots|);
      RoomyWith(hist, f, Last(st.w, |st.slots|), |st.slots|, |st.data|);
    }
  }

  lemma RoomyWith(hist: seq<Frame>, f: Frame, k: nat, m: nat, size: nat)
    requires Roomy(hist + [f], m, size) && k <= |hist| < k + m
    ensures Span(hist, k, |hist|) + |f.bytes| < size
  {
    SpanPrefix(hist, hist + [f], k, |hist|);
    assert Span(hist + [f], k, |hist| + 1) == Span(hist, k, |hist|) + |f.bytes|;
  }

  // ---------------------------------------------------------------- what is cleared

  lemma PutFlags(st: Ring, f: Frame, i: nat)
    requires WellFormed(st) && !TooBig(st, f) && i < |st.slots| && i != st.w % |st.slots|
    ensures var pos, next := SlotOf(st, st.w).position, Next(st.w, |st.slots|);
            && EndOf(|st.data|, pos, |f.bytes|) >= 0
            && Put(st, f).0.slots[i].valid
               == Cover(Found(st, f), pos, EndOf(|st.data|, pos, |f.bytes|), next)[i].valid
  {
    ModNext(st.w, |st.slots|);
    hide Cover, Media.Write;
  }

  lemma NotOwn(w: nat, m: nat, i: nat)
    requires 2 <= m && Next(w, m) <= i < (if Next(w, m) + (m - 2) <= m then Next(w, m) + (m - 2) else m)
    ensures i != w % m
  {
    NeverOwnSlot(m, w);
    ModNext(w, m);
  }

  /** On any reachable ring, a slot the loop may look at loses its flag exactly when every
      frame from the oldest up to its own is covered: one start that is not stops the
      loop, also when the frame it belonged to is long overwritten. */
  lemma ClearedIff(st: Ring, hist: seq<Frame>, f: Frame, i: nat)
    requires ByteInv(st, hist) && !TooBig(st, f) && 2 <= |st.slots|
    requires Next(st.w, |st.slots|) <= i < CoverLimit(st.slots, Next(st.w, |st.slots|))
    ensures var w, m := st.w, |st.slots|;
            && HeldBy(w, m, i) <= |hist| && 0 < |st.data|
            && (Put(st, f).0.slots[i].valid <==>
                  st.slots[i].valid && exists j :: First(w, m) <= j <= HeldBy(w, m, i) && !Hit(hist, j, |f.bytes|, |st.data|))
  {
    var w, m := st.w, |st.slots|;
    ByteParts(st, hist);
    NotOwn(w, m, i);
    PutFlags(st, f, i);
    var next, pos := Next(w, m), SlotOf(st, w).position;
    var end := EndOf(|st.data|, pos, |f.bytes|);
    RunReaches(Found(st, f), pos, end, next, i);
    WindowSlot(st, hist, i);
    hide ByteInv, MetaInv, WellFormed, Put, Cover, Covered, Hit, EndOf, Found, Next, SlotOf;
    if x: nat :| next <= x <= i && !Covered(Found(st, f)[x].position, pos, end) {
      CoveredSlot(st, hist, f, x);
      assert First(w, m) <= HeldBy(w, m, x) <= HeldBy(w, m, i);
    }
    if j :| First(w, m) <= j <= HeldBy(w, m, i) && !Hit(hist, j, |f.bytes|, |st.data|) {
      var x := if w + 1 < m then i else next + (j - First(w, m));
      assert HeldBy(w, m, x) == j;
      CoveredSlot(st, hist, f, x);
    }
  }

  lemma RunReaches(slots: seq<Slot>, start: nat, end: nat, next: nat, i: nat)
    requires 2 <= |slots| && next <= |slots| && next <= i < CoverLimit(slots, next)
    ensures Cover(slots, start, end, next)[i].valid <==>
              slots[i].valid && exists x :: next <= x <= i && !Covered(slots[x].position, start, end)
  {
    hide Covered;
    var e := RunEnd(slots, start, end, next, CoverLimit(slots, next));
    if e <= i {
      assert !Covered(slots[e].position, start, end);
    }
  }

  // ---------------------------------------------------------------- in ring order

  /** How far `pos` lies behind `start`, going round. */
  function Ahead(start: nat, pos: nat, size: nat): int {
    if pos >= start then pos - start else pos - start + size
  }

  predicate RingOrdered(slots: seq<Slot>, start: nat, size: nat, lo: nat, hi: nat)
    requires lo <= hi <= |slots|
  {
    forall i, j :: lo <= i < j < hi ==> Ahead(start, slots[i].position, size) <= Ahead(start, slots[j].position, size)
  }

  /** When the starts are in ring order, the loop clears exactly the visited slots whose
      start lies in the interval just written: the run it stops at is the last of them. */
  lemma CoverExact(slots: seq<Slot>, start: nat, len: nat, size: nat, next: nat)
    requires 2 <= |slots| && next <= |slots| && start < size && 0 < len < size
    requires forall i :: 0 <= i < |slots| ==> slots[i].position < size
    requires RingOrdered(slots, start, size, next, CoverLimit(slots, next))
    ensures var r := Cover(slots, start, EndOf(size, start, len), next);
            forall i :: 0 <= i < |slots| ==>
              r[i] == if next <= i < CoverLimit(slots, next) && Covered(slots[i].position, start, EndOf(size, start, len))
                      then slots[i].(valid := false) else slots[i]
  {
    var end, lim := EndOf(size, start, len), CoverLimit(slots, next);
    var e := RunEnd(slots, start, end, next, lim);
    forall i | e <= i < lim ensures !Covered(slots[i].position, start, end) {
      assert i == e || Ahead(start, slots[e].position, size) <= Ahead(start, slots[i].position, size);
    }
  }

  /** A frame that does not reach over the write point and whose start is not covered
      shares no byte with the write. */
  lemma UncoveredApart(position: nat, slotLen: nat, start: nat, len: nat, size: nat, x: nat, y: nat)
    requires position < size && start < size && 0 < len < size
    requires !Covered(position, start, EndOf(size, start, len))
    requires slotLen <= Ahead(position, start, size)
    requires x < slotLen && y < len
    ensures Around(position, x, size) != Around(start, y, size)
  {
  }

  /** How far behind the write point a frame of a roomy history starts. */
  lemma AheadOf(hist: seq<Frame>, k: nat, m: nat, size: nat)
    requires Roomy(hist, m, size) && k < |hist| <= k + m
    ensures 0 < size && Offset(hist, k, size) < size && Offset(hist, |hist|, size) < size
    ensures Ahead(Offset(hist, |hist|, size), Offset(hist, k, size), size) == size - Span(hist, k, |hist|)
    ensures Ahead(Offset(hist, k, size), Offset(hist, |hist|, size), size) == Span(hist, k, |hist|)
    ensures |hist[k].bytes| <= Span(hist, k, |hist|)
  {
    SpanFirst(hist, k, |hist|);
    OffsetGap(hist, k, |hist|, size);
    SmallMod(Span(hist, k, |hist|), size);
    hide Offset;
  }

  /** After a roomy history the slots the loop may look at are in ring order. */
  lemma WindowOrdered(st: Ring, hist: seq<Frame>, f: Frame)
    requires ByteInv(st, hist) && Roomy(hist, |st.slots|, |st.data|)
    ensures 2 <= |st.slots| && WellFormed(st)
    ensures var next := Next(st.w, |st.slots|);
            RingOrdered(Found(st, f), SlotOf(st, st.w).position, |st.data|, next, CoverLimit(Found(st, f), next))
  {
    var w, m, size := st.w, |st.slots|, |st.data|;
    ByteParts(st, hist);
    var next := Next(w, m);
    var slots, start := Found(st, f), SlotOf(st, w).position;
    hide ByteInv, MetaInv, Offset, Span, Roomy, Found;
    forall i, j | next <= i < j < CoverLimit(slots, next)
      ensures Ahead(start, slots[i].position, size) <= Ahead(start, slots[j].position, size)
    {
      WindowSlot(st, hist, i);
      WindowSlot(st, hist, j);
      if w + 1 >= m {
        var a, b := HeldBy(w, m, i), HeldBy(w, m, j);
        HeldBefore(w, m, j);
        AheadOf(hist, a, m, size);
        AheadOf(hist, b, m, size);
        SpanSplit(hist, a, b, w);
      }
    }
  }

  lemma HeldBefore(w: nat, m: nat, i: nat)
    requires 2 <= m <= w + 1 && Next(w, m) <= i < (if Next(w, m) + (m - 2) <= m then Next(w, m) + (m - 2) else m)
    ensures HeldBy(w, m, i) < w <= HeldBy(w, m, i) + m
  {
  }

  /** Which slot frame `k` has, seen from the slot of the next frame. */
  lemma Place(k: nat, w: nat, m: nat)
    requires 2 <= m && k < w < k + m
    ensures var r, d := w % m, w - k;
            && k % m == (if d <= r then r - d else r - d + m)
            && Next(w, m) == if r + 1 < m then r + 1 else 0
  {
    var q, r, d := w / m, w % m, w - k;
    assert w == q * m + r;
    ModNext(w, m);
    if r + 1 < m {
      SmallMod(r + 1, m);
    } else {
      ModAdd(0, m);
      SmallMod(0, m);
    }
    if d <= r {
      ModShift(r - d, q, m);
      SmallMod(r - d, m);
    } else {
      assert q >= 1;
      assert q * m == (q - 1) * m + m;
      ModShift(r - d + m, q - 1, m);
      SmallMod(r - d + m, m);
    }
  }

  /** A retained frame the loop does not look at is not covered, if the loop stays inside
      the slot array. */
  lemma NotVisitedNotHit(st: Ring, hist: seq<Frame>, f: Frame, k: nat)
    requires ByteInv(st, hist) && Roomy(hist, |st.slots|, |st.data|) && !TooBig(st, f) && 0 < |f.bytes|
    requires PutInRange(st, f) && k < st.w < k + |st.slots|
    requires 2 <= |st.slots| && var next := Next(st.w, |st.slots|); !(next <= k % |st.slots| < CoverLimit(st.slots, next))
    ensures 0 < |st.data| && st.w == |hist| && !Hit(hist, k, |f.bytes|, |st.data|)
  {
    var w, m, size := st.w, |st.slots|, |st.data|;
    ByteParts(st, hist);
    NotVisited(k, w, m);
    assert 2 * |hist[k].bytes| < size && 2 * |f.bytes| < size;
    hide ByteInv, MetaInv, WellFormed, PutInRange, Hit, Offset, Halves, TooBig, Roomy, First, Last, Next, CoverLimit;
    RoomyInRangeIff(st, hist, f);
    RoomyHit(hist, k, |f.bytes|, m, size);
    if k == w - 1 {
      SpanFirst(hist, k, w);
    } else {
      LastBehind(w, m);
      hide Span;
      RoomyHit(hist, Last(w, m), |f.bytes|, m, size);
      if Last(w, m) < k {
        RoomyHitOlder(hist, Last(w, m), k, |f.bytes|, m, size);
      }
    }
  }

  lemma NotVisited(k: nat, w: nat, m: nat)
    requires 2 <= m && k < w < k + m
    requires var next := Next(w, m); !(next <= k % m < (if next + (m - 2) <= m then next + (m - 2) else m))
    ensures k == w - 1 || (Next(w, m) > 2 && Last(w, m) <= k)
  {
    Place(k, w, m);
    if w + 1 < m {
      SmallMod(w, m);
      SmallMod(w + 1, m);
    }
  }

  /** While the history is roomy and the loop stays inside the slot array, a put clears
      exactly the retained frames whose start it covers: every frame the write touches is
      cleared, and a frame left valid shares no byte with it. */
  lemma PutClearsTouched(st: Ring, hist: seq<Frame>, f: Frame, k: nat)
    requires ByteInv(st, hist) && Roomy(hist, |st.slots|, |st.data|) && !TooBig(st, f) && 0 < |f.bytes|
    requires PutInRange(st, f) && k < st.w < k + |st.slots|
    ensures 0 < |st.data| && st.w == |hist| && 2 <= |st.slots|
    ensures SlotOf(Put(st, f).0, k).valid <==> SlotOf(st, k).valid && !Hit(hist, k, |f.bytes|, |st.data|)
    ensures SlotOf(Put(st, f).0, k).valid ==>
              forall x, y :: !Meet(hist + [f], k, x, |hist|, y, |st.data|)
  {
    var w, m, size := st.w, |st.slots|, |st.data|;
    ByteParts(st, hist);
    var next, pos, i := Next(w, m), SlotOf(st, w).position, k % m;
    OtherSlot(st, k);
    hide ByteInv, MetaInv, WellFormed, Put, PutInRange, Hit, Cover, CoverLimit, Covered, EndOf;
    hide Found, Roomy, RingOrdered, Meet, Next, TooBig;
    PutFlags(st, f, i);
    WindowOrdered(st, hist, f);
    FoundInside(st, f);
    CoverExact(Found(st, f), pos, |f.bytes|, size, next);
    VisitedHit(st, hist, f, k);
    if !Hit(hist, k, |f.bytes|, size) {
      forall x, y ensures !Meet(hist + [f], k, x, |hist|, y, size) {
        NoMeet(hist, f, k, x, y, m, size);
      }
    }
  }

  lemma FoundInside(st: Ring, f: Frame)
    requires WellFormed(st)
    ensures forall i :: 0 <= i < |Found(st, f)| ==> Found(st, f)[i].position < |st.data|
    ensures SlotOf(st, st.w).position < |st.data|
  {
  }

  /** Whether the loop clears the slot of frame `k`, in terms of the frame. */
  lemma VisitedHit(st: Ring, hist: seq<Frame>, f: Frame, k: nat)
    requires ByteInv(st, hist) && Roomy(hist, |st.slots|, |st.data|) && !TooBig(st, f) && 0 < |f.bytes|
    requires PutInRange(st, f) && k < st.w < k + |st.slots|
    ensures 2 <= |st.slots| && 0 < |st.data| && st.w == |hist|
    ensures var next, pos, i := Next(st.w, |st.slots|), SlotOf(st, st.w).position, k % |st.slots|;
            && EndOf(|st.data|, pos, |f.bytes|) >= 0
            && (next <= i < CoverLimit(st.slots, next) && Covered(Found(st, f)[i].position, pos, EndOf(|st.data|, pos, |f.bytes|))
                <==> Hit(hist, k, |f.bytes|, |st.data|))
  {
    var w, m, i := st.w, |st.slots|, k % |st.slots|;
    ByteParts(st, hist);
    var next := Next(w, m);
    hide ByteInv, MetaInv, WellFormed, Roomy, PutInRange, Hit, Covered, Found, EndOf, TooBig;
    if next <= i < CoverLimit(st.slots, next) {
      Place(k, w, m);
      if w + 1 < m {
        SmallMod(w, m);
      }
      assert HeldBy(w, m, i) == k;
      CoveredSlot(st, hist, f, i);
    } else {
      NotVisitedNotHit(st, hist, f, k);
    }
  }

  lemma NoMeet(hist: seq<Frame>, f: Frame, k: nat, x: int, y: int, m: nat, size: nat)
    requires Roomy(hist, m, size) && k < |hist| <= k + m && 0 < |f.bytes| < size && 0 < size
    requires !Hit(hist, k, |f.bytes|, size)
    ensures !Meet(hist + [f], k, x, |hist|, y, size)
  {
    var all := hist + [f];
    OffsetPrefix(hist, all, k, size);
    OffsetPrefix(hist, all, |hist|, size);
    HitIff(hist, k, |f.bytes|, size);
    AheadOf(hist, k, m, size);
    hide Offset, Span, Roomy, Hit, Covered, Ahead, EndOf;
    if 0 <= x < |hist[k].bytes| && 0 <= y < |f.bytes| {
      UncoveredApart(Offset(hist, k, size), |hist[k].bytes|, Offset(hist, |hist|, size), |f.bytes|, size, x, y);
    }
  }

  /** When not even the new frame makes the history crowded, nothing is cleared. */
  lemma PutKeepsValid(st: Ring, hist: seq<Frame>, f: Frame, k: nat)
    requires ByteInv(st, hist) && Roomy(hist + [f], |st.slots|, |st.data|) && !TooBig(st, f)
    requires k < st.w < k + |st.slots|
    ensures SlotOf(Put(st, f).0, k).valid == SlotOf(st, k).valid
  {
    var m, size := |st.slots|, |st.data|;
    ByteParts(st, hist);
    RoomyPrefix(hist, hist + [f], m, size);
    assert (hist + [f])[|hist|] == f;
    RoomyInRange(st, hist, f);
    PutClearsTouched(st, hist, f, k);
    RoomyHit(hist, k, |f.bytes|, m, size);
    RoomyWith(hist, f, k, m, size);
  }
}
