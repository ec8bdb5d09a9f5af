/**
 The frame ring of stream_buff.c: one writer, a ring of slots over a ring of bytes, and
 readers that can be overtaken.
 */
module RingSpec {
  import opened Media

  datatype Slot = Slot(valid: bool, position: nat, len: nat, ts: nat, kind: int, priority: int)

  /** `w` frames have been put; frame `k` went to slot `k % |slots|`. */
  datatype Ring = Ring(data: seq<byte>, slots: seq<Slot>, w: nat)

  predicate WellFormed(st: Ring) {
    2 <= |st.slots| && forall i :: 0 <= i < |st.slots| ==> st.slots[i].position < |st.data|
  }

  function SlotOf(st: Ring, k: nat): Slot
    requires st.slots != []
  {
    st.slots[k % |st.slots|]
  }

  /** The sequence number of the oldest frame that still has a slot. */
  function Oldest(st: Ring): nat {
    if st.w < |st.slots| then 0 else st.w - |st.slots|
  }

  function Create(frames: nat, size: nat): Ring {
    Ring(seq(size, _ => 0), seq(frames, _ => Slot(false, 0, 0, 0, 0, 0)), 0)
  }

  // ---------------------------------------------------------------- writing

  /** CheckBuffDataCover's test on the start of a frame against the interval just
      written, both ends included. */
  predicate Covered(pos: nat, start: nat, end: nat) {
    if start < end then start <= pos <= end else start <= pos || pos <= end
  }

  /** The first index from `i` on whose start is not covered, or `limit`. */
  function RunEnd(slots: seq<Slot>, start: nat, end: nat, i: nat, limit: nat): (r: nat)
    requires i <= limit <= |slots|
    ensures i <= r <= limit
    ensures forall j :: i <= j < r ==> Covered(slots[j].position, start, end)
    ensures r < limit ==> !Covered(slots[r].position, start, end)
    decreases limit - i
  {
    if i == limit || !Covered(slots[i].position, start, end) then i
    else RunEnd(slots, start, end, i + 1, limit)
  }

  /** The loop looks at `next`, `next + 1`, ... without going round; it stays inside the
      slot array when the run of covered slots ends in it or the loop's own bound does. */
  predicate CoverInRange(slots: seq<Slot>, start: nat, end: nat, next: nat)
    requires next <= |slots|
  {
    next <= 2 || RunEnd(slots, start, end, next, |slots|) < |slots|
  }

  function CoverLimit(slots: seq<Slot>, next: nat): (r: nat)
    requires next <= |slots| && 2 <= |slots|
    ensures next <= r <= |slots|
  {
    if next + (|slots| - 2) <= |slots| then next + (|slots| - 2) else |slots|
  }

  function Clear(slots: seq<Slot>, lo: nat, hi: nat): (r: seq<Slot>)
    ensures |r| == |slots|
    ensures forall i :: 0 <= i < |slots| ==> r[i] == if lo <= i < hi then slots[i].(valid := false) else slots[i]
  {
    seq(|slots|, i requires 0 <= i < |slots| => if lo <= i < hi then slots[i].(valid := false) else slots[i])
  }

  function Cover(slots: seq<Slot>, start: nat, end: nat, next: nat): (r: seq<Slot>)
    requires next <= |slots| && 2 <= |slots|
    ensures |r| == |slots|
  {
    Clear(slots, next, RunEnd(slots, start, end, next, CoverLimit(slots, next)))
  }

  function EndOf(size: nat, pos: nat, len: nat): int {
    if pos + len <= size then pos + len else pos + len - size
  }

  predicate TooBig(st: Ring, f: Frame) {
    |st.data| / 2 <= |f.bytes|
  }

  function Filled(st: Ring, f: Frame): Slot
    requires WellFormed(st)
  {
    Slot(true, SlotOf(st, st.w).position, |f.bytes|, f.ts, f.kind, f.priority)
  }

  predicate PutInRange(st: Ring, f: Frame)
    requires WellFormed(st)
  {
    !TooBig(st, f) ==>
      var w, next := st.w % |st.slots|, (st.w % |st.slots| + 1) % |st.slots|;
      var pos := st.slots[w].position;
      CoverInRange(st.slots[w := Filled(st, f)], pos, EndOf(|st.data|, pos, |f.bytes|), next)
  }

  /** PutOneFrameToBuff; -2 for a frame of half the buffer or more.  For a put that is not
      `PutInRange` the code goes on clearing flags behind the end of the slot array, in the
      bytes of the buffer; here the loop ends with the array, so that about such a put the
      model says nothing of the code. */
  function Put(st: Ring, f: Frame): (r: (Ring, int))
    requires WellFormed(st)
    ensures WellFormed(r.0) && |r.0.slots| == |st.slots| && |r.0.data| == |st.data|
  {
    if TooBig(st, f) then (st, -2)
    else
      var w, next := st.w % |st.slots|, (st.w % |st.slots| + 1) % |st.slots|;
      var pos := st.slots[w].position;
      var slots := Cover(st.slots[w := Filled(st, f)], pos, EndOf(|st.data|, pos, |f.bytes|), next);
      (Ring(Write(st.data, pos, f.bytes),
            slots[next := slots[next].(position := Around(pos, |f.bytes|, |st.data|))],
            st.w + 1), 0)
  }

  // ---------------------------------------------------------------- reading

  datatype Reader = Reader(r: nat, needI: bool)

  predicate KeyAt(st: Ring, k: nat)
    requires st.slots != []
  {
    SlotOf(st, k).valid && SlotOf(st, k).kind == FRAME_I
  }

  /** The least sequence number from `k` on with a valid key frame, or `st.w`. */
  function NextKey(st: Ring, k: nat): (r: nat)
    requires st.slots != [] && k <= st.w
    ensures k <= r <= st.w
    ensures r < st.w ==> KeyAt(st, r)
    ensures forall j :: k <= j < r ==> !KeyAt(st, j)
    decreases st.w - k
  {
    if k == st.w || KeyAt(st, k) then k else NextKey(st, k + 1)
  }

  /** The greatest sequence number strictly between `lo` and `hi` with a valid key frame,
      or `lo`. */
  function LastKey(st: Ring, lo: nat, hi: nat): (r: nat)
    requires st.slots != [] && lo < hi
    ensures lo <= r < hi
    ensures lo < r ==> KeyAt(st, r)
    ensures forall j :: r < j < hi ==> !KeyAt(st, j)
  {
    if lo == hi - 1 || KeyAt(st, hi - 1) then hi - 1 else LastKey(st, lo, hi - 1)
  }

  /** JumpToOldestIFrame: the new reader and whether it found a frame. */
  function JumpOldest(st: Ring, rd: Reader): (Reader, bool)
    requires st.slots != []
  {
    if st.w == 0 then (rd.(r := 0), true)
    else
      var k := NextKey(st, if rd.r < st.w && Oldest(st) < rd.r then rd.r else Oldest(st));
      if k < st.w then (rd.(r := k), true) else (rd, false)
  }

  /** JumpTonewestIFrame; a reader that is not behind the writer finds nothing. */
  function JumpNewest(st: Ring, rd: Reader): (Reader, bool)
    requires st.slots != []
  {
    if st.w == 0 then (rd.(r := 0), true)
    else if rd.r >= st.w then (rd, false)
    else
      var k := LastKey(st, rd.r, st.w);
      if k > rd.r then (rd.(r := k), true) else (rd, false)
  }

  datatype Got = Slow | SlowAt(ts: nat) | Fast | Nothing | Delivered(k: nat, frame: Frame)

  function FrameAt(st: Ring, k: nat): Frame
    requires st.slots != []
  {
    var s := SlotOf(st, k);
    Frame(Read(st.data, s.position, s.len), s.ts, s.kind, s.priority)
  }

  /** How a reader asks: the room it has, and whether it reads by time from `since`. */
  datatype Ask = Ask(maxLen: nat, byTime: bool, since: nat)

  /** GetOneFrameFromBuff. */
  function Get(st: Ring, rd: Reader, ask: Ask): (Reader, Got)
    requires st.slots != []
  {
    if st.w == rd.r then (rd, Fast)
    else if st.w < rd.r then (JumpOldest(st, rd).0, Fast)
    else
      var (a, ok) := if st.w - rd.r > |st.slots| then JumpOldest(st, rd) else (rd, true);
      if !ok then (a, Slow) else GetFirst(st, a, ask)
  }

  /** The first frame has to be a key frame, one of the newest four. */
  function GetFirst(st: Ring, rd: Reader, ask: Ask): (Reader, Got)
    requires st.slots != []
  {
    if rd.needI && rd.r < st.w then
      var (a, ok) := JumpNewest(st, if st.w >= 5 then rd.(r := st.w - 5) else rd);
      if !ok then (a, Nothing) else GetHere(st, a.(needI := false), ask)
    else GetHere(st, rd, ask)
  }

  function GetHere(st: Ring, rd: Reader, ask: Ask): (Reader, Got)
    requires st.slots != []
  {
    var (a, ok) := if SlotOf(st, rd.r).valid then (rd, true) else JumpOldest(st, rd);
    if !ok then (a, Slow)
    else
      var s := SlotOf(st, a.r);
      if s.len > ask.maxLen then (a, Nothing)
      else if ask.byTime && ask.since != 0 && ask.since < s.ts && s.ts - ask.since > 2000 then (a, SlowAt(s.ts))
      else (a.(r := a.r + 1), Delivered(a.r, FrameAt(st, a.r)))
  }
}
