/** The frame ring as the shared slot and byte arrays it is, proved against RingSpec. */
module FrameRing {
  import opened Media
  import opened RingSpec
  import RingInv

  /** A reader's own position (MemReader_t). */
  class MemReader {
    var rdFrameCount: nat
    var needIframe: bool
    const readByTime: bool

    constructor (byTime: bool)
      ensures View() == Reader(0, true) && readByTime == byTime
    {
      rdFrameCount, needIframe, readByTime := 0, true, byTime;
    }

    ghost function View(): Reader
      reads this
    {
      Reader(rdFrameCount, needIframe)
    }
  }

  class StreamBuff {
    const data: array<byte>
    const slots: array<Slot>
    var writFrameCount: nat

    ghost function State(): Ring
      reads this, data, slots
    {
      Ring(data[..], slots[..], writFrameCount)
    }

    ghost predicate Valid()
      reads this, data, slots
    {
      && WellFormed(State())
      && (forall i :: 0 <= i < slots.Length ==> slots[i].len <= data.Length)
      && (forall i :: writFrameCount <= i < slots.Length ==> !slots[i].valid)
    }

    constructor (size: nat, frames: nat)
      requires 0 < size && 2 <= frames
      ensures Valid() && fresh(data) && fresh(slots)
      ensures State() == Create(frames, size)
    {
      data := new byte[size](_ => 0);
      slots := new Slot[frames](_ => Slot(false, 0, 0, 0, 0, 0));
      writFrameCount := 0;
    }

    method Invalidate(i: nat)
      requires i < slots.Length
      modifies slots
      ensures slots[..] == old(slots[..])[i := old(slots[i]).(valid := false)]
    {
      slots[i] := slots[i].(valid := false);
    }

    /** Clears the valid flags from slot `next` on while the starts are covered. */
    method CheckBuffDataCover(start: nat, end: nat, next: nat)
      requires 2 <= slots.Length && next < slots.Length && CoverInRange(slots[..], start, end, next)
      modifies slots
      ensures slots[..] == Cover(old(slots[..]), start, end, next)
    {
      hide Clear, RunEnd;
      ghost var was := slots[..];
      ghost var lim := CoverLimit(was, next);
      ClearStart(was, next);
      var i := 0;
      while i < slots.Length - 2
        invariant 0 <= i <= slots.Length - 2 && next + i <= lim
        invariant slots[..] == Clear(was, next, next + i)
        invariant RunEnd(was, start, end, next, lim) == RunEnd(was, start, end, next + i, lim)
        invariant RunEnd(was, start, end, next, |was|) == RunEnd(was, start, end, next + i, |was|)
      {
        RunStep(was, start, end, next + i, lim);
        RunStep(was, start, end, next + i, |was|);
        ClearNext(was, next, next + i);
        assert slots[next + i] == was[next + i];
        var pos := slots[next + i].position;
        if start < end {
          if start <= pos <= end {
            Invalidate(next + i);
            i := i + 1;
            continue;
          }
        } else {
          if start <= pos || pos <= end {
            Invalidate(next + i);
            i := i + 1;
            continue;
          }
        }
        break;
      }
      RunStep(was, start, end, next + i, lim);
    }

    static lemma RunStep(slots: seq<Slot>, start: nat, end: nat, i: nat, limit: nat)
      requires i <= limit <= |slots|
      ensures RunEnd(slots, start, end, i, limit)
           == if i < limit && Covered(slots[i].position, start, end) then RunEnd(slots, start, end, i + 1, limit) else i
    {
    }

    static lemma ClearStart(slots: seq<Slot>, lo: nat)
      ensures Clear(slots, lo, lo) == slots
    {
    }

    static lemma ClearNext(slots: seq<Slot>, lo: nat, i: nat)
      requires lo <= i < |slots|
      ensures Clear(slots, lo, i)[i] == slots[i]
      ensures Clear(slots, lo, i)[i := slots[i].(valid := false)] == Clear(slots, lo, i + 1)
    {
    }

    /** memcpy into the byte ring. */
    method CopyIn(pos: nat, bytes: seq<byte>)
      requires pos + |bytes| <= data.Length
      modifies data
      ensures data[..] == old(data[..pos]) + bytes + old(data[pos + |bytes|..])
    {
      forall i | 0 <= i < |bytes| {
        data[pos + i] := bytes[i];
      }
    }

    static lemma WrittenInTwo(was: seq<byte>, position: nat, frame: seq<byte>)
      requires position < |was| < position + |frame| && |frame| < |was|
      ensures var left := |was| - position;
              var part := was[..position] + frame[..left];
              |part| == |was| && frame[left..] + part[|frame| - left..] == Write(was, position, frame)
    {
    }

    /** Copies a frame in, in one or two parts; `next` is where the following one starts. */
    method StoreFrame(position: nat, frame: seq<byte>) returns (next: nat, end: nat)
      requires position < data.Length && |frame| < data.Length
      modifies data
      ensures data[..] == Write(old(data[..]), position, frame)
      ensures next == Around(position, |frame|, data.Length) && end == EndOf(data.Length, position, |frame|)
    {
      if position + |frame| <= data.Length {
        CopyIn(position, frame);
        next := position + |frame|;
        end := next;
        if next == data.Length {
          next := 0;
        }
      } else {
        var left := data.Length - position;
        ghost var was := data[..];
        CopyIn(position, frame[..left]);
        CopyIn(0, frame[left..]);
        WrittenInTwo(was, position, frame);
        next := |frame| - left;
        end := next;
      }
    }

    method PutOneFrameToBuff(frame: seq<byte>, ts: nat, kind: int, priority: int) returns (ret: int)
      requires Valid() && PutInRange(State(), Frame(frame, ts, kind, priority))
      modifies this`writFrameCount, data, slots
      ensures Valid()
      ensures (State(), ret) == Put(old(State()), Frame(frame, ts, kind, priority))
    {
      ghost var was, f := State(), Frame(frame, ts, kind, priority);
      var w := writFrameCount % slots.Length;
      var wnext := (w + 1) % slots.Length;
      if data.Length / 2 <= |frame| {
        return -2;
      }
      var position := slots[w].position;
      var next, end := StoreFrame(position, frame);
      PutValid(was, f);
      slots[w] := Slot(true, position, |frame|, ts, kind, priority);
      assert slots[..] == was.slots[w := Filled(was, f)];
      hide WellFormed, Write, Cover, CoverInRange;
      CheckBuffDataCover(position, end, wnext);
      slots[wnext] := slots[wnext].(position := next);
      writFrameCount := writFrameCount + 1;
      ret := 0;
    }

    static lemma PutValid(st: Ring, f: Frame)
      requires WellFormed(st) && !TooBig(st, f)
      requires forall i :: 0 <= i < |st.slots| ==> st.slots[i].len <= |st.data|
      requires forall i :: st.w <= i < |st.slots| ==> !st.slots[i].valid
      ensures var t := Put(st, f).0;
              && WellFormed(t)
              && (forall i :: 0 <= i < |t.slots| ==> t.slots[i].len <= |t.data|)
              && (forall i :: t.w <= i < |t.slots| ==> !t.slots[i].valid)
    {
      RingInv.PutSlots(st, f);
      var t := Put(st, f).0;
      forall i | 0 <= i < |t.slots|
        ensures t.slots[i].len <= |t.data|
        ensures t.w <= i ==> !t.slots[i].valid
      {
        if t.w <= i {
          RingInv.SmallMod(st.w, |st.slots|);
        }
      }
    }

    /** 0 when a key frame was found, -1 when not. */
    method JumpToOldestIFrame(reader: MemReader) returns (ret: int)
      requires Valid()
      modifies reader`rdFrameCount
      ensures (reader.View(), ret == 0) == JumpOldest(State(), old(reader.View()))
      ensures ret == 0 || ret == -1
    {
      if writFrameCount == 0 {
        reader.rdFrameCount := 0;
        return 0;
      }
      hide WellFormed, JumpOldest;
      ghost var st := State();
      ghost var lo := From(st, reader.View());
      var i := 0;
      while i < slots.Length
        invariant 0 <= i <= slots.Length
        invariant reader.View() == old(reader.View())
        invariant forall k :: lo <= k < writFrameCount + i - slots.Length ==> !KeyAt(st, k)
      {
        var pos := (writFrameCount + i) % slots.Length;
        Wraps(writFrameCount, i);
        if slots[pos].valid && slots[pos].kind == FRAME_I {
          var newPos := writFrameCount + i - slots.Length;
          assert 0 <= newPos && KeyAt(st, newPos);
          if newPos < reader.rdFrameCount {
            if reader.rdFrameCount < writFrameCount {
              i := i + 1;
              continue;
            }
          }
          FirstKey(st, reader.View(), newPos);
          reader.rdFrameCount := newPos;
          return 0;
        }
        i := i + 1;
      }
      NoKey(st, reader.View());
      return -1;
    }

    /** Slot `w + i` is that of frame `w + i - M`, or not written yet. */
    lemma Wraps(w: nat, i: nat)
      requires Valid() && w == writFrameCount && i < slots.Length
      ensures w + i >= slots.Length ==> (w + i) % slots.Length == (w + i - slots.Length) % slots.Length
      ensures w + i < slots.Length ==> !slots[(w + i) % slots.Length].valid
    {
      if w + i >= slots.Length {
        RingInv.ModAdd(w + i - slots.Length, slots.Length);
      } else {
        RingInv.SmallMod(w + i, slots.Length);
      }
    }

    /** Where the search for the oldest key frame starts to count. */
    static function From(st: Ring, rd: Reader): nat {
      if rd.r < st.w && Oldest(st) < rd.r then rd.r else Oldest(st)
    }

    static lemma FirstKey(st: Ring, rd: Reader, k: nat)
      requires st.slots != [] && From(st, rd) <= k < st.w && KeyAt(st, k)
      requires forall j :: From(st, rd) <= j < k ==> !KeyAt(st, j)
      ensures JumpOldest(st, rd) == (rd.(r := k), true)
    {
    }

    static lemma NoKey(st: Ring, rd: Reader)
      requires st.slots != [] && 0 < st.w && forall j :: From(st, rd) <= j < st.w ==> !KeyAt(st, j)
      ensures JumpOldest(st, rd) == (rd, false)
    {
    }

    /** 0 when a key frame was found, -1 when not. */
    method JumpToNewestIFrame(reader: MemReader) returns (ret: int)
      requires Valid()
      modifies reader`rdFrameCount
      ensures (reader.View(), ret == 0) == JumpNewest(State(), old(reader.View()))
      ensures ret == 0 || ret == -1
    {
      if writFrameCount == 0 {
        reader.rdFrameCount := 0;
        return 0;
      }
      hide WellFormed;
      ghost var st := State();
      var min: int := if writFrameCount > reader.rdFrameCount then reader.rdFrameCount else writFrameCount - slots.Length;
      var i: int := writFrameCount - 1;
      while i > min && i >= 0
        invariant -1 <= i < writFrameCount && (min >= 0 ==> min <= i || reader.rdFrameCount >= writFrameCount)
        invariant reader.View() == old(reader.View())
        invariant forall j :: 0 <= j && i < j < writFrameCount ==> !KeyAt(st, j)
        decreases i
      {
        var pos := i % slots.Length;
        if slots[pos].valid && slots[pos].kind == FRAME_I {
          assert KeyAt(st, i);
          if i >= reader.rdFrameCount {
            reader.rdFrameCount := i;
            return 0;
          }
          break;
        }
        i := i - 1;
      }
      return -1;
    }

    /** memcpy out of the byte ring, in one or two parts. */
    method CopyOut(position: nat, len: nat) returns (frame: seq<byte>)
      requires position < data.Length && len <= data.Length
      ensures frame == Read(data[..], position, len)
    {
      if position + len <= data.Length {
        frame := data[position..position + len];
      } else {
        var left := data.Length - position;
        frame := data[position..] + data[..len - left];
      }
    }

    static lemma JumpsStayBehind(st: Ring, rd: Reader)
      requires st.slots != [] && rd.r < st.w
      ensures JumpOldest(st, rd).0.r < st.w && JumpNewest(st, rd).0.r < st.w
    {
    }

    method GetOneFrameFromBuff(reader: MemReader, maxFrameLen: nat, timestamp: nat) returns (got: Got)
      requires Valid()
      modifies reader`rdFrameCount, reader`needIframe
      ensures (reader.View(), got) == Get(State(), old(reader.View()), Ask(maxFrameLen, reader.readByTime, timestamp))
    {
      ghost var st, rd := State(), reader.View();
      if rd.r < st.w {
        JumpsStayBehind(st, rd);
      }
      hide WellFormed, JumpOldest, RingSpec.GetFirst;
      if writFrameCount == reader.rdFrameCount {
        return Fast;
      }
      if writFrameCount < reader.rdFrameCount {
        var _ := JumpToOldestIFrame(reader);
        return Fast;
      }
      if writFrameCount - reader.rdFrameCount > slots.Length {
        var ret := JumpToOldestIFrame(reader);
        if ret == -1 {
          return Slow;
        }
      }
      got := GetFirst(reader, maxFrameLen, timestamp);
    }

    /** The first-frame rule of GetOneFrameFromBuff. */
    method GetFirst(reader: MemReader, maxFrameLen: nat, timestamp: nat) returns (got: Got)
      requires Valid() && reader.rdFrameCount < writFrameCount
      modifies reader`rdFrameCount, reader`needIframe
      ensures (reader.View(), got) == RingSpec.GetFirst(State(), old(reader.View()), Ask(maxFrameLen, reader.readByTime, timestamp))
    {
      ghost var st, rd := State(), reader.View();
      if reader.needIframe {
        if writFrameCount >= 5 {
          reader.rdFrameCount := writFrameCount - 5;
        }
        JumpsStayBehind(st, reader.View());
        hide WellFormed, JumpNewest, RingSpec.GetHere;
        var ret := JumpToNewestIFrame(reader);
        if ret < 0 {
          return Nothing;
        }
        reader.needIframe := false;
      }
      hide WellFormed, RingSpec.GetHere;
      got := GetHere(reader, maxFrameLen, timestamp);
    }

    /** The part of GetOneFrameFromBuff behind the first-frame rule. */
    method GetHere(reader: MemReader, maxFrameLen: nat, timestamp: nat) returns (got: Got)
      requires Valid() && reader.rdFrameCount < writFrameCount
      modifies reader`rdFrameCount
      ensures (reader.View(), got) == RingSpec.GetHere(State(), old(reader.View()), Ask(maxFrameLen, reader.readByTime, timestamp))
    {
      var rp := reader.rdFrameCount % slots.Length;
      if !slots[rp].valid {
        var ret := JumpToOldestIFrame(reader);
        if ret == -1 {
          return Slow;
        }
        rp := reader.rdFrameCount % slots.Length;
      }
      if slots[rp].len > maxFrameLen {
        return Nothing;
      }
      if reader.readByTime {
        if timestamp != 0 && timestamp < slots[rp].ts && slots[rp].ts - timestamp > 2000 {
          return SlowAt(slots[rp].ts);
        }
      }
      var frame := CopyOut(slots[rp].position, slots[rp].len);
      got := Delivered(reader.rdFrameCount, Frame(frame, slots[rp].ts, slots[rp].kind, slots[rp].priority));
      reader.rdFrameCount := reader.rdFrameCount + 1;
    }
  }
}
