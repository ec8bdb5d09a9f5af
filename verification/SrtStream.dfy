/** The re-chunker of srt-stream.c: any buffers in, writes of whole transport packets out. */
module SrtStream {
  import opened Media

  /** A transport packet (ISO/IEC 13818-1, section 2.4.3.2). */
  const MPEGTS_FIX_SIZE: nat := 188
  const SRT_MAX_PACKET_SIZE: nat := 564000
  const SRT_ERROR_THRESHOLD: nat := 100

  /** What one call writes, for `data` made of the carry and the new buffer. */
  function Chunks(data: seq<byte>, payload: nat): seq<seq<byte>>
    requires 0 < payload
  {
    if |data| > payload then [data[..payload]] + Chunks(data[payload..], payload)
    else
      var full := |data| - |data| % MPEGTS_FIX_SIZE;
      if full > 0 then [data[..full]] else []
  }

  /** What it keeps for the next call. */
  function Carry(data: seq<byte>, payload: nat): seq<byte>
    requires 0 < payload
  {
    if |data| > payload then Carry(data[payload..], payload)
    else data[|data| - |data| % MPEGTS_FIX_SIZE..]
  }

  /** Nothing is lost, added or moved, no write is longer than the payload size, and less
      than a packet is kept. */
  lemma {:induction false} ChunksConserve(data: seq<byte>, payload: nat)
    requires 0 < payload
    ensures Concat(Chunks(data, payload)) + Carry(data, payload) == data
    ensures forall i :: 0 <= i < |Chunks(data, payload)| ==> 0 < |Chunks(data, payload)[i]| <= payload
    ensures |Carry(data, payload)| < 188
    decreases |data|
  {
    if |data| > payload {
      ChunksConserve(data[payload..], payload);
      assert data == data[..payload] + data[payload..];
    } else {
      var full := |data| - |data| % MPEGTS_FIX_SIZE;
      assert Concat([data[..full]]) == data[..full];
    }
  }

  /** The bytes that go out in full payloads, before the last, shorter write. */
  function FullBytes(len: nat, payload: nat): nat
    requires 0 < payload
  {
    if len <= payload then 0 else (len - 1) / payload * payload
  }

  /** What one call writes ends on a packet boundary if and only if its full payloads do:
      there is none, or their total is a whole number of packets. */
  lemma WholePacketsIff(data: seq<byte>, payload: nat)
    requires 0 < payload
    ensures |Concat(Chunks(data, payload))| % 188 == 0 <==> FullBytes(|data|, payload) % 188 == 0
    ensures payload % 188 == 0 ==> |Concat(Chunks(data, payload))| % 188 == 0
  {
    WrittenLength(data, payload);
    var written, full := |Concat(Chunks(data, payload))|, FullBytes(|data|, payload);
    ModMinus(written, written - full);
    if payload % MPEGTS_FIX_SIZE == 0 {
      WholePacketChunks(data, payload);
      hide FullBytes;
      PacketSum(Chunks(data, payload));
    }
  }

  lemma {:induction false} WrittenLength(data: seq<byte>, payload: nat)
    requires 0 < payload
    ensures FullBytes(|data|, payload) <= |Concat(Chunks(data, payload))|
    ensures (|Concat(Chunks(data, payload))| - FullBytes(|data|, payload)) % MPEGTS_FIX_SIZE == 0
    decreases |data|
  {
    hide Chunks, Concat, FullBytes;
    if |data| > payload {
      WrittenLength(data[payload..], payload);
      FullNext(|data|, payload);
      FirstWritten(data, payload);
    } else {
      LastWritten(data, payload);
    }
  }

  lemma FirstWritten(data: seq<byte>, payload: nat)
    requires 0 < payload < |data|
    ensures |Concat(Chunks(data, payload))| == payload + |Concat(Chunks(data[payload..], payload))|
  {
  }

  lemma LastWritten(data: seq<byte>, payload: nat)
    requires 0 < payload && |data| <= payload
    ensures FullBytes(|data|, payload) == 0 && |Concat(Chunks(data, payload))| % MPEGTS_FIX_SIZE == 0
  {
    var full := |data| - |data| % MPEGTS_FIX_SIZE;
    assert Concat([data[..full]]) == data[..full];
  }

  /** Every write but the last is a full payload, and what is kept is what the full payloads
      leave, less whole packets. */
  lemma {:induction false} ChunksExact(data: seq<byte>, payload: nat)
    requires 0 < payload
    ensures forall i :: 0 <= i < |Chunks(data, payload)| - 1 ==> |Chunks(data, payload)[i]| == payload
    ensures FullBytes(|data|, payload) <= |data|
    ensures |Carry(data, payload)| == (|data| - FullBytes(|data|, payload)) % 188
    decreases |data|
  {
    if |data| > payload {
      ChunksExact(data[payload..], payload);
      FullNext(|data|, payload);
      hide FullBytes;
      assert Chunks(data, payload)[1..] == Chunks(data[payload..], payload);
    }
  }

  lemma FullNext(len: nat, payload: nat)
    requires 0 < payload < len
    ensures FullBytes(len, payload) == payload + FullBytes(len - payload, payload)
  {
    assert (len - 1) / payload == 1 + (len - payload - 1) / payload by {
      OneMore(len - payload - 1, payload);
    }
    var q := (len - payload - 1) / payload;
    assert (1 + q) * payload == payload + q * payload;
    if len - payload <= payload {
      assert len - payload - 1 < payload;
      assert q == 0;
    }
  }

  lemma OneMore(a: nat, m: nat)
    requires 0 < m
    ensures (a + m) / m == 1 + a / m
  {
    var q, r := a / m, a % m;
    assert a == q * m + r;
    assert a + m == (q + 1) * m + r;
    Quotient(q + 1, r, m);
  }

  lemma Quotient(q: nat, r: nat, m: nat)
    requires r < m
    ensures (q * m + r) / m == q
  {
    var d := (q * m + r) / m - q;
    var s := (q * m + r) % m;
    assert q * m + r == (q + d) * m + s;
    assert (q + d) * m == q * m + d * m;
    TimesAtLeast(d, m);
  }

  lemma TimesAtLeast(d: int, m: nat)
    ensures d >= 1 ==> d * m >= m
    ensures d <= -1 ==> d * m + m <= 0
  {
  }

  predicate WholePackets(writes: seq<seq<byte>>) {
    forall i :: 0 <= i < |writes| ==> |writes[i]| % 188 == 0
  }

  /** With a payload of whole packets every write is, and what is kept is exactly what
      does not fill a packet. */
  lemma {:induction false} WholePacketChunks(data: seq<byte>, payload: nat)
    requires 0 < payload && payload % MPEGTS_FIX_SIZE == 0
    ensures WholePackets(Chunks(data, payload))
    ensures |Carry(data, payload)| == |data| % MPEGTS_FIX_SIZE
    decreases |data|
  {
    if |data| > payload {
      WholePacketChunks(data[payload..], payload);
      ModMinus(|data|, payload);
    }
  }

  lemma ModMinus(a: nat, b: nat)
    requires b <= a && b % MPEGTS_FIX_SIZE == 0
    ensures (a - b) % MPEGTS_FIX_SIZE == a % MPEGTS_FIX_SIZE
  {
    assert a - b == MPEGTS_FIX_SIZE * (a / MPEGTS_FIX_SIZE - b / MPEGTS_FIX_SIZE) + a % MPEGTS_FIX_SIZE;
  }

  // ---------------------------------------------------------------- runs of calls

  /** A buffer that would run past the end of the carry buffer is cut. */
  function Clip(left: nat, buf: seq<byte>): seq<byte> {
    if 0 < left <= SRT_MAX_PACKET_SIZE && |buf| > SRT_MAX_PACKET_SIZE - left then buf[..SRT_MAX_PACKET_SIZE - left] else buf
  }

  /** What one call has to send. */
  function Data(carry: seq<byte>, buf: seq<byte>): seq<byte> {
    carry + Clip(|carry|, buf)
  }

  /** Nothing is carried, or the buffer fits behind it. */
  predicate Fits(carry: seq<byte>, buf: seq<byte>) {
    carry == [] || |carry| + |buf| <= 564000
  }

  lemma ClipFits(carry: seq<byte>, buf: seq<byte>)
    requires |carry| < MPEGTS_FIX_SIZE
    ensures Fits(carry, buf) ==> Data(carry, buf) == carry + buf
    ensures !Fits(carry, buf) ==> |Data(carry, buf)| < |carry| + |buf|
  {
  }

  /** One call loses nothing if and only if its buffer fits behind the carry. */
  lemma CallConservesIff(carry: seq<byte>, buf: seq<byte>, payload: nat)
    requires 0 < payload && |carry| < 188
    ensures var data := Data(carry, buf);
            Concat(Chunks(data, payload)) + Carry(data, payload) == carry + buf <==> Fits(carry, buf)
  {
    ClipFits(carry, buf);
    ChunksConserve(Data(carry, buf), payload);
    hide Chunks, Carry, Data, Fits;
    assert |carry + buf| == |carry| + |buf|;
  }

  /** All writes of a sequence of calls of srt_stream_proc_packet that end well, and the
      carry at the end: each call sends and keeps what the contract of ProcPacket says. */
  function Run(carry: seq<byte>, bufs: seq<seq<byte>>, payload: nat): (seq<seq<byte>>, seq<byte>)
    requires 0 < payload
    decreases |bufs|
  {
    if bufs == [] then ([], carry)
    else
      var data := Data(carry, bufs[0]);
      var (writes, left) := Run(Carry(data, payload), bufs[1..], payload);
      (Chunks(data, payload) + writes, left)
  }

  /** Every buffer of the run fits behind what is carried then. */
  predicate Unclipped(carry: seq<byte>, bufs: seq<seq<byte>>, payload: nat)
    requires 0 < payload
    decreases |bufs|
  {
    bufs != [] ==> Fits(carry, bufs[0]) && Unclipped(Carry(Data(carry, bufs[0]), payload), bufs[1..], payload)
  }

  /** However the input is split into calls, every write fits the payload and less than a
      packet is carried; writes and carry together are the input if and only if no buffer
      is clipped. */
  lemma RunConserves(carry: seq<byte>, bufs: seq<seq<byte>>, payload: nat)
    requires 0 < payload && |carry| < 188
    ensures var (writes, left) := Run(carry, bufs, payload);
            && (Concat(writes) + left == carry + Concat(bufs) <==> Unclipped(carry, bufs, payload))
            && (forall i :: 0 <= i < |writes| ==> 0 < |writes[i]| <= payload)
            && |left| < 188
  {
    RunSizes(carry, bufs, payload);
    if Unclipped(carry, bufs, payload) {
      RunKeeps(carry, bufs, payload);
    }
    hide Run, Unclipped;
    assert |carry + Concat(bufs)| == |carry| + |Concat(bufs)|;
  }

  /** Bytes are never added, and some are lost when a buffer is clipped. */
  lemma {:induction false} RunSizes(carry: seq<byte>, bufs: seq<seq<byte>>, payload: nat)
    requires 0 < payload && |carry| < MPEGTS_FIX_SIZE
    ensures var (writes, left) := Run(carry, bufs, payload);
            && |Concat(writes)| + |left| <= |carry| + |Concat(bufs)|
            && (!Unclipped(carry, bufs, payload) ==> |Concat(writes)| + |left| < |carry| + |Concat(bufs)|)
            && (forall i :: 0 <= i < |writes| ==> 0 < |writes[i]| <= payload)
            && |left| < MPEGTS_FIX_SIZE
    decreases |bufs|
  {
    if bufs != [] {
      var data := Data(carry, bufs[0]);
      var now, kept := Chunks(data, payload), Carry(data, payload);
      RunFirst(carry, bufs, payload);
      hide Chunks, Carry, Run, Concat, Data, Fits;
      ClipFits(carry, bufs[0]);
      ChunksConserve(data, payload);
      assert |Concat(now)| + |kept| == |data|;
      RunSizes(kept, bufs[1..], payload);
      var (later, left) := Run(kept, bufs[1..], payload);
      ConcatAppend(now, later);
      ConcatFirst(bufs);
      assert |carry + bufs[0]| == |carry| + |bufs[0]|;
    } else {
      assert Run(carry, bufs, payload) == ([], carry);
      assert Concat<byte>([]) == [];
    }
  }

  lemma {:induction false} RunKeeps(carry: seq<byte>, bufs: seq<seq<byte>>, payload: nat)
    requires 0 < payload && |carry| < MPEGTS_FIX_SIZE && Unclipped(carry, bufs, payload)
    ensures var (writes, left) := Run(carry, bufs, payload); Concat(writes) + left == carry + Concat(bufs)
    decreases |bufs|
  {
    if bufs != [] {
      var data := Data(carry, bufs[0]);
      var now, kept := Chunks(data, payload), Carry(data, payload);
      RunFirst(carry, bufs, payload);
      assert Unclipped(kept, bufs[1..], payload);
      hide Chunks, Carry, Run, Concat, Data, Unclipped;
      ClipFits(carry, bufs[0]);
      ChunksConserve(data, payload);
      RunKeeps(kept, bufs[1..], payload);
      var (later, left) := Run(kept, bufs[1..], payload);
      ConcatAppend(now, later);
      ConcatFirst(bufs);
      Chain(Concat(now), Concat(later), left, kept, Concat(bufs[1..]), carry, bufs[0]);
    } else {
      assert Run(carry, bufs, payload) == ([], carry);
      assert Concat<byte>([]) == [];
    }
  }

  lemma Chain(now: seq<byte>, later: seq<byte>, left: seq<byte>, kept: seq<byte>, rest: seq<byte>, carry: seq<byte>, buf: seq<byte>)
    requires now + kept == carry + buf && later + left == kept + rest
    ensures (now + later) + left == carry + (buf + rest)
  {
    calc {
      (now + later) + left;
      now + (later + left);
      now + (kept + rest);
      (now + kept) + rest;
      (carry + buf) + rest;
      carry + (buf + rest);
    }
  }

  lemma ConcatFirst(bufs: seq<seq<byte>>)
    requires bufs != []
    ensures Concat(bufs) == bufs[0] + Concat(bufs[1..])
  {
  }

  lemma RunFirst(carry: seq<byte>, bufs: seq<seq<byte>>, payload: nat)
    requires 0 < payload && bufs != []
    ensures var data := Data(carry, bufs[0]);
            var (later, left) := Run(Carry(data, payload), bufs[1..], payload);
            Run(carry, bufs, payload) == (Chunks(data, payload) + later, left)
  {
  }

  /** With a payload of whole packets the writes are whole packets, and when no buffer is
      clipped they are together the longest whole-packet prefix of the input. */
  lemma RunWholePackets(carry: seq<byte>, bufs: seq<seq<byte>>, payload: nat)
    requires 0 < payload && payload % 188 == 0 && |carry| < 188
    ensures var (writes, left) := Run(carry, bufs, payload);
            var all := carry + Concat(bufs);
            && WholePackets(writes)
            && (Unclipped(carry, bufs, payload) ==>
                  && Concat(writes) == all[..|all| - |all| % 188]
                  && left == all[|all| - |all| % 188..])
  {
    RunPackets(carry, bufs, payload);
    RunConserves(carry, bufs, payload);
    var (writes, left) := Run(carry, bufs, payload);
    var all := carry + Concat(bufs);
    var w := Concat(writes);
    assert |w| % MPEGTS_FIX_SIZE == 0 by { PacketSum(writes); }
    if Unclipped(carry, bufs, payload) {
      assert all == w + left;
      PrefixIs(all, w, left);
    }
  }

  lemma PrefixIs(all: seq<byte>, w: seq<byte>, left: seq<byte>)
    requires all == w + left && |w| % MPEGTS_FIX_SIZE == 0 && |left| < MPEGTS_FIX_SIZE
    ensures w == all[..|all| - |all| % MPEGTS_FIX_SIZE] && left == all[|all| - |all| % MPEGTS_FIX_SIZE..]
  {
    ModMinus(|all|, |w|);
    assert |all| % MPEGTS_FIX_SIZE == |left|;
  }

  lemma {:induction false} PacketSum(writes: seq<seq<byte>>)
    requires WholePackets(writes)
    ensures |Concat(writes)| % MPEGTS_FIX_SIZE == 0
  {
    if writes != [] {
      PacketSum(writes[1..]);
      ModMinus(|Concat(writes)|, |writes[0]|);
    }
  }

  lemma {:induction false} RunPackets(carry: seq<byte>, bufs: seq<seq<byte>>, payload: nat)
    requires 0 < payload && payload % MPEGTS_FIX_SIZE == 0
    ensures WholePackets(Run(carry, bufs, payload).0)
    decreases |bufs|
  {
    if bufs != [] {
      var data := Data(carry, bufs[0]);
      WholePacketChunks(data, payload);
      RunPackets(Carry(data, payload), bufs[1..], payload);
      hide Chunks, Carry;
    }
  }

  /** How the muxer splits its output makes no difference to what is sent, as long as no
      buffer is clipped. */
  lemma SplitIndependent(carry: seq<byte>, a: seq<seq<byte>>, b: seq<seq<byte>>, payload: nat)
    requires 0 < payload && payload % 188 == 0 && |carry| < 188 && Concat(a) == Concat(b)
    requires Unclipped(carry, a, payload) && Unclipped(carry, b, payload)
    ensures Concat(Run(carry, a, payload).0) == Concat(Run(carry, b, payload).0)
    ensures Run(carry, a, payload).1 == Run(carry, b, payload).1
  {
    RunWholePackets(carry, a, payload);
    RunWholePackets(carry, b, payload);
  }

  // ---------------------------------------------------------------- srt_stream_proc_packet

  /** The return values of a write after which the stream is restarted. */
  predicate Fatal(ret: int) {
    ret == -5009 || ret == -2001 || ret == -5004 || ret == -17 || (-90 >= ret && ret >= -113)
  }

  /** How many of the answers are negative. */
  function Failures(answers: seq<int>): nat {
    if answers == [] then 0
    else Failures(answers[..|answers| - 1]) + if answers[|answers| - 1] < 0 then 1 else 0
  }

  lemma FailuresNext(answers: seq<int>, ret: int)
    ensures Failures(answers + [ret]) == Failures(answers) + if ret < 0 then 1 else 0
  {
    assert (answers + [ret])[..|answers|] == answers;
  }

  /** The byte-wide error counter after the answers from `from` on. */
  function Counted(cnt: nat, answers: seq<int>, from: nat): int
    requires from <= |answers|
  {
    (cnt + Failures(answers) - Failures(answers[..from])) % 256
  }

  lemma CountedNext(cnt: nat, answers: seq<int>, from: nat, ret: int)
    requires from <= |answers|
    ensures var c := Counted(cnt, answers, from);
            Counted(cnt, answers + [ret], from) == if ret < 0 then (c + 1) % 256 else c
  {
    FailuresNext(answers, ret);
    assert (answers + [ret])[..from] == answers[..from];
  }

  predicate NoFatal(answers: seq<int>, from: nat) {
    forall i :: from <= i < |answers| ==> !Fatal(answers[i])
  }

  /** The numbers of the negative answers from `from` up to `end`. */
  function Negative(answers: seq<int>, from: nat, end: nat): set<nat>
    requires end <= |answers|
  {
    set i: nat | from <= i < end && answers[i] < 0
  }

  lemma {:induction false} NegativeCount(answers: seq<int>, from: nat, end: nat)
    requires from <= end <= |answers|
    ensures |Negative(answers, from, end)| == Failures(answers[..end]) - Failures(answers[..from])
    decreases end
  {
    if from == end {
      assert Negative(answers, from, end) == {};
    } else {
      NegativeCount(answers, from, end - 1);
      FailuresNext(answers[..end - 1], answers[end - 1]);
      assert answers[..end] == answers[..end - 1] + [answers[end - 1]];
      assert Negative(answers, from, end)
          == Negative(answers, from, end - 1) + if answers[end - 1] < 0 then {end - 1} else {};
    }
  }

  /** The counter is the number of negative answers, in one byte. */
  lemma CountedIs(cnt: nat, answers: seq<int>, from: nat, end: nat)
    requires from <= end <= |answers|
    ensures Counted(cnt, answers[..end], from) == (cnt + |Negative(answers, from, end)|) % 256
  {
    NegativeCount(answers, from, end);
    assert answers[..end][..from] == answers[..from];
  }

  class SrtOutput {
    const payloadSize: nat
    const leftData: array<byte>
    var leftSize: nat
    var sendErrorCnt: nat
    var active: bool
    var stopping: bool
    var disconnected: bool
    /** What mgw_libsrt_write has been given, write by write. */
    ghost var log: seq<seq<byte>>
    /** What it has answered, write by write. */
    ghost var answers: seq<int>

    ghost predicate Valid()
      reads this
    {
      |answers| == |log| && 0 < payloadSize && leftData.Length == SRT_MAX_PACKET_SIZE && leftSize < MPEGTS_FIX_SIZE && sendErrorCnt < 256
    }

    ghost function Left(): seq<byte>
      reads this, leftData
      requires leftSize <= leftData.Length
    {
      leftData[..leftSize]
    }

    constructor (payload: nat)
      requires 0 < payload
      ensures Valid() && Left() == [] && log == [] && answers == [] && active && !stopping && !disconnected && payloadSize == payload
      ensures fresh(leftData)
    {
      payloadSize := payload;
      leftData := new byte[SRT_MAX_PACKET_SIZE](_ => 0);
      leftSize, sendErrorCnt := 0, 0;
      active, stopping, disconnected := true, false, false;
      log, answers := [], [];
    }

    /** Since the answer number `from`, when the error counter was `cnt`: no fatal one, and
        the negative ones are counted. */
    ghost predicate Going(cnt: nat, from: nat)
      reads this
    {
      from <= |answers| && NoFatal(answers, from) && sendErrorCnt == Counted(cnt, answers, from)
    }

    /** The last answer is `ret`, the first fatal one since number `from`, when the error
        counter was `cnt`; the negative ones before it are counted. */
    ghost predicate Ended(ret: int, cnt: nat, from: nat)
      reads this
    {
      && from < |answers| && NoFatal(answers[..|answers| - 1], from) && ret == answers[|answers| - 1] && Fatal(ret)
      && sendErrorCnt == Counted(cnt, answers[..|answers| - 1], from)
    }

    /** Which answers end the stream, and what the counter is then, in numbers. */
    lemma AnswersSince(ret: int, cnt: nat, from: nat, ends: bool)
      requires if ends then Ended(ret, cnt, from) else Going(cnt, from)
      ensures var end := if ends then |answers| - 1 else |answers|;
              && from <= end && sendErrorCnt == (cnt + |set i: nat | from <= i < end && answers[i] < 0|) % 256
              && (forall i :: from <= i < end ==> answers[i] !in {-5009, -2001, -5004, -17} && !(-113 <= answers[i] <= -90))
              && (ends ==> answers[end] in {-5009, -2001, -5004, -17} || -113 <= answers[end] <= -90)
    {
      var end := if ends then |answers| - 1 else |answers|;
      CountedIs(cnt, answers, from, end);
      assert answers[..|answers|] == answers;
      forall i | from <= i < end ensures !Fatal(answers[i]) {
        assert answers[..end][i] == answers[i];
      }
    }

    /** The library call; what it returns is not known. */
    method LibsrtWrite(data: seq<byte>) returns (ret: int)
      modifies this`log, this`answers
      ensures log == old(log) + [data] && answers == old(answers) + [ret]
    {
      ret := *;
      log, answers := log + [data], answers + [ret];
    }

    /** The negative counter of a write that failed but did not end the stream. */
    method CountError(ret: int)
      requires sendErrorCnt < 256
      modifies this`sendErrorCnt
      ensures sendErrorCnt == if ret < 0 then (old(sendErrorCnt) + 1) % 256 else old(sendErrorCnt)
    {
      if ret < 0 {
        sendErrorCnt := (sendErrorCnt + 1) % 256;
      }
    }

    /** srt_stream_proc_packet.  A stream that sends is ended if and only if the counter was
        above 100 or the library gave one of the answers -5009, -2001, -5004, -17 or -113 to
        -90, which is then the last one.  Every other negative answer is counted, and changes
        nothing else. */
    method ProcPacket(buf: seq<byte>) returns (ret: int)
      requires Valid()
      modifies this`leftSize, this`sendErrorCnt, this`disconnected, this`log, this`answers, leftData
      ensures Valid()
      ensures old(active && !stopping && !disconnected) ==>
                (disconnected <==>
                   || old(sendErrorCnt) > 100
                   || exists i :: old(|answers|) <= i < |answers|
                                  && (answers[i] in {-5009, -2001, -5004, -17} || -113 <= answers[i] <= -90))
      ensures old(active && !stopping && !disconnected && sendErrorCnt <= 100) ==>
                var from, end := old(|answers|), if disconnected then |answers| - 1 else |answers|;
                && from <= end && sendErrorCnt == (old(sendErrorCnt) + |set i: nat | from <= i < end && answers[i] < 0|) % 256
                && (forall i :: from <= i < end ==> answers[i] !in {-5009, -2001, -5004, -17} && !(-113 <= answers[i] <= -90))
      ensures !old(active && !stopping && !disconnected) ==>
                ret == -1 && log == old(log) && Left() == old(Left()) && disconnected == old(disconnected)
      ensures old(active && !stopping && !disconnected && sendErrorCnt > 100) ==>
                ret == 0 && log == old(log) && Left() == old(Left()) && disconnected && sendErrorCnt == 0
      ensures old(active && !stopping && !disconnected && sendErrorCnt <= 100) ==>
                var data := Data(old(Left()), buf);
                if disconnected then Ended(ret, old(sendErrorCnt), old(|answers|)) && Left() == [] && old(log) <= log <= old(log) + Chunks(data, payloadSize)
                else
                  && ret == |buf| && log == old(log) + Chunks(data, payloadSize) && Left() == Carry(data, payloadSize)
                  && Going(old(sendErrorCnt), old(|answers|))
    {
      if !active || stopping || disconnected {
        return -1;
      }
      if sendErrorCnt > SRT_ERROR_THRESHOLD {
        sendErrorCnt := 0;
        disconnected := true;
        return 0;
      }
      hide Data, Chunks, Carry, Failures, Counted, NoFatal, Fatal;
      var data := TakeLeft(buf);
      ghost var cnt, from := sendErrorCnt, |answers|;
      NoneSince();
      var seek;
      seek, ret := SendPayloads(data, cnt, from);
      if disconnected {
        AnswersSince(ret, cnt, from, true);
        return;
      }
      ret := SendRest(data, seek, cnt, from);
      AnswersSince(ret, cnt, from, disconnected);
      if !disconnected {
        ret := |buf|;
      }
    }

    /** Nothing has been answered yet. */
    lemma NoneSince()
      requires sendErrorCnt < 256
      ensures Going(sendErrorCnt, |answers|)
    {
      assert answers[..|answers|] == answers;
    }

    /** What was kept with the new buffer behind it, as far as it fits. */
    method TakeLeft(buf: seq<byte>) returns (data: seq<byte>)
      requires Valid()
      modifies this`leftSize
      ensures data == Data(old(Left()), buf) && leftSize == 0
    {
      data := buf;
      if leftSize > 0 {
        var size := |buf|;
        if size > SRT_MAX_PACKET_SIZE - leftSize {
          size := SRT_MAX_PACKET_SIZE - leftSize;
        }
        data := leftData[..leftSize] + buf[..size];
        leftSize := 0;
      }
    }

    /** The loop of writes of exactly the payload size. */
    method SendPayloads(data: seq<byte>, ghost cnt: nat, ghost from: nat) returns (seek: nat, ret: int)
      requires Valid() && !disconnected && leftSize == 0 && Going(cnt, from)
      modifies this`sendErrorCnt, this`disconnected, this`log, this`answers
      ensures Valid() && seek <= |data|
      ensures if disconnected then Ended(ret, cnt, from) else Going(cnt, from)
      ensures disconnected ==> old(log) <= log <= old(log) + Chunks(data, payloadSize)
      ensures !disconnected ==> |data| - seek <= payloadSize
      ensures !disconnected ==> log + Chunks(data[seek..], payloadSize) == old(log) + Chunks(data, payloadSize)
      ensures !disconnected ==> Carry(data[seek..], payloadSize) == Carry(data, payloadSize)
      ensures !disconnected ==> old(log) <= log
    {
      seek, ret := 0, 0;
      while |data| - seek > payloadSize
        invariant Valid() && !disconnected && seek <= |data| && old(log) <= log && Going(cnt, from)
        invariant log + Chunks(data[seek..], payloadSize) == old(log) + Chunks(data, payloadSize)
        invariant Carry(data[seek..], payloadSize) == Carry(data, payloadSize)
        decreases |data| - seek
      {
        assert data[seek..][..payloadSize] == data[seek..seek + payloadSize];
        assert data[seek..][payloadSize..] == data[seek + payloadSize..];
        ghost var before, was := log, answers;
        ret := LibsrtWrite(data[seek..seek + payloadSize]);
        assert before + Chunks(data[seek..], payloadSize) == log + Chunks(data[seek + payloadSize..], payloadSize);
        assert answers[..|answers| - 1] == was;
        CountedNext(cnt, was, from, ret);
        if Fatal(ret) {
          disconnected := true;
          return;
        }
        CountError(ret);
        seek := seek + payloadSize;
      }
    }

    /** The whole packets of what is left in one write; the rest is kept. */
    method SendRest(data: seq<byte>, seek: nat, ghost cnt: nat, ghost from: nat) returns (ret: int)
      requires Valid() && !disconnected && leftSize == 0 && Going(cnt, from) && seek <= |data| && |data| - seek <= payloadSize
      modifies this`leftSize, this`sendErrorCnt, this`disconnected, this`log, this`answers, leftData
      ensures Valid() && old(log) <= log <= old(log) + Chunks(data[seek..], payloadSize)
      ensures if disconnected then Ended(ret, cnt, from) && leftSize == 0 else Going(cnt, from)
      ensures !disconnected ==> log == old(log) + Chunks(data[seek..], payloadSize) && Left() == Carry(data[seek..], payloadSize)
    {
      ret := 0;
      var left := |data| - seek;
      var at := seek;
      if left > 0 {
        var tsLeft := left % MPEGTS_FIX_SIZE;
        var full := left - tsLeft;
        assert data[seek..][..full] == data[seek..seek + full];
        if full > 0 {
          ghost var was := answers;
          ret := LibsrtWrite(data[seek..seek + full]);
          assert answers[..|answers| - 1] == was;
          CountedNext(cnt, was, from, ret);
          if Fatal(ret) {
            disconnected := true;
            return;
          }
          CountError(ret);
          at := seek + full;
        }
        assert data[seek..][full..] == data[seek + full..];
        if tsLeft > 0 {
          forall i | 0 <= i < tsLeft {
            leftData[i] := data[at + i];
          }
          leftSize := tsLeft;
          assert Left() == data[at..];
        }
      }
    }
  }
}
