/**
 The one-slot outbox of ws-client.c: any number of senders, one semaphore token, one
 buffer under a mutex, and the writable callback of the service loop.  Each action is
 one atomic step; the mutex makes each fill and each write one.
 */
module Outbox {
  import opened Media

  /** What a caller wants to send: send_message and wsclient_send fill the buffer and set
      its size, response_message fills it and leaves the size alone. */
  datatype Job = Sized(bytes: seq<byte>) | Reply(bytes: seq<byte>)

  datatype Pc = Idle | Waiting(job: Job) | Holding(job: Job)

  type Thread = nat

  datatype State = State(
    sem: nat,
    pcs: map<Thread, Pc>,
    buffer: seq<byte>,
    size: nat,
    reqCnt: int,
    doCnt: int,
    filled: seq<seq<byte>>,
    written: seq<seq<byte>>,
    replies: nat,
    dropped: nat)

  datatype Action =
    | Call(t: Thread, job: Job)
    | Take(t: Thread)
    | Fill(t: Thread)
    | Drop(t: Thread)
    | Writable

  /** wsclient_create: the semaphore starts at 0 and is posted once at the end. */
  function Created(capacity: nat): State {
    State(0 + 1, map[], seq(capacity, _ => 0), 0, 0, 0, [], [], 0, 0)
  }

  function PcOf(s: State, t: Thread): Pc {
    if t in s.pcs then s.pcs[t] else Idle
  }

  predicate Enabled(s: State, a: Action) {
    match a
    case Call(t, job) => PcOf(s, t).Idle? && 0 < |job.bytes| <= |s.buffer|
    case Take(t) => PcOf(s, t).Waiting? && s.sem > 0
    case Fill(t) => PcOf(s, t).Holding?
    case Drop(t) => PcOf(s, t).Holding? && PcOf(s, t).job.Sized?
    case Writable => true
  }

  function Overlay(buffer: seq<byte>, bytes: seq<byte>): seq<byte> {
    if |bytes| <= |buffer| then bytes + buffer[|bytes|..] else bytes
  }

  function Step(s: State, a: Action): State
    requires Enabled(s, a)
  {
    match a
    case Call(t, job) => s.(pcs := s.pcs[t := Waiting(job)])
    case Take(t) => s.(sem := s.sem - 1, pcs := s.pcs[t := Holding(PcOf(s, t).job)])
    case Fill(t) =>
      var job := PcOf(s, t).job;
      var s1 := s.(pcs := s.pcs[t := Idle], buffer := Overlay(s.buffer, job.bytes), reqCnt := s.reqCnt + 1);
      if job.Sized? then s1.(size := |job.bytes|, filled := s.filled + [job.bytes])
      else s1.(replies := s.replies + 1)
    case Drop(t) =>
      // The client is not active; the token has been taken and is not given back.
      s.(pcs := s.pcs[t := Idle], dropped := s.dropped + 1)
    case Writable =>
      if s.size > 0 then
        s.(written := s.written + [s.buffer[..if s.size <= |s.buffer| then s.size else |s.buffer|]],
           size := 0, sem := s.sem + 1, doCnt := s.doCnt + 1)
      else s
  }

  predicate RunOk(s: State, acts: seq<Action>)
    decreases |acts|
  {
    acts != [] ==> Enabled(s, acts[0]) && RunOk(Step(s, acts[0]), acts[1..])
  }

  function Run(s: State, acts: seq<Action>): State
    requires RunOk(s, acts)
    decreases |acts|
  {
    if acts == [] then s else Run(Step(s, acts[0]), acts[1..])
  }

  function Holders(s: State): set<Thread> {
    set t | t in s.pcs && s.pcs[t].Holding?
  }

  function Pending(s: State): nat {
    if s.size > 0 then 1 else 0
  }

  /** The one token is in the semaphore, with a thread, on its way out with a message, or
      lost to a reply or to a call that found the client inactive. */
  predicate TokenInv(s: State) {
    s.sem + |Holders(s)| + Pending(s) + s.replies + s.dropped == 1
  }

  predicate BufferInv(s: State) {
    && s.size <= |s.buffer|
    && s.filled == s.written + (if s.size > 0 then [s.buffer[..s.size]] else [])
    && s.reqCnt - s.doCnt == Pending(s) + s.replies
    && (forall t :: t in s.pcs && !s.pcs[t].Idle? ==> 0 < |s.pcs[t].job.bytes| <= |s.buffer|)
  }

  predicate Inv(s: State) {
    TokenInv(s) && BufferInv(s)
  }

  lemma CreatedInv(capacity: nat)
    ensures Inv(Created(capacity))
  {
    assert Holders(Created(capacity)) == {};
  }

  lemma HoldersStep(s: State, t: Thread, pc: Pc)
    ensures var h := Holders(s.(pcs := s.pcs[t := pc])); h == if pc.Holding? then Holders(s) + {t} else Holders(s) - {t}
  {
  }

  /** Whoever holds the token finds the buffer empty, so no filled message is overwritten
      before it has been written. */
  lemma FillFindsEmpty(s: State, t: Thread)
    requires Inv(s) && Enabled(s, Fill(t))
    ensures s.size == 0 && Holders(s) == {t} && s.sem == 0
  {
    assert t in Holders(s);
    assert |Holders(s)| == |Holders(s) - {t}| + 1;
    assert Holders(s) - {t} == {};
  }

  lemma TokenKept(s: State, a: Action)
    requires Inv(s) && Enabled(s, a)
    ensures TokenInv(Step(s, a))
  {
    var u := Step(s, a);
    match a {
      case Call(t, job) =>
        HoldersStep(s, t, Waiting(job));
        assert t !in Holders(s) && Holders(u) == Holders(s);
      case Take(t) =>
        HoldersStep(s, t, Holding(PcOf(s, t).job));
        assert t !in Holders(s) && Holders(u) == Holders(s) + {t};
      case Fill(t) =>
        FillFindsEmpty(s, t);
        HoldersStep(s, t, Idle);
        assert Holders(u) == {};
      case Drop(t) =>
        FillFindsEmpty(s, t);
        HoldersStep(s, t, Idle);
        assert Holders(u) == {};
      case Writable =>
        assert Holders(u) == Holders(s);
    }
  }

  lemma BufferKept(s: State, a: Action)
    requires Inv(s) && Enabled(s, a)
    ensures BufferInv(Step(s, a))
  {
    if a.Fill? {
      FillFindsEmpty(s, a.t);
      var bytes := PcOf(s, a.t).job.bytes;
      assert Overlay(s.buffer, bytes)[..|bytes|] == bytes;
    }
  }

  /** In every reachable state of every interleaving there is one token, every message
      with a size has been written once, in the order of the fills, except at most the
      last one, and the two counters differ by that one and the replies. */
  lemma {:induction false} RunKept(s: State, acts: seq<Action>)
    requires Inv(s) && RunOk(s, acts)
    ensures Inv(Run(s, acts))
    decreases |acts|
  {
    if acts != [] {
      TokenKept(s, acts[0]);
      BufferKept(s, acts[0]);
      hide Inv, Step, Enabled;
      assert Inv(Step(s, acts[0])) by { Both(Step(s, acts[0])); }
      RunKept(Step(s, acts[0]), acts[1..]);
    }
  }

  lemma Both(s: State)
    requires TokenInv(s) && BufferInv(s)
    ensures Inv(s)
  {
  }

  /** From creation on, whoever sends and however the steps interleave. */
  lemma FromCreation(capacity: nat, acts: seq<Action>)
    requires RunOk(Created(capacity), acts)
    ensures var s := Run(Created(capacity), acts);
            && s.sem + |Holders(s)| + Pending(s) <= 1
            && s.written <= s.filled && |s.filled| == |s.written| + Pending(s)
            && s.reqCnt - s.doCnt == Pending(s) + s.replies
            && s.replies + s.dropped <= 1
  {
    CreatedInv(capacity);
    RunKept(Created(capacity), acts);
  }

  /** No token is in use and none can be taken. */
  predicate Dead(s: State) {
    s.replies + s.dropped > 0
  }

  /** After the first reply, or the first call that took the token and found the client
      inactive, nothing more is ever filled or written, whatever happens. */
  lemma {:induction false} DeadForever(s: State, acts: seq<Action>)
    requires Inv(s) && RunOk(s, acts) && Dead(s)
    ensures var u := Run(s, acts);
            && u.filled == s.filled && u.written == s.written && u.buffer == s.buffer && Dead(u)
            && u.written == u.filled && u.replies + u.dropped == 1
    decreases |acts|
  {
    assert Holders(s) == {} && s.sem == 0 && s.size == 0;
    if acts != [] {
      var a := acts[0];
      NoHolder(s);
      TokenKept(s, a);
      BufferKept(s, a);
      DeadForever(Step(s, a), acts[1..]);
    }
  }

  /** The token is lost by a reply that is filled and by a call that holds it when the client
      is inactive, and by nothing else; it is given back by a write only. */
  lemma TokenMoves(s: State, a: Action)
    requires Inv(s) && Enabled(s, a)
    ensures var u := Step(s, a);
            && (Dead(u) <==> Dead(s) || a.Drop? || (a.Fill? && PcOf(s, a.t).job.Reply?))
            && u.sem == s.sem + (if a.Writable? && s.size > 0 then 1 else if a.Take? then -1 else 0)
            && |Holders(u)| == |Holders(s)| + (if a.Take? then 1 else if a.Fill? || a.Drop? then -1 else 0)
  {
    var u := Step(s, a);
    match a {
      case Call(t, job) =>
        HoldersStep(s, t, Waiting(job));
        assert t !in Holders(s) && Holders(u) == Holders(s);
      case Take(t) =>
        HoldersStep(s, t, Holding(PcOf(s, t).job));
        assert t !in Holders(s);
      case Fill(t) =>
        HoldersStep(s, t, Idle);
        assert t in Holders(s);
      case Drop(t) =>
        HoldersStep(s, t, Idle);
        assert t in Holders(s);
      case Writable =>
        assert Holders(u) == Holders(s);
    }
  }

  /** What goes into the buffer and out of it: a fill puts the message in front of what was
      there and sets the size only for a message that is to be written; the callback writes
      that many bytes, once. */
  lemma BufferMoves(s: State, a: Action)
    requires Inv(s) && Enabled(s, a)
    ensures var u := Step(s, a);
            && |u.buffer| == |s.buffer|
            && (a.Fill? ==>
                  var job := PcOf(s, a.t).job;
                  && u.buffer == job.bytes + s.buffer[|job.bytes|..] && u.reqCnt == s.reqCnt + 1
                  && u.size == (if job.Sized? then |job.bytes| else s.size) && u.written == s.written
                  && PcOf(u, a.t) == Idle)
            && (a.Writable? && s.size > 0 ==>
                  u.written == s.written + [s.buffer[..s.size]] && u.size == 0 && u.doCnt == s.doCnt + 1)
            && (a.Writable? && s.size == 0 ==> u == s)
            && (forall t :: a.Writable? || t != a.t ==> PcOf(u, t) == PcOf(s, t))
            && (a.Call? ==> PcOf(u, a.t) == Waiting(a.job)) && (a.Take? ==> PcOf(u, a.t) == Holding(PcOf(s, a.t).job))
            && (!a.Fill? && !a.Writable? ==>
                  u.buffer == s.buffer && u.size == s.size && u.written == s.written && u.reqCnt == s.reqCnt && u.doCnt == s.doCnt)
  {
    if a.Fill? {
      FillFindsEmpty(s, a.t);
    }
  }

  lemma NoHolder(s: State)
    requires Holders(s) == {}
    ensures forall t :: !PcOf(s, t).Holding?
  {
    assert forall t :: PcOf(s, t).Holding? ==> t in Holders(s);
  }

  /** As long as the token is not lost and no thread has it, an idle thread can still get a
      message out: five steps lead to a state in which it is the last one written. */
  lemma AliveCanSend(s: State, t: Thread, bytes: seq<byte>)
    requires Inv(s) && !Dead(s) && PcOf(s, t).Idle? && Holders(s) == {} && 0 < |bytes| <= |s.buffer|
    ensures var acts := [Writable, Call(t, Sized(bytes)), Take(t), Fill(t), Writable];
            && RunOk(s, acts)
            && Run(s, acts).filled == s.filled + [bytes]
            && Run(s, acts).written == s.filled + [bytes]
  {
    var s1 := Step(s, Writable);
    TokenKept(s, Writable);
    BufferKept(s, Writable);
    assert s1.written == s1.filled == s.filled;
    var s2 := Step(s1, Call(t, Sized(bytes)));
    var s3 := Step(s2, Take(t));
    var s4 := Step(s3, Fill(t));
    var s5 := Step(s4, Writable);
    assert Overlay(s.buffer, bytes)[..|bytes|] == bytes;
    assert s5.written == s.filled + [bytes];
    var rest := [Call(t, Sized(bytes)), Take(t), Fill(t), Writable];
    hide Step, Enabled;
    RunNext(s5, [], s4, Writable);
    RunNext(s4, [Writable], s3, Fill(t));
    RunNext(s3, [Fill(t), Writable], s2, Take(t));
    RunNext(s2, [Take(t), Fill(t), Writable], s1, Call(t, Sized(bytes)));
    RunNext(s1, rest, s, Writable);
  }

  lemma RunNext(v: State, rest: seq<Action>, s: State, a: Action)
    requires Enabled(s, a) && Step(s, a) == v && RunOk(v, rest)
    ensures RunOk(s, [a] + rest) && Run(s, [a] + rest) == Run(v, rest)
  {
    assert ([a] + rest)[1..] == rest;
  }
}
