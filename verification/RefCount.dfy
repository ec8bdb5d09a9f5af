/**
 The reference count of mgw-internal.h under any interleaving of any number of threads:
 atomic increments and decrements by owners, and the compare-and-swap loop of
 mgw_get_ref by anyone.
 */
module RefCount {

  type Thread = nat

  /** `Read(v)`: inside the loop of mgw_get_ref with `owners == v`; `Failed`: behind a failed
      swap, before the word is read again. */
  datatype Pc = Idle | Read(v: int) | Failed

  /** `refs` is the shared word; the rest is history.  `owners` holds each thread once for
      every reference it has. */
  datatype State = State(
    refs: int,
    owners: multiset<Thread>,
    pcs: map<Thread, Pc>,
    destroyed: nat,
    changes: map<Thread, nat>,
    total: nat,
    failures: map<Thread, nat>)

  datatype Action =
    | AddRef(t: Thread)
    | Release(t: Thread)
    | Load(t: Thread)
    | Swap(t: Thread)
    | Reload(t: Thread)

  function Created(t: Thread): State {
    State(0, multiset{t}, map[], 0, map[], 0, map[])
  }

  function PcOf(s: State, t: Thread): Pc {
    if t in s.pcs then s.pcs[t] else Idle
  }

  function Count(m: map<Thread, nat>, t: Thread): nat {
    if t in m then m[t] else 0
  }

  /** A successful change of the word by `t`. */
  function Changed(s: State, t: Thread, refs: int): State {
    s.(refs := refs, changes := s.changes[t := Count(s.changes, t) + 1], total := s.total + 1)
  }

  predicate Enabled(s: State, a: Action) {
    match a
    case AddRef(t) => t in s.owners && PcOf(s, t).Idle?
    case Release(t) => t in s.owners && PcOf(s, t).Idle?
    case Load(t) => PcOf(s, t).Idle?
    case Swap(t) => PcOf(s, t).Read?
    case Reload(t) => PcOf(s, t).Failed?
  }

  /** The value mgw_get_ref goes on with after reading the word: the loop body only for a
      value above -1. */
  function Loaded(s: State, t: Thread): State {
    s.(pcs := s.pcs[t := if s.refs > -1 then Read(s.refs) else Idle])
  }

  function Step(s: State, a: Action): State
    requires Enabled(s, a)
  {
    match a
    case AddRef(t) => Changed(s, t, s.refs + 1).(owners := s.owners + multiset{t})
    case Release(t) =>
      Changed(s, t, s.refs - 1).(owners := s.owners - multiset{t},
                                 destroyed := s.destroyed + if s.refs - 1 == -1 then 1 else 0)
    case Load(t) => Loaded(s, t)
    case Swap(t) =>
      if s.refs == s.pcs[t].v then
        Changed(s, t, s.pcs[t].v + 1).(owners := s.owners + multiset{t}, pcs := s.pcs[t := Idle])
      else s.(failures := s.failures[t := Count(s.failures, t) + 1], pcs := s.pcs[t := Failed])
    case Reload(t) => Loaded(s, t)
  }

  predicate RunOk(s: State, acts: seq<Action>)
    decreases |acts|
  {
    acts != [] ==> Enabled(s, acts[0]) && RunOk(Step(s, acts[0]), acts[1..])
  }

  function Run(s: State, acts: seq<Action>): State
    requires RunOk(s, acts)
    decreases |acts|
  {
    if acts == [] then s else Run(Step(s, acts[0]), acts[1..])
  }

  /** The word is the number of references less one, and the object has been destroyed
      once exactly when it is -1. */
  predicate CountInv(s: State) {
    && s.refs + 1 == |s.owners|
    && s.destroyed == (if s.refs == -1 then 1 else 0)
    && (forall t :: t in s.pcs && s.pcs[t].Read? ==> s.pcs[t].v > -1)
  }

  /** Changes of the word by other threads than `t`. */
  function Others(s: State, t: Thread): int {
    s.total - Count(s.changes, t)
  }

  /** A failed swap of `t`, and one that is bound to fail, is paid for by a change that
      another thread has made. */
  predicate ChargeInv(s: State, t: Thread) {
    Count(s.failures, t) + (if PcOf(s, t).Read? && PcOf(s, t).v != s.refs then 1 else 0) <= Others(s, t)
  }

  lemma CountKept(s: State, a: Action)
    requires CountInv(s) && Enabled(s, a)
    ensures CountInv(Step(s, a))
  {
    if a.Release? {
      assert |s.owners| == |s.owners - multiset{a.t}| + 1;
    }
  }

  lemma ChargeKept(s: State, a: Action, t: Thread)
    requires ChargeInv(s, t) && Enabled(s, a)
    ensures ChargeInv(Step(s, a), t)
  {
  }

  lemma {:induction false} RunKept(s: State, acts: seq<Action>)
    requires CountInv(s) && RunOk(s, acts)
    ensures CountInv(Run(s, acts))
    decreases |acts|
  {
    if acts != [] {
      CountKept(s, acts[0]);
      RunKept(Step(s, acts[0]), acts[1..]);
    }
  }

  /** Whatever the interleaving, a thread's failed swaps are at most the changes the other
      threads made. */
  lemma {:induction false} FailuresCharged(s: State, acts: seq<Action>, t: Thread)
    requires ChargeInv(s, t) && RunOk(s, acts)
    ensures ChargeInv(Run(s, acts), t)
    ensures Count(Run(s, acts).failures, t) <= Others(Run(s, acts), t)
    decreases |acts|
  {
    if acts != [] {
      ChargeKept(s, acts[0], t);
      FailuresCharged(Step(s, acts[0]), acts[1..], t);
    }
  }

  /** From creation on: one owner per reference, one destruction at most, and exactly when
      the last owner lets go. */
  lemma FromCreation(t: Thread, acts: seq<Action>)
    requires RunOk(Created(t), acts)
    ensures var u := Run(Created(t), acts);
            && u.refs + 1 == |u.owners|
            && u.destroyed <= 1 && (u.destroyed == 1 <==> u.owners == multiset{})
  {
    RunKept(Created(t), acts);
  }

  /** After the release that saw -1 no reference can be got, added or released: the word
      and the owners stay as they are for ever. */
  lemma {:induction false} DestroyedForever(s: State, acts: seq<Action>)
    requires CountInv(s) && s.refs == -1 && RunOk(s, acts)
    ensures var u := Run(s, acts); u.refs == -1 && u.owners == multiset{} && u.destroyed == 1
    decreases |acts|
  {
    assert s.owners == multiset{};
    if acts != [] {
      CountKept(s, acts[0]);
      DestroyedForever(Step(s, acts[0]), acts[1..]);
    }
  }

  /** What one step does to the references of each thread: an added one and a got one are one
      more, a released one is one less, and a swap gets one if and only if the word is what
      was read. */
  lemma ReferencesMove(s: State, a: Action, t: Thread)
    requires CountInv(s) && Enabled(s, a)
    ensures var u := Step(s, a);
            && u.owners[t] == s.owners[t] + (if a == AddRef(t) || (a == Swap(t) && s.refs == PcOf(s, t).v) then 1
                                             else if a == Release(t) then -1 else 0)
            && u.refs - s.refs == |u.owners| - |s.owners|
            && (u.destroyed > s.destroyed <==> a.Release? && s.refs == 0)
  {
    CountKept(s, a);
    if a.Release? {
      assert |s.owners| == |s.owners - multiset{a.t}| + 1;
    }
  }

  /** What a thread does next: it swaps when the word it read was above -1, reads it again
      after a failed swap, and is through after one that succeeded. */
  lemma NextStep(s: State, a: Action)
    requires CountInv(s) && Enabled(s, a)
    ensures var u := Step(s, a);
            && (a.Load? || a.Reload? ==> PcOf(u, a.t) == if s.refs > -1 then Read(s.refs) else Idle)
            && (a.Swap? ==> PcOf(u, a.t) == if s.refs == PcOf(s, a.t).v then Idle else Failed)
            && (forall t :: t != a.t || a.AddRef? || a.Release? ==> PcOf(u, t) == PcOf(s, t))
  {
  }

  /** A get by a thread that runs alone succeeds if and only if the object has an owner. */
  lemma GetSucceedsIff(s: State, t: Thread)
    requires CountInv(s) && PcOf(s, t).Idle?
    ensures var u := Step(s, Load(t));
            && (Enabled(u, Swap(t)) <==> s.owners != multiset{})
            && (Enabled(u, Swap(t)) ==> Step(u, Swap(t)).owners == s.owners + multiset{t})
  {
  }
}
