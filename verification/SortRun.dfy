/**
 Whole runs of the reorder buffer: bytes, conservation, order, and exactly when each of
 them holds.
 */
module SortRun {
  import opened Media
  import opened SortSpec
  import opened SortInv
  import opened SortKeeps

  datatype Input = Input(frame: Frame, now: nat)

  /** A sorter and everything that happened to it; `done` is what was emitted since the
      last clean or regrow, `late` the numbers of the frames that were accepted with a
      timestamp below that of the last frame emitted before. */
  datatype World = World(s: Sorter, accepted: seq<Item>, emitted: seq<Item>, lost: seq<Item>, done: seq<Item>, late: set<nat>)

  function Fresh(s: Sorter): World {
    World(s, [], [], [], [], {})
  }

  /** The frame is older than the last one emitted. */
  predicate Behind(w: World, f: Frame) {
    w.emitted != [] && f.ts < w.emitted[|w.emitted| - 1].frame.ts
  }

  function Step(w: World, x: Input, lim: nat): World {
    var o := Put(w.s, x.frame, x.now, lim);
    World(o.s,
          w.accepted + if o.accepted then [Item(w.s.nextId, x.frame)] else [],
          w.emitted + o.outs,
          w.lost + o.lost,
          (if o.reset then [] else w.done) + o.outs,
          w.late + if o.accepted && Behind(w, x.frame) then {w.s.nextId} else {})
  }

  function Run(w: World, xs: seq<Input>, lim: nat): World
    decreases |xs|
  {
    if xs == [] then w else Run(Step(w, xs[0], lim), xs[1..], lim)
  }

  /** What the callers see to, for frames shorter than half the arena: none is empty, none
      is one the callback refuses, and a third one after a create or clean fits behind the
      first two. */
  predicate Safe(w: World, xs: seq<Input>, lim: nat)
    decreases |xs|
  {
    xs != [] ==>
      && Proper(w.s, |xs[0].frame.bytes|, lim)
      && Safe(Step(w, xs[0], lim), xs[1..], lim)
  }

  ghost predicate WorldInv(w: World, lim: nat) {
    && Sound(w.s, lim, w.done)
    && w.s.nextId == |w.accepted|
    && (forall i :: 0 <= i < |w.accepted| ==> w.accepted[i].id == i)
    && multiset(Items(w.s.time)) + multiset(w.lost) + multiset(w.emitted) == multiset(w.accepted)
    && |w.done| <= |w.emitted| && w.emitted[|w.emitted| - |w.done|..] == w.done
  }

  lemma FreshInv(size: nat, sortTime: nat, maxSortTime: nat, now: nat, lim: nat)
    requires MIN_SORT_BUFF_LEN <= size
    ensures WorldInv(Fresh(Create(size, sortTime, maxSortTime, now)), lim)
  {
    CreateInv(size, sortTime, maxSortTime, now);
    assert Items([]) == [];
  }

  lemma StepConserves(w: World, x: Input, lim: nat)
    requires Balance(Outcome(w.s, [], [], false, false, 0), Put(w.s, x.frame, x.now, lim), x.frame)
    requires multiset(Items(w.s.time)) + multiset(w.lost) + multiset(w.emitted) == multiset(w.accepted)
    ensures var v := Step(w, x, lim);
            multiset(Items(v.s.time)) + multiset(v.lost) + multiset(v.emitted) == multiset(v.accepted)
  {
    hide Put, Items;
    var o, v := Put(w.s, x.frame, x.now, lim), Step(w, x, lim);
    assert multiset(v.emitted) == multiset(w.emitted) + multiset(o.outs);
    assert multiset(v.lost) == multiset(w.lost) + multiset(o.lost);
    var a := if o.accepted then multiset{Item(w.s.nextId, x.frame)} else multiset{};
    assert multiset(v.accepted) == multiset(w.accepted) + a;
    var t0, t1 := multiset(Items(w.s.time)), multiset(Items(v.s.time));
    assert t1 + multiset(o.lost) + multiset(o.outs) == t0 + a;
    Regroup(t1, multiset(o.lost), multiset(o.outs), t0, a, multiset(w.lost), multiset(w.emitted), multiset(w.accepted));
  }

  lemma Regroup(t1: multiset<Item>, ol: multiset<Item>, oo: multiset<Item>, t0: multiset<Item>, a: multiset<Item>,
                wl: multiset<Item>, we: multiset<Item>, wa: multiset<Item>)
    requires t1 + ol + oo == t0 + a && t0 + wl + we == wa
    ensures t1 + (wl + ol) + (we + oo) == wa + a
  {
    assert t1 + (wl + ol) + (we + oo) == (t1 + ol + oo) + (wl + we);
    assert (t0 + a) + (wl + we) == (t0 + wl + we) + a;
  }

  lemma StepKept(w: World, x: Input, lim: nat)
    requires WorldInv(w, lim) && Proper(w.s, |x.frame.bytes|, lim)
    ensures WorldInv(Step(w, x, lim), lim)
  {
    hide Sound, Balance, Put;
    PutKept(w.s, x.frame, x.now, lim, w.done);
    StepConserves(w, x, lim);
  }

  /** Every reachable state of every safe run satisfies the invariant. */
  lemma {:induction false} RunKept(w: World, xs: seq<Input>, lim: nat)
    requires WorldInv(w, lim) && Safe(w, xs, lim)
    ensures WorldInv(Run(w, xs, lim), lim)
    decreases |xs|
  {
    hide WorldInv, Step;
    if xs != [] {
      StepKept(w, xs[0], lim);
      RunKept(Step(w, xs[0], lim), xs[1..], lim);
    }
  }

  // ---------------------------------------------------------------- what the invariant says

  /** Each frame passed to the callback is one accepted frame, with its bytes, length,
      timestamp, type and priority; no accepted frame is passed twice, and none is both
      passed and still held or thrown away. */
  lemma EmittedExactly(w: World, lim: nat)
    requires WorldInv(w, lim)
    ensures forall i :: 0 <= i < |w.emitted| ==>
              w.emitted[i].id < |w.accepted| && w.emitted[i] == w.accepted[w.emitted[i].id]
    ensures forall x :: x in multiset(w.accepted) ==> multiset(w.accepted)[x] == 1
    ensures |w.accepted| == |w.s.time| + |w.lost| + |w.emitted|
  {
    forall i | 0 <= i < |w.emitted|
      ensures w.emitted[i].id < |w.accepted| && w.emitted[i] == w.accepted[w.emitted[i].id]
    {
      assert w.emitted[i] in multiset(w.emitted);
      assert w.emitted[i] in multiset(w.accepted);
    }
    DistinctIds(w.accepted);
    assert |multiset(w.accepted)| == |multiset(Items(w.s.time))| + |multiset(w.lost)| + |multiset(w.emitted)|;
  }

  lemma {:induction false} DistinctIds(items: seq<Item>)
    requires forall i, j :: 0 <= i < j < |items| ==> items[i].id < items[j].id
    ensures forall x :: x in multiset(items) ==> multiset(items)[x] == 1
  {
    if items != [] {
      var n := |items| - 1;
      DistinctIds(items[..n]);
      assert items == items[..n] + [items[n]];
    }
  }

  // ---------------------------------------------------------------- order

  predicate Sorted(items: seq<Item>) {
    forall i, j :: 0 <= i < j < |items| ==> Earlier(items[i], items[j])
  }

  /** An item later in time than this one comes before position `n`. */
  predicate Overtaken(items: seq<Item>, n: nat, x: Item)
    requires n <= |items|
  {
    exists i :: 0 <= i < n && items[i].frame.ts > x.frame.ts
  }

  /** No late item has been emitted. */
  predicate NoneLate(w: World) {
    forall i :: 0 <= i < |w.emitted| ==> w.emitted[i].id !in w.late
  }

  /** All held items that are not late come after what was emitted. */
  predicate HeldAfter(w: World) {
    w.emitted != [] ==>
      forall i :: 0 <= i < |w.s.time| && w.s.time[i].item.id !in w.late ==>
        Earlier(w.emitted[|w.emitted| - 1], w.s.time[i].item)
  }

  /** As long as no late item is emitted the order holds, and each late item, held or
      emitted, is overtaken. */
  ghost predicate OrderInv(w: World) {
    && (forall x :: x in w.late ==> x < w.s.nextId)
    && (forall i :: 0 <= i < |w.emitted| ==> w.emitted[i].id < w.s.nextId)
    && (forall i :: 0 <= i < |w.s.time| ==> w.s.time[i].item.id < w.s.nextId)
    && (NoneLate(w) ==> Sorted(w.emitted) && HeldAfter(w))
    && (forall i :: 0 <= i < |w.s.time| && w.s.time[i].item.id in w.late ==> Overtaken(w.emitted, |w.emitted|, w.s.time[i].item))
    && (forall i :: 0 <= i < |w.emitted| && w.emitted[i].id in w.late ==> Overtaken(w.emitted, i, w.emitted[i]))
  }

  /** What one put hands on and goes on holding was held before, or is the frame itself,
      and is in order. */
  lemma PutMoves(s: Sorter, f: Frame, now: nat, lim: nat)
    requires Inv(s) && Deliverable(s, lim) && Proper(s, |f.bytes|, lim)
    ensures var o := Put(s, f, now, lim);
            && Sorted(o.outs) && o.s.nextId == s.nextId + (if o.accepted then 1 else 0)
            && (forall x :: x in o.outs || x in Items(o.s.time) ==>
                  x in Items(s.time) || (o.accepted && x == Item(s.nextId, f)))
            && (o.outs != [] ==> forall i :: 0 <= i < |o.s.time| ==> Earlier(o.outs[|o.outs| - 1], o.s.time[i].item))
  {
    var o := Put(s, f, now, lim);
    assert After([], s);
    hide Inv, Put, Deliverable, Proper, Items, Kept, After, Sorted, Balance;
    PutKept(s, f, now, lim, []);
    KeptParts(s, o, f, lim);
    PutSources(s, f, o);
  }

  lemma KeptParts(s: Sorter, o: Outcome, f: Frame, lim: nat)
    requires Kept(Outcome(s, [], [], false, false, 0), o, f, lim, [])
    ensures Balance(Outcome(s, [], [], false, false, 0), o, f)
    ensures Sorted(o.outs) && o.s.nextId == s.nextId + (if o.accepted then 1 else 0)
    ensures o.outs != [] ==> forall i :: 0 <= i < |o.s.time| ==> Earlier(o.outs[|o.outs| - 1], o.s.time[i].item)
  {
    hide Inv, Deliverable, Balance;
    assert [] + o.outs == o.outs;
  }

  lemma PutSources(s: Sorter, f: Frame, o: Outcome)
    requires Balance(Outcome(s, [], [], false, false, 0), o, f)
    ensures forall x :: x in o.outs || x in Items(o.s.time) ==>
              x in Items(s.time) || (o.accepted && x == Item(s.nextId, f))
  {
    hide Items;
    var new_ := if o.accepted then multiset{Item(s.nextId, f)} else multiset{};
    var all := multiset(Items(o.s.time)) + multiset(o.lost) + multiset(o.outs);
    assert all == multiset(Items(s.time)) + new_;
    forall x | x in o.outs || x in Items(o.s.time)
      ensures x in Items(s.time) || (o.accepted && x == Item(s.nextId, f))
    {
      assert x in all;
      assert x in multiset(Items(s.time)) || x in new_;
    }
  }

  lemma OrderStep(w: World, x: Input, lim: nat)
    requires WorldInv(w, lim) && OrderInv(w) && Proper(w.s, |x.frame.bytes|, lim)
    ensures OrderInv(Step(w, x, lim))
  {
    assert Inv(w.s) && Deliverable(w.s, lim);
    hide WorldInv, Put, Inv, Deliverable, Proper;
    PutMoves(w.s, x.frame, x.now, lim);
    var o, v := Put(w.s, x.frame, x.now, lim), Step(w, x, lim);
    OrderMoves(w, x.frame, o, v);
  }

  /** Where an item of the new state comes from. */
  predicate From(w: World, f: Frame, o: Outcome, x: Item) {
    (exists i :: 0 <= i < |w.s.time| && w.s.time[i].item == x) || (o.accepted && x == Item(w.s.nextId, f))
  }

  lemma OrderMoves(w: World, f: Frame, o: Outcome, v: World)
    requires OrderInv(w)
    requires Sorted(o.outs) && o.s.nextId == w.s.nextId + (if o.accepted then 1 else 0)
    requires forall x :: x in o.outs || x in Items(o.s.time) ==>
               x in Items(w.s.time) || (o.accepted && x == Item(w.s.nextId, f))
    requires o.outs != [] ==> forall i :: 0 <= i < |o.s.time| ==> Earlier(o.outs[|o.outs| - 1], o.s.time[i].item)
    requires v.s == o.s && v.emitted == w.emitted + o.outs
    requires v.late == w.late + if o.accepted && Behind(w, f) then {w.s.nextId} else {}
    ensures OrderInv(v)
  {
    forall i | 0 <= i < |o.outs| ensures From(w, f, o, o.outs[i]) {
      assert o.outs[i] in o.outs;
    }
    forall i | 0 <= i < |o.s.time| ensures From(w, f, o, o.s.time[i].item) {
      assert Items(o.s.time)[i] in Items(o.s.time);
    }
    hide Items;
    LateOvertaken(w, f, o, v);
    if NoneLate(v) {
      StaysSorted(w, f, o, v);
    }
    hide Overtaken, Sorted, HeldAfter, NoneLate, Behind;
  }

  /** An item that comes from the old state and is late has been overtaken. */
  lemma LateItem(w: World, f: Frame, o: Outcome, v: World, x: Item)
    requires OrderInv(w) && From(w, f, o, x)
    requires v.late == w.late + if o.accepted && Behind(w, f) then {w.s.nextId} else {}
    ensures x.id < w.s.nextId + (if o.accepted then 1 else 0)
    ensures x.id in v.late ==> Overtaken(w.emitted, |w.emitted|, x)
    ensures x.id !in v.late && NoneLate(w) && w.emitted != [] ==> Earlier(w.emitted[|w.emitted| - 1], x)
  {
    if i :| 0 <= i < |w.s.time| && w.s.time[i].item == x {
      assert x.id in v.late ==> x.id in w.late;
    } else {
      if w.emitted != [] {
        assert w.emitted[|w.emitted| - 1].id < w.s.nextId;
      }
    }
  }

  lemma LateOvertaken(w: World, f: Frame, o: Outcome, v: World)
    requires OrderInv(w) && v.s == o.s && v.emitted == w.emitted + o.outs
    requires v.late == w.late + if o.accepted && Behind(w, f) then {w.s.nextId} else {}
    requires forall i :: 0 <= i < |o.outs| ==> From(w, f, o, o.outs[i])
    requires forall i :: 0 <= i < |o.s.time| ==> From(w, f, o, o.s.time[i].item)
    requires o.s.nextId == w.s.nextId + (if o.accepted then 1 else 0)
    ensures forall i :: 0 <= i < |v.emitted| ==> v.emitted[i].id < v.s.nextId
    ensures forall i :: 0 <= i < |v.s.time| ==> v.s.time[i].item.id < v.s.nextId
    ensures forall i :: 0 <= i < |v.s.time| && v.s.time[i].item.id in v.late ==> Overtaken(v.emitted, |v.emitted|, v.s.time[i].item)
    ensures forall i :: 0 <= i < |v.emitted| && v.emitted[i].id in v.late ==> Overtaken(v.emitted, i, v.emitted[i])
  {
    var n := |w.emitted|;
    forall i | 0 <= i < |v.emitted|
      ensures v.emitted[i].id < v.s.nextId
      ensures v.emitted[i].id in v.late ==> Overtaken(v.emitted, i, v.emitted[i])
    {
      if i < n {
        assert v.emitted[i] == w.emitted[i];
        if w.emitted[i].id in v.late {
          OvertakenIn(w.emitted, i, v.emitted, i, w.emitted[i]);
        }
      } else {
        LateItem(w, f, o, v, o.outs[i - n]);
        if v.emitted[i].id in v.late {
          OvertakenIn(w.emitted, n, v.emitted, i, v.emitted[i]);
        }
      }
    }
    forall i | 0 <= i < |v.s.time|
      ensures v.s.time[i].item.id < v.s.nextId
      ensures v.s.time[i].item.id in v.late ==> Overtaken(v.emitted, |v.emitted|, v.s.time[i].item)
    {
      LateItem(w, f, o, v, o.s.time[i].item);
      if v.s.time[i].item.id in v.late {
        OvertakenIn(w.emitted, n, v.emitted, |v.emitted|, v.s.time[i].item);
      }
    }
  }

  lemma OvertakenIn(a: seq<Item>, n: nat, b: seq<Item>, m: nat, x: Item)
    requires n <= |a| && n <= m <= |b| && a <= b && Overtaken(a, n, x)
    ensures Overtaken(b, m, x)
  {
    var i :| 0 <= i < n && a[i].frame.ts > x.frame.ts;
    assert b[i] == a[i];
  }

  lemma StaysSorted(w: World, f: Frame, o: Outcome, v: World)
    requires OrderInv(w) && v.s == o.s && v.emitted == w.emitted + o.outs && NoneLate(v)
    requires v.late == w.late + if o.accepted && Behind(w, f) then {w.s.nextId} else {}
    requires forall i :: 0 <= i < |o.outs| ==> From(w, f, o, o.outs[i])
    requires forall i :: 0 <= i < |o.s.time| ==> From(w, f, o, o.s.time[i].item)
    requires Sorted(o.outs)
    requires o.outs != [] ==> forall i :: 0 <= i < |o.s.time| ==> Earlier(o.outs[|o.outs| - 1], o.s.time[i].item)
    ensures Sorted(v.emitted) && HeldAfter(v)
  {
    var n := |w.emitted|;
    assert NoneLate(w) by {
      forall i | 0 <= i < n ensures w.emitted[i].id !in w.late {
        assert v.emitted[i] == w.emitted[i];
      }
    }
    hide From;
    forall j | 0 <= j < |o.outs| && n > 0 ensures Earlier(w.emitted[n - 1], o.outs[j]) {
      assert v.emitted[n + j] == o.outs[j];
      LateItem(w, f, o, v, o.outs[j]);
    }
    Joined(w.emitted, o.outs);
    forall i | 0 <= i < |v.s.time| && v.s.time[i].item.id !in v.late && v.emitted != []
      ensures Earlier(v.emitted[|v.emitted| - 1], v.s.time[i].item)
    {
      LateItem(w, f, o, v, o.s.time[i].item);
    }
  }

  lemma Joined(a: seq<Item>, b: seq<Item>)
    requires Sorted(a) && Sorted(b)
    requires a != [] ==> forall j :: 0 <= j < |b| ==> Earlier(a[|a| - 1], b[j])
    ensures Sorted(a + b)
  {
    forall i, j | 0 <= i < j < |a + b| ensures Earlier((a + b)[i], (a + b)[j]) {
      if i < |a| <= j {
        assert i == |a| - 1 || Earlier(a[i], a[|a| - 1]);
      }
    }
  }

  lemma {:induction false} RunOrder(w: World, xs: seq<Input>, lim: nat)
    requires WorldInv(w, lim) && OrderInv(w) && Safe(w, xs, lim)
    ensures OrderInv(Run(w, xs, lim))
    decreases |xs|
  {
    hide WorldInv, OrderInv, Step, Proper;
    if xs != [] {
      OrderStep(w, xs[0], lim);
      StepKept(w, xs[0], lim);
      RunOrder(Step(w, xs[0], lim), xs[1..], lim);
    }
  }

  lemma FreshOrder(size: nat, sortTime: nat, maxSortTime: nat, now: nat)
    ensures OrderInv(Fresh(Create(size, sortTime, maxSortTime, now)))
  {
  }

  /** Over every safe run from creation, through any regrows and cleans: what is handed to
      the callback is in order of time, and of arrival among equal times, if and only if no
      frame is among it that was accepted although it was older than the last frame handed
      on before. */
  lemma OrderIff(size: nat, sortTime: nat, maxSortTime: nat, now: nat, xs: seq<Input>, lim: nat)
    requires MIN_SORT_BUFF_LEN <= size && Safe(Fresh(Create(size, sortTime, maxSortTime, now)), xs, lim)
    ensures var v := Run(Fresh(Create(size, sortTime, maxSortTime, now)), xs, lim);
            Sorted(v.emitted) <==> NoneLate(v)
  {
    var w := Fresh(Create(size, sortTime, maxSortTime, now));
    FreshInv(size, sortTime, maxSortTime, now, lim);
    FreshOrder(size, sortTime, maxSortTime, now);
    RunOrder(w, xs, lim);
    OrderDecided(Run(w, xs, lim));
  }

  lemma OrderDecided(w: World)
    requires OrderInv(w)
    ensures Sorted(w.emitted) <==> NoneLate(w)
  {
    if j :| 0 <= j < |w.emitted| && w.emitted[j].id in w.late {
      var i :| 0 <= i < j && w.emitted[i].frame.ts > w.emitted[j].frame.ts;
      assert !Earlier(w.emitted[i], w.emitted[j]);
    }
  }

  /** Every frame that is accepted is at or after the last one emitted. */
  predicate InFront(w: World, xs: seq<Input>, lim: nat)
    decreases |xs|
  {
    xs != [] ==>
      && (Put(w.s, xs[0].frame, xs[0].now, lim).accepted ==> !Behind(w, xs[0].frame))
      && InFront(Step(w, xs[0], lim), xs[1..], lim)
  }

  lemma {:induction false} InFrontRun(w: World, xs: seq<Input>, lim: nat)
    requires InFront(w, xs, lim)
    ensures Run(w, xs, lim).late == w.late
    decreases |xs|
  {
    if xs != [] {
      InFrontRun(Step(w, xs[0], lim), xs[1..], lim);
    }
  }

  /** When no frame older than the last one handed on is accepted, everything handed on is
      in order, through any regrows and cleans. */
  lemma EmittedInOrder(size: nat, sortTime: nat, maxSortTime: nat, now: nat, xs: seq<Input>, lim: nat)
    requires MIN_SORT_BUFF_LEN <= size
    requires var w := Fresh(Create(size, sortTime, maxSortTime, now)); Safe(w, xs, lim) && InFront(w, xs, lim)
    ensures Sorted(Run(Fresh(Create(size, sortTime, maxSortTime, now)), xs, lim).emitted)
  {
    OrderIff(size, sortTime, maxSortTime, now, xs, lim);
    InFrontRun(Fresh(Create(size, sortTime, maxSortTime, now)), xs, lim);
  }

  /** No call cleans or regrows the buffer. */
  predicate Quiet(w: World, xs: seq<Input>, lim: nat)
    decreases |xs|
  {
    xs != [] ==> !Put(w.s, xs[0].frame, xs[0].now, lim).reset && Quiet(Step(w, xs[0], lim), xs[1..], lim)
  }

  lemma AcceptedInFront(s: Sorter, f: Frame, now: nat, lim: nat)
    requires Inv(s) && s.time != [] && Proper(s, |f.bytes|, lim)
    requires var o := Put(s, f, now, lim); o.accepted && !o.reset
    ensures s.preMinTs <= f.ts
  {
    AcceptedResets(s, f, now, lim);
    hide Inv, Put, Check, TooLong;
    if f.ts < s.preMinTs {
      EndsInOrder(s);
      BehindAcceptedIff(s, f, now, lim);
    }
  }

  lemma AcceptedResets(s: Sorter, f: Frame, now: nat, lim: nat)
    requires Put(s, f, now, lim).accepted
    ensures |f.bytes| < |s.arena| / 2
    ensures s.ring != [] && s.put > 2 && TooLong(s, |f.bytes|) ==> Put(s, f, now, lim).reset
  {
    hide PopTwice, Store, Place, Items, IndexOfPos, ReadOut, Decay, Regrow, TooLong;
  }

  /** Until the first clean or regrow the buffer itself sees to that. */
  lemma {:induction false} QuietInFront(w: World, xs: seq<Input>, lim: nat)
    requires WorldInv(w, lim) && w.done == w.emitted && Safe(w, xs, lim) && Quiet(w, xs, lim)
    ensures InFront(w, xs, lim)
    decreases |xs|
  {
    if xs != [] {
      var x := xs[0];
      StepKept(w, x, lim);
      assert Inv(w.s) && After(w.done, w.s);
      hide WorldInv, Inv, Put, Proper;
      if Put(w.s, x.frame, x.now, lim).accepted && w.emitted != [] {
        AcceptedInFront(w.s, x.frame, x.now, lim);
      }
      assert Step(w, x, lim).done == Step(w, x, lim).emitted;
      QuietInFront(Step(w, x, lim), xs[1..], lim);
    }
  }

  // ---------------------------------------------------------------- exactly when

  /** The bytes of an accepted frame are written apart from every held frame if and only
      if the third frame fits. */
  lemma WritesApartIff(s: Sorter, e: Entry, now: nat)
    requires Inv(s) && s.time != [] && 0 < e.Len() < |s.arena| / 2
    requires var c := Check(s, e.Len(), now); c.s.time != [] && e.pos == WritePos(c.s, e.Len())
    ensures var c := Check(s, e.Len(), now);
            (forall i :: 0 <= i < |c.s.ring| ==> Apart(c.s.ring[i], e)) <==> ThirdFits(s, e.Len())
  {
    var c := Check(s, e.Len(), now);
    if ThirdFits(s, e.Len()) {
      CheckMakesRoom(s, e.Len(), now);
      ApartWithRoom(c.s, e);
    } else {
      assert c.s == s && e.pos == 0 && !Apart(c.s.ring[0], e);
    }
  }

  lemma ApartWithRoom(s: Sorter, e: Entry)
    requires Inv(s) && Room(s, e.Len()) && 0 < e.Len() && e.pos == WritePos(s, e.Len())
    ensures forall i :: 0 <= i < |s.ring| ==> Apart(s.ring[i], e)
  {
    var k := StoreLayout(s, e);
    var all := s.ring + [e];
    LaidApart(all, Store(s, e.item.frame.bytes).position, |s.arena|, k);
    forall i | 0 <= i < |s.ring| ensures Apart(s.ring[i], e) {
      assert Apart(all[i], all[|s.ring|]);
    }
  }

  /** Frames of at most a third of the arena always fit. */
  predicate Small(w: World, xs: seq<Input>, lim: nat)
    decreases |xs|
  {
    xs != [] ==>
      && 0 < |xs[0].frame.bytes| < lim
      && 3 * |xs[0].frame.bytes| <= |w.s.arena|
      && Small(Step(w, xs[0], lim), xs[1..], lim)
  }

  predicate SmallStart(s: Sorter) {
    && (s.put == 0 ==> s.position == 0)
    && (s.put == 1 ==> 3 * s.position <= |s.arena|)
    && (s.put == 2 ==> 3 * s.position <= 2 * |s.arena|)
  }

  lemma SmallLate(c: Outcome, f: Frame, now: nat)
    requires c.s.put > 0 && SmallStart(c.s) && 0 < |f.bytes| && 3 * |f.bytes| <= |c.s.arena|
    ensures SmallStart(PutLate(c, f, now).s)
  {
    hide Items, Lengthen, FirstLater;
  }

  lemma SmallOnTime(c: Outcome, f: Frame, now: nat, lim: nat)
    requires c.s.put > 0 && SmallStart(c.s) && 0 < |f.bytes| && 3 * |f.bytes| <= |c.s.arena|
    requires c.s.time != [] && IndexOfPos(c.s.ring, c.s.time[0].pos) < |c.s.ring|
    ensures SmallStart(PutOnTime(c, f, now, lim).s)
  {
    hide Items, PopTwice, IndexOfPos, ReadOut;
  }

  lemma InvCounts(s: Sorter)
    requires Inv(s)
    ensures s.time == [] ==> s.put == 0 && s.position == 0
    ensures s.time != [] ==> s.put > 0
  {
    assert s.put - s.pop == |s.time|;
  }

  lemma CheckCounts(s: Sorter, len: nat, now: nat)
    requires SmallStart(s)
    ensures SmallStart(Check(s, len, now).s) && |s.arena| <= |Check(s, len, now).s.arena|
  {
    hide Decay, Regrow, Items;
    if !(s.ring == [] || s.put <= 2) {
      assert Regrow(Decay(s, now), |s.arena| * 3 / 2, now).put == s.put && Regrow(s, |s.arena| * 3 / 2, now).put == s.put;
    }
  }

  lemma SmallStep(s: Sorter, f: Frame, now: nat, lim: nat)
    requires Inv(s) && SmallStart(s) && 0 < |f.bytes| && 3 * |f.bytes| <= |s.arena|
    requires ThirdFits(s, |f.bytes|)
    ensures SmallStart(Put(s, f, now, lim).s)
  {
    hide Inv, Check, PutLate, PutOnTime, InStep, Layout, Room, Start, Order;
    if |f.bytes| < |s.arena| / 2 {
      CheckCounts(s, |f.bytes|, now);
      var c := Check(s, |f.bytes|, now);
      CheckMakesRoom(s, |f.bytes|, now);
      if c.s.time == [] {
        InvCounts(c.s);
      } else {
        InvParts(c.s);
        InvCounts(c.s);
        FindsHead(c.s);
        SmallLate(c, f, now);
        SmallOnTime(c, f, now, lim);
      }
    }
  }

  lemma {:induction false} SmallIsSafe(w: World, xs: seq<Input>, lim: nat)
    requires WorldInv(w, lim) && SmallStart(w.s) && Small(w, xs, lim)
    ensures Safe(w, xs, lim)
    decreases |xs|
  {
    if xs != [] {
      assert ThirdFits(w.s, |xs[0].frame.bytes|);
      StepKept(w, xs[0], lim);
      SmallStep(w.s, xs[0].frame, xs[0].now, lim);
      hide WorldInv, Step;
      SmallIsSafe(Step(w, xs[0], lim), xs[1..], lim);
    }
  }

  /** The pop loop leaves the two lists in step if and only if the callback takes the
      frame: a refused one is gone from the address ring and still in the time list. */
  lemma RefusedPopIff(s: Sorter, lim: nat)
    requires Inv(s) && s.put - s.pop > 3 && Wrap32(s.maxTs - s.minTs) > s.sortTime
    ensures InStep(PopOnce(s, lim).s) <==> s.time[0].Len() < lim
  {
    InvParts(s);
    FindsHead(s);
    var i := IndexOfPos(s.ring, s.time[0].pos);
    hide Inv, Layout, LaidAt, InOrder, Order, SortInv.Start, IndexOfPos, ReadOut;
    assert |s.time| == |s.ring| == s.put - s.pop;
    if s.time[0].Len() < lim {
      DropHeadInStep(s, i, PopOnce(s, lim).s);
    } else {
      assert |PopOnce(s, lim).s.ring| == |s.ring| - 1;
    }
  }

  /** A frame older than the last one emitted is accepted if and only if it does not fit
      (the test is made from the fourth frame on), so that this very call forgets the last
      emitted timestamp, and either the arena is too big to grow and is cleaned, or it is
      grown and the frame is not too late for what it then holds. */
  lemma BehindAcceptedIff(s: Sorter, f: Frame, now: nat, lim: nat)
    requires Inv(s) && s.time != [] && 0 < |f.bytes| < |s.arena| / 2 && f.ts < s.preMinTs
    ensures Put(s, f, now, lim).accepted <==>
              && TooLong(s, |f.bytes|) && s.put > 2
              && (|s.arena| > MAX_SORT_BUFF_LEN || Wrap32(s.maxTs - f.ts) <= s.maxSortTime)
  {
    hide Inv, Layout, LaidAt, InOrder, Held, SortInv.Start, InStep, Order, Decay;
    hide Pack, Reads, Store, Place, Items, Wrap32;
    EndsInOrder(s);
    BehindCheck(s, |f.bytes|, now);
    hide Check, Regrow, Clean, TooLong;
  }

  lemma EndsInOrder(s: Sorter)
    requires Inv(s) && s.time != []
    ensures s.preMinTs <= s.minTs <= s.maxTs && s.ring != []
  {
    assert Earlier(s.time[0].item, s.time[|s.time| - 1].item) || |s.time| == 1;
    assert |s.ring| == |s.time|;
  }

  /** What the room check leaves of the last emitted timestamp. */
  lemma BehindCheck(s: Sorter, len: nat, now: nat)
    requires s.time != [] && s.ring != []
    ensures var c := Check(s, len, now);
            && c.s.maxSortTime == s.maxSortTime
            && (!(TooLong(s, len) && s.put > 2) ==> c.s.time == s.time && c.s.maxTs == s.maxTs && c.s.preMinTs == s.preMinTs)
            && (TooLong(s, len) && s.put > 2 && |s.arena| > MAX_SORT_BUFF_LEN ==> c.s.time == [])
            && (TooLong(s, len) && s.put > 2 && |s.arena| <= MAX_SORT_BUFF_LEN ==>
                  c.s.time != [] && c.s.maxTs == s.maxTs && c.s.preMinTs == 0)
  {
    hide Decay, TooLong, Items, Concat, Reads;
  }

  // ---------------------------------------------------------------- after a refusal

  /** The head of the time list has no element in the address ring, which is shorter. */
  predicate Stuck(s: Sorter) {
    && 0 < |s.ring| < |s.time| && |s.time| >= 2 && 0 < s.time[0].Len()
    && IndexOfPos(s.ring, s.time[0].pos) == |s.ring|
  }

  /** What a refused pop leaves behind: the head stays, its address is gone. */
  lemma RefusedPopSticks(s: Sorter, lim: nat)
    requires Inv(s) && s.put - s.pop > 3 && Wrap32(s.maxTs - s.minTs) > s.sortTime && s.time[0].Len() >= lim
    ensures var p := PopOnce(s, lim);
            p.code == -2 && p.outs == [ReadOut(s.arena, s.time[0])] && p.s.time == s.time && Stuck(p.s)
  {
    InvParts(s);
    FindsHead(s);
    HeadAlone(s);
    hide Inv, Layout, InStep, Order, SortInv.Start, ReadOut;
  }

  lemma HeadAlone(s: Sorter)
    requires Inv(s) && |s.time| >= 2
    ensures |s.ring| >= 2 && |s.time| == |s.ring|
    ensures var i := IndexOfPos(s.ring, s.time[0].pos);
            i < |s.ring| && forall j :: 0 <= j < |Without(s.ring, i)| ==> Without(s.ring, i)[j].pos != s.time[0].pos
  {
    InvParts(s);
    FindsHead(s);
    var k :| LaidAt(s.ring, s.position, |s.arena|, k);
    LaidApart(s.ring, s.position, |s.arena|, k);
    var i := IndexOfPos(s.ring, s.time[0].pos);
    forall j | 0 <= j < |s.ring| && j != i ensures s.ring[j].pos != s.ring[i].pos {
      assert Apart(s.ring[if i < j then i else j], s.ring[if i < j then j else i]);
    }
  }

  /** A regrow does not help: the packing loop goes round the shorter ring, and the address
      of the head, which is 0, is written over by that of a later frame. */
  lemma StuckRegrow(s: Sorter, size: nat, now: nat)
    requires Stuck(s)
    ensures var t := Regrow(s, size, now);
            Stuck(t) && |t.time| == |s.time| && |t.ring| == |s.ring| && Items(t.time) == Items(s.time)
  {
    var packed := Pack(s.time);
    var ring := Addressed(s.ring, packed, |packed|);
    PackedBehind(s.time);
    FirstLost(s.ring, packed, |packed|);
    assert packed[0].pos == SumLen(s.time[..0]) == 0;
    hide Addressed, Pack, IndexOfPos;
    assert Items(packed) == Items(s.time);
    var i := IndexOfPos(ring, 0);
  }

  lemma PackedBehind(time: seq<Entry>)
    requires time != [] && 0 < time[0].Len()
    ensures forall i :: 0 < i < |time| ==> 0 < Pack(time)[i].pos
  {
    forall i | 0 < i < |time| ensures 0 < Pack(time)[i].pos {
      SumPrefix(time, 0, i);
      assert time[..0] == [];
    }
  }

  /** After the first frame, every address is that of a later frame or not yet written;
      once round, none is that of the first frame. */
  lemma {:induction false} FirstLost(ring: seq<Entry>, packed: seq<Entry>, n: nat)
    requires ring != [] && 1 <= n <= |packed|
    requires forall i :: 0 < i < |packed| ==> 0 < packed[i].pos
    ensures var r := Addressed(ring, packed, n);
            && (forall j :: 0 < j < |r| && j < n ==> 0 < r[j].pos)
            && (n > |ring| ==> 0 < r[0].pos)
    decreases n
  {
    if n == 1 {
      FirstRound(0, |ring|);
    } else {
      FirstLost(ring, packed, n - 1);
      if n - 1 < |ring| {
        FirstRound(n - 1, |ring|);
      } else if n - 1 == |ring| {
        OneRound(|ring|);
      }
      NextAddress(ring, packed, n);
      hide Addressed;
    }
  }

  lemma OneRound(m: nat)
    requires 0 < m
    ensures m % m == 0
  {
  }

  lemma NextAddress(ring: seq<Entry>, packed: seq<Entry>, n: nat)
    requires ring != [] && 1 <= n <= |packed|
    ensures var j := (n - 1) % |ring|;
            0 <= j < |ring| && Addressed(ring, packed, n) == Addressed(ring, packed, n - 1)[j := packed[n - 1]]
  {
  }

  /** The buffer is emptied by this call, for want of room or because the frame is early. */
  predicate Cleans(s: Sorter, f: Frame, now: nat) {
    var c := Check(s, |f.bytes|, now);
    c.s.time == [] || Expired(c.s, f)
  }

  lemma StuckCheck(s: Sorter, len: nat, now: nat)
    requires Stuck(s)
    ensures var c := Check(s, len, now);
            c.s.time != [] ==>
              Stuck(c.s) && Items(c.s.time) == Items(s.time) && c.lost == []
              && c.s.maxTs == s.maxTs && c.s.minTs == s.minTs && |s.arena| <= |c.s.arena|
  {
    hide Stuck, Items, Decay, TooLong, Regrow;
    var s1 := if s.position + len > |s.arena| then Decay(s, now) else s;
    StuckSame(s, s1);
    StuckRegrow(s1, |s.arena| * 3 / 2, now);
    RegrowKeeps(s1, |s.arena| * 3 / 2, now);
  }

  lemma StuckSame(s: Sorter, t: Sorter)
    requires Stuck(s) && SameButDelay(s, t)
    ensures Stuck(t)
  {
  }

  lemma RegrowKeeps(s: Sorter, size: nat, now: nat)
    ensures var t := Regrow(s, size, now); t.maxTs == s.maxTs && t.minTs == s.minTs && t.sortTime == s.sortTime
  {
  }

  /** The put after that, unless it empties the buffer: a frame at or after the newest one
      is accepted if and only if the head is not due yet.  When it is due the put fails
      with nothing emitted and the same frames held, and the buffer is as stuck as before,
      regrown or not. */
  lemma StuckPut(s: Sorter, f: Frame, now: nat, lim: nat)
    requires Stuck(s) && |f.bytes| < |s.arena| / 2 && f.ts >= s.maxTs && !Cleans(s, f, now)
    ensures var c, o := Check(s, |f.bytes|, now), Put(s, f, now, lim);
            && (o.accepted <==> Wrap32(f.ts - s.minTs) <= c.s.sortTime)
            && (!o.accepted ==>
                  && o.code == -1 && o.outs == [] && o.lost == [] && Items(o.s.time) == Items(s.time)
                  && o.s.maxTs == s.maxTs && o.s.minTs == s.minTs && Stuck(o.s))
  {
    StuckCheck(s, |f.bytes|, now);
    var c, o := Check(s, |f.bytes|, now), Put(s, f, now, lim);
    assert c.s.time != [] && !Expired(c.s, f);
    hide Check, Items, PopTwice, ReadOut, Cleans;
    assert c.lost == [];
    if !o.accepted {
      StuckParts(c.s, o.s);
    }
  }

  lemma StuckParts(s: Sorter, t: Sorter)
    requires Stuck(s) && t.time == s.time && t.ring == s.ring
    ensures Stuck(t)
  {
  }

  /** Every frame of the run is on time and finds the head due, and none empties the
      buffer. */
  predicate Due(w: World, xs: seq<Input>, lim: nat)
    decreases |xs|
  {
    xs != [] ==>
      && (var s, x := w.s, xs[0];
          && |x.frame.bytes| < |s.arena| / 2 && x.frame.ts >= s.maxTs && !Cleans(s, x.frame, x.now)
          && Wrap32(x.frame.ts - s.minTs) > Check(s, |x.frame.bytes|, x.now).s.sortTime)
      && Due(Step(w, xs[0], lim), xs[1..], lim)
  }

  /** However many such frames come, and however often the arena grows, none is accepted
      and none emitted: among frames on time only a clean ends it. */
  lemma {:induction false} StuckUntilClean(w: World, xs: seq<Input>, lim: nat)
    requires Stuck(w.s) && Due(w, xs, lim)
    ensures var v := Run(w, xs, lim);
            && v.accepted == w.accepted && v.emitted == w.emitted && v.lost == w.lost
            && Stuck(v.s) && Items(v.s.time) == Items(w.s.time)
    decreases |xs|
  {
    if xs != [] {
      hide Put, Check, Stuck, Cleans, Wrap32, Items;
      StuckPut(w.s, xs[0].frame, xs[0].now, lim);
      StuckUntilClean(Step(w, xs[0], lim), xs[1..], lim);
    }
  }

  // ---------------------------------------------------------------- the delay

  /** The reduction of the sort delay lengthens it, to almost 2^32, if and only if it is
      made and both subtractions are and the second goes below zero. */
  lemma DecayLengthensIff(s: Sorter, now: nat)
    requires s.sortTimeBak <= s.sortTime < TWO_TO_THE_32
    ensures Decay(s, now).sortTime > s.sortTime <==>
              && Wrap64(now - s.analyClock) >= 5 * 60
              && 0 < s.analyTime && s.sortTime - s.analyTime > 200000 && s.sortTime < 300000
    ensures Decay(s, now).sortTime > s.sortTime ==> Decay(s, now).sortTime == TWO_TO_THE_32 - (300000 - s.sortTime)
  {
  }

  /** After a regrow the triggering frame fits behind the packed frames. */
  lemma RegrowLeavesRoom(s: Sorter, len: nat, now: nat)
    requires Inv(s) && s.put > 2 && s.ring != [] && TooLong(s, len) && len < |s.arena| / 2
    requires |s.arena| <= MAX_SORT_BUFF_LEN
    ensures var t := Check(s, len, now).s;
            && Inv(t) && |t.arena| == |s.arena| * 3 / 2
            && t.position + len < |t.arena|
            && Items(t.time) == Items(s.time) && t.ring == t.time
            && Ascending(t.ring, 0, |t.ring|)
  {
    hide Inv, LaidAt, Regrow, Decay, Ascending, Items;
    var s1 := if s.position + len > |s.arena| then Decay(s, now) else s;
    SameButDelayInv(s, s1);
    RegrowInv(s1, |s.arena| * 3 / 2, now);
    var t := Regrow(s1, |s.arena| * 3 / 2, now);
    LaidAscends(t.ring, t.position, |t.arena|);
  }

  lemma LaidAscends(ring: seq<Entry>, position: nat, size: nat)
    requires LaidAt(ring, position, size, 0)
    ensures Ascending(ring, 0, |ring|)
  {
  }
}
