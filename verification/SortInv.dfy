/**
 What every call of PutFrameStreamSort keeps: the arena layout, the held bytes, the two
 lists in step and the order of the time list.
 */
module SortInv {
  import opened Media
  import opened SortSpec

  // ---------------------------------------------------------------- layout

  predicate Ascending(es: seq<Entry>, lo: nat, hi: nat)
    requires lo <= hi <= |es|
  {
    forall i, j :: lo <= i < j < hi ==> es[i].End() <= es[j].pos
  }

  /** The address ring lies in the arena in at most two runs: `ring[..k]`, whose wrap is
      still to come, and `ring[k..]`, which ends at or before the write position. */
  predicate LaidAt(ring: seq<Entry>, position: nat, size: nat, k: nat) {
    && k <= |ring|
    && position < size
    && (forall i :: 0 <= i < |ring| ==> 0 < ring[i].Len() && ring[i].End() <= size)
    && Ascending(ring, 0, k)
    && Ascending(ring, k, |ring|)
    && (forall i :: k <= i < |ring| ==> ring[i].End() <= position)
    && (k > 0 ==> position <= ring[0].pos)
  }

  predicate Apart(a: Entry, b: Entry) {
    a.End() <= b.pos || b.End() <= a.pos
  }

  lemma LaidApart(ring: seq<Entry>, position: nat, size: nat, k: nat)
    requires LaidAt(ring, position, size, k)
    ensures forall i, j :: 0 <= i < j < |ring| ==> Apart(ring[i], ring[j])
  {
    forall i, j | 0 <= i < j < |ring|
      ensures Apart(ring[i], ring[j])
    {
      if i < k <= j {
        assert ring[j].End() <= position <= ring[0].pos;
        assert i == 0 || ring[0].End() <= ring[i].pos;
      }
    }
  }

  /** The test against the single earliest frame is enough: when it passes, the frame
      can be appended to a laid-out ring. */
  lemma LaidAppend(s: Sorter, k: nat, e: Entry) returns (k': nat)
    requires LaidAt(s.ring, s.position, |s.arena|, k)
    requires 0 < e.Len() && e.pos == WritePos(s, e.Len())
    requires s.ring == [] ==> s.position + e.Len() <= |s.arena|
    requires s.ring != [] ==> !TooLong(s, e.Len()) || (k == 0 && s.position + e.Len() <= |s.arena|)
    ensures var p := e.End(); LaidAt(s.ring + [e], if p == |s.arena| then 0 else p, |s.arena|, k')
    ensures k == 0 && s.position + e.Len() < |s.arena| ==> k' == 0
  {
    if s.position + e.Len() > |s.arena| || e.End() == |s.arena| {
      k' := if e.End() == |s.arena| then |s.ring| + 1 else |s.ring|;
    } else {
      k' := k;
    }
  }

  lemma AscendingWithout(es: seq<Entry>, lo: nat, hi: nat, i: nat)
    requires lo <= hi <= |es| && i < |es| && Ascending(es, lo, hi)
    ensures lo <= i < hi ==> Ascending(Without(es, i), lo, hi - 1)
    ensures hi <= i ==> Ascending(Without(es, i), lo, hi)
    ensures i < lo ==> Ascending(Without(es, i), lo - 1, hi - 1)
  {
  }

  lemma LaidWithout(ring: seq<Entry>, position: nat, size: nat, k: nat, i: nat) returns (k': nat)
    requires LaidAt(ring, position, size, k) && i < |ring|
    ensures LaidAt(Without(ring, i), position, size, k')
    ensures k == 0 ==> k' == 0
  {
    k' := if i < k then k - 1 else k;
    AscendingWithout(ring, 0, k, i);
    AscendingWithout(ring, k, |ring|, i);
    var r := Without(ring, i);
    if k' > 0 {
      assert r[0] == ring[0] || (i == 0 && r[0] == ring[1] && ring[0].End() <= ring[1].pos);
    }
    forall j | k' <= j < |r| ensures r[j].End() <= position {
      assert r[j] == ring[if j < i then j else j + 1];
    }
  }

  lemma {:induction false} SumConcat(a: seq<Entry>, b: seq<Entry>)
    ensures SumLen(a + b) == SumLen(a) + SumLen(b)
    decreases |a|
  {
    if a == [] {
      assert a + b == b;
    } else {
      SumConcat(a[1..], b);
      assert (a + b)[1..] == a[1..] + b;
    }
  }

  lemma SumAppend(es: seq<Entry>, e: Entry)
    ensures SumLen(es + [e]) == SumLen(es) + e.Len()
  {
    SumConcat(es, [e]);
  }

  lemma SumWithout(es: seq<Entry>, i: nat)
    requires i < |es|
    ensures SumLen(Without(es, i)) == SumLen(es) - es[i].Len()
  {
    SumConcat(es[..i], es[i..]);
    SumConcat(es[..i], es[i + 1..]);
    assert es == es[..i] + es[i..];
    assert es[i..][1..] == es[i + 1..];
  }

  lemma {:induction false} SumRun(es: seq<Entry>, lo: nat, hi: nat)
    requires Ascending(es, 0, |es|)
    requires forall i :: 0 <= i < |es| ==> lo <= es[i].pos && es[i].End() <= hi
    requires lo <= hi
    ensures SumLen(es) <= hi - lo
    decreases |es|
  {
    if es != [] {
      assert forall i :: 0 <= i < |es[1..]| ==> es[1..][i] == es[i + 1];
      SumRun(es[1..], es[0].End(), hi);
    }
  }

  /** Held frames fit in the arena together. */
  lemma LaidSum(ring: seq<Entry>, position: nat, size: nat, k: nat)
    requires LaidAt(ring, position, size, k)
    ensures SumLen(ring) <= size
  {
    hide SumLen, Ascending;
    var a, b := ring[..k], ring[k..];
    assert ring == a + b;
    SumConcat(a, b);
    PartLaid(ring, k, |ring|);
    assert ring[k..|ring|] == b;
    SumRun(b, 0, position);
    if k > 0 {
      PartLaid(ring, 0, k);
      assert ring[0..k] == a;
      SumRun(a, a[0].pos, size);
    }
  }

  /** A run of the ring starts with its lowest element. */
  lemma PartLaid(ring: seq<Entry>, lo: nat, hi: nat)
    requires lo <= hi <= |ring| && Ascending(ring, lo, hi)
    ensures var part := ring[lo..hi];
            && Ascending(part, 0, |part|)
            && (forall i :: 0 <= i < |part| ==> part[i] == ring[lo + i] && part[0].pos <= part[i].pos)
  {
    var part := ring[lo..hi];
    forall i, j | 0 <= i < j < |part| ensures part[i].End() <= part[j].pos {
      assert part[i] == ring[lo + i] && part[j] == ring[lo + j];
    }
  }

  // ---------------------------------------------------------------- the invariant

  /** Sorted by timestamp, in arrival order among equal timestamps. */
  predicate Earlier(a: Item, b: Item) {
    a.frame.ts < b.frame.ts || (a.frame.ts == b.frame.ts && a.id < b.id)
  }

  predicate InOrder(es: seq<Entry>) {
    forall i, j :: 0 <= i < j < |es| ==> Earlier(es[i].item, es[j].item)
  }

  predicate Held(arena: seq<byte>, es: seq<Entry>) {
    forall i :: 0 <= i < |es| ==> es[i].End() <= |arena| && arena[es[i].pos..es[i].End()] == es[i].item.frame.bytes
  }

  ghost predicate Layout(s: Sorter) {
    && MIN_SORT_BUFF_LEN <= |s.arena|
    && (exists k :: LaidAt(s.ring, s.position, |s.arena|, k))
    && Held(s.arena, s.time)
    && Held(s.arena, s.ring)
  }

  /** The first two frames after a create or a clean lie one behind the other from 0. */
  predicate Start(s: Sorter) {
    && (s.put == 0 ==> s.position == 0)
    && (s.put == 1 ==> 2 * s.position < |s.arena|)
    && (0 < s.put <= 2 ==> LaidAt(s.ring, s.position, |s.arena|, 0) && s.ring != [] && s.ring[0].pos == 0)
    && (s.put <= 2 ==> s.pop == 0 && s.position == SumLen(s.ring))
  }

  predicate InStep(s: Sorter) {
    && multiset(s.time) == multiset(s.ring)
    && |s.time| == |s.ring| == s.put - s.pop
    && (s.time == [] ==> s.put == 0)
    && s.validLen == SumLen(s.time) == SumLen(s.ring)
  }

  predicate Order(s: Sorter) {
    && InOrder(s.time)
    && (forall i :: 0 <= i < |s.time| ==> s.time[i].item.id < s.nextId && s.preMinTs <= s.time[i].Ts())
    && (s.time != [] ==> s.minTs == s.time[0].Ts() && s.maxTs == s.time[|s.time| - 1].Ts())
  }

  ghost predicate Inv(s: Sorter) {
    Layout(s) && Start(s) && InStep(s) && Order(s)
  }

  lemma CreateInv(size: nat, sortTime: nat, maxSortTime: nat, now: nat)
    requires MIN_SORT_BUFF_LEN <= size
    ensures Inv(Create(size, sortTime, maxSortTime, now))
  {
    assert LaidAt([], 0, size, 0);
  }

  lemma CleanInv(s: Sorter, now: nat)
    requires MIN_SORT_BUFF_LEN <= |s.arena|
    ensures Inv(Clean(s, now))
  {
    assert LaidAt([], 0, |s.arena|, 0);
  }

  /** Only the sort delay and its clock changed. */
  predicate SameButDelay(s: Sorter, t: Sorter) {
    t == s.(sortTime := t.sortTime, analyTime := t.analyTime, analyClock := t.analyClock,
            lateDrop := t.lateDrop, earlyDrop := t.earlyDrop)
  }

  lemma SameButDelayInv(s: Sorter, t: Sorter)
    requires Inv(s) && SameButDelay(s, t)
    ensures Inv(t)
  {
    var k :| LaidAt(s.ring, s.position, |s.arena|, k);
    assert LaidAt(t.ring, t.position, |t.arena|, k);
  }

  lemma HeldByRing(arena: seq<byte>, time: seq<Entry>, ring: seq<Entry>)
    requires Held(arena, ring) && multiset(time) == multiset(ring)
    ensures Held(arena, time)
  {
    forall i | 0 <= i < |time| ensures time[i] in ring {
      assert time[i] in multiset(ring);
    }
  }

  // ---------------------------------------------------------------- regrowing

  lemma SumPrefix(es: seq<Entry>, i: nat, j: nat)
    requires i <= j <= |es|
    ensures SumLen(es[..i]) <= SumLen(es[..j]) <= SumLen(es)
    ensures i < j ==> SumLen(es[..i]) + es[i].Len() <= SumLen(es[..j])
  {
    assert es[..j] == es[..i] + es[i..j] && es == es[..j] + es[j..];
    SumConcat(es[..i], es[i..j]);
    SumConcat(es[..j], es[j..]);
  }

  lemma {:induction false} SumSameLens(a: seq<Entry>, b: seq<Entry>)
    requires |a| == |b| && forall i :: 0 <= i < |a| ==> a[i].item == b[i].item
    ensures SumLen(a) == SumLen(b)
  {
    if a != [] {
      SumSameLens(a[1..], b[1..]);
    }
  }

  lemma PackPositions(time: seq<Entry>)
    ensures Ascending(Pack(time), 0, |time|)
    ensures SumLen(Pack(time)) == SumLen(time)
    ensures forall i :: 0 <= i < |time| ==> Pack(time)[i].End() <= SumLen(time)
  {
    SumSameLens(Pack(time), time);
    forall i, j | 0 <= i < j <= |time|
      ensures Pack(time)[i].End() <= SumLen(time[..j]) <= SumLen(time)
    {
      SumPrefix(time, i, j);
    }
    assert time[..|time|] == time;
  }

  lemma {:induction false} FlatLength(pieces: seq<seq<byte>>, time: seq<Entry>)
    requires |pieces| == |time| && forall i :: 0 <= i < |time| ==> |pieces[i]| == time[i].Len()
    ensures |Concat(pieces)| == SumLen(time)
  {
    if time != [] {
      FlatLength(pieces[1..], time[1..]);
    }
  }

  lemma FlatHolds(arena: seq<byte>, time: seq<Entry>)
    requires Held(arena, time)
    ensures |Concat(Reads(arena, time))| == SumLen(time)
    ensures Held(Concat(Reads(arena, time)), Pack(time))
  {
    var pieces := Reads(arena, time);
    FlatLength(pieces, time);
    forall i | 0 <= i < |time|
      ensures var e := Pack(time)[i];
              e.End() <= |Concat(pieces)| && Concat(pieces)[e.pos..e.End()] == e.item.frame.bytes
    {
      FlatLength(pieces[..i], time[..i]);
      ConcatSlice(pieces, i);
      assert pieces[i] == time[i].item.frame.bytes;
    }
  }

  lemma HeldExtend(arena: seq<byte>, more: seq<byte>, es: seq<Entry>)
    requires Held(arena, es)
    ensures Held(arena + more, es)
  {
    forall i | 0 <= i < |es|
      ensures (arena + more)[es[i].pos..es[i].End()] == es[i].item.frame.bytes
    {
      assert (arena + more)[es[i].pos..es[i].End()] == arena[es[i].pos..es[i].End()];
    }
  }

  /** Held frames are not empty and fit in the arena together. */
  lemma HeldFits(s: Sorter)
    requires Inv(s)
    ensures SumLen(s.time) <= |s.arena|
    ensures forall i :: 0 <= i < |s.time| ==> 0 < s.time[i].Len()
  {
    var k :| LaidAt(s.ring, s.position, |s.arena|, k);
    LaidSum(s.ring, s.position, |s.arena|, k);
    forall i | 0 <= i < |s.time| ensures 0 < s.time[i].Len() {
      assert s.time[i] in multiset(s.ring);
    }
  }

  lemma SameItemsOrder(s: Sorter, t: Sorter)
    requires Order(s) && t.minTs == s.minTs && t.maxTs == s.maxTs && t.nextId == s.nextId && t.preMinTs <= s.preMinTs
    requires |t.time| == |s.time| && forall i :: 0 <= i < |t.time| ==> t.time[i].item == s.time[i].item
    ensures Order(t) && Items(t.time) == Items(s.time)
  {
    assert forall i, j :: 0 <= i < j < |t.time| ==> Earlier(s.time[i].item, s.time[j].item);
  }

  lemma {:induction false} AddressedPrefix(ring: seq<Entry>, packed: seq<Entry>, n: nat)
    requires |ring| == |packed| && n <= |packed| && ring != []
    ensures forall i :: 0 <= i < n ==> Addressed(ring, packed, n)[i] == packed[i]
  {
    if n > 0 {
      AddressedPrefix(ring, packed, n - 1);
      FirstRound(n - 1, |ring|);
    }
  }

  lemma FirstRound(n: nat, m: nat)
    requires n < m
    ensures n % m == n
  {
  }

  /** With as many addresses as frames, each frame's address is in its place. */
  lemma RegrowRing(s: Sorter, size: nat, now: nat)
    requires |s.ring| == |s.time|
    ensures Regrow(s, size, now).ring == Regrow(s, size, now).time
  {
    var packed := Pack(s.time);
    if packed != [] {
      AddressedPrefix(s.ring, packed, |packed|);
    }
  }

  lemma RegrowLayout(s: Sorter, size: nat, now: nat)
    requires Held(s.arena, s.time) && SumLen(s.time) < size
    requires forall i :: 0 <= i < |s.time| ==> 0 < s.time[i].Len()
    requires |s.ring| == |s.time|
    ensures var t := Regrow(s, size, now);
            && |t.arena| == size
            && t.position == SumLen(s.time)
            && LaidAt(t.ring, t.position, size, 0)
            && Held(t.arena, t.time)
  {
    var t := Regrow(s, size, now);
    RegrowRing(s, size, now);
    PackPositions(s.time);
    FlatHolds(s.arena, s.time);
    var flat := Concat(Reads(s.arena, s.time));
    var more := seq(size - |flat|, _ => 0);
    assert t.arena == flat + more;
    HeldExtend(flat, more, t.time);
  }

  /** Regrowing keeps the order, the items and their bytes, packs the frames from 0 in
      the order of the ring, and leaves `size` minus their total behind the write
      position. */
  lemma RegrowInv(s: Sorter, size: nat, now: nat)
    requires Inv(s) && s.put > 2 && |s.arena| < size
    ensures var t := Regrow(s, size, now);
            && Inv(t)
            && |t.arena| == size
            && t.position == SumLen(s.time) <= |s.arena|
            && LaidAt(t.ring, t.position, size, 0)
            && Items(t.time) == Items(s.time)
            && t.ring == t.time
  {
    HeldFits(s);
    RegrowRing(s, size, now);
    RegrowLayout(s, size, now);
    var t := Regrow(s, size, now);
    SameItemsOrder(s, t);
    SumSameLens(t.time, s.time);
  }
}
