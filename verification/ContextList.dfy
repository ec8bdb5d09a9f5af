/**
 The intrusive object lists of mgw.c: each context holds the address of the cell that
 points at it, which is the list head or the `next` of the context before.
 */
module ContextList {
  import opened Media

  datatype Cell = NoCell | HeadOf(list: List) | NextOf(context: Context)

  class Context {
    const name: string
    const isPrivate: bool
    /** The list's mutex is set, that is, the context is in a list. */
    var hasMutex: bool
    var next: Context?
    var prevNext: Cell

    constructor (n: string, private_: bool)
      ensures name == n && isPrivate == private_ && !hasMutex
    {
      name, isPrivate := n, private_;
      hasMutex, next, prevNext := false, null, NoCell;
    }
  }

  // ---------------------------------------------------------------- what a run makes of a list

  datatype Op<T> = Insert(c: T) | Remove(c: T)

  /** The position of `c`; |s| when it is not there. */
  ghost function IndexOf<T>(s: seq<T>, c: T): (i: nat)
    ensures i <= |s| && (i < |s| ==> s[i] == c)
    ensures c in s ==> i < |s|
  {
    if s == [] then 0 else if s[0] == c then 0 else 1 + IndexOf(s[1..], c)
  }

  ghost predicate Distinct<T>(s: seq<T>) {
    forall i, j :: 0 <= i < j < |s| ==> s[i] != s[j]
  }

  lemma OnlyAt<T>(s: seq<T>, i: nat)
    requires Distinct(s) && i < |s|
    ensures forall j :: 0 <= j < |s| && j != i ==> s[j] != s[i]
  {
  }

  lemma DistinctWithout<T>(s: seq<T>, i: nat)
    requires Distinct(s) && i < |s|
    ensures Distinct(Without(s, i))
  {
  }

  ghost function Erase<T>(s: seq<T>, c: T): seq<T> {
    var i := IndexOf(s, c);
    if i < |s| then Without(s, i) else s
  }

  /** The list after a sequence of calls, the newest insert first. */
  ghost function Replay<T>(ops: seq<Op<T>>): seq<T> {
    if ops == [] then []
    else
      var before, op := Replay(ops[..|ops| - 1]), ops[|ops| - 1];
      if op.Insert? then [op.c] + before else Erase(before, op.c)
  }

  /** Only contexts that are in no list are inserted. */
  ghost predicate InsertsUnlinked<T>(ops: seq<Op<T>>) {
    forall n :: 0 <= n < |ops| && ops[n].Insert? ==> ops[n].c !in Replay(ops[..n])
  }

  /** The number of the last call about `c`; -1 when there was none. */
  ghost function LastCall<T>(ops: seq<Op<T>>, c: T): (n: int)
    ensures -1 <= n < |ops|
    ensures n >= 0 ==> ops[n].c == c
    ensures forall i :: n < i < |ops| ==> ops[i].c != c
  {
    if ops == [] then -1
    else if ops[|ops| - 1].c == c then |ops| - 1
    else LastCall(ops[..|ops| - 1], c)
  }

  lemma Unlinked<T>(ops: seq<Op<T>>, n: nat)
    requires InsertsUnlinked(ops) && n <= |ops|
    ensures InsertsUnlinked(ops[..n])
  {
    forall i | 0 <= i < n && ops[i].Insert? ensures ops[i].c !in Replay(ops[..n][..i]) {
      assert ops[..n][..i] == ops[..i];
    }
  }

  lemma LastCallBefore<T>(ops: seq<Op<T>>, c: T)
    requires ops != [] && ops[|ops| - 1].c != c
    ensures LastCall(ops, c) == LastCall(ops[..|ops| - 1], c)
  {
  }

  /** A context is in the list if and only if the last call about it was an insert, and
      the list is in the order of those inserts, newest first, each context once:
      whatever came between, removing one context never reorders the others. */
  lemma {:induction false} ReplayExact<T>(ops: seq<Op<T>>)
    requires InsertsUnlinked(ops)
    ensures forall c :: c in Replay(ops) <==> LastCall(ops, c) >= 0 && ops[LastCall(ops, c)].Insert?
    ensures forall i, j :: 0 <= i < j < |Replay(ops)| ==> LastCall(ops, Replay(ops)[i]) > LastCall(ops, Replay(ops)[j])
    decreases |ops|
  {
    if ops != [] {
      var n := |ops| - 1;
      var pre, op := ops[..n], ops[n];
      var before := Replay(pre);
      Unlinked(ops, n);
      ReplayExact(pre);
      forall c | c != op.c ensures LastCall(ops, c) == LastCall(pre, c) {
        LastCallBefore(ops, c);
      }
      if op.Insert? {
        assert op.c !in before;
      } else {
        forall c ensures c in Erase(before, op.c) <==> c in before && c != op.c {
          ErasedOne(before, op.c, c);
        }
      }
    }
  }

  lemma ErasedOne<T>(s: seq<T>, c: T, x: T)
    requires Distinct(s)
    ensures x in Erase(s, c) <==> x in s && x != c
    ensures c !in s ==> Erase(s, c) == s
  {
    var i := IndexOf(s, c);
    if x in s && x != c {
      var k :| 0 <= k < |s| && s[k] == x;
      if i < |s| {
        assert Without(s, i)[if k < i then k else k - 1] == x;
      }
    }
  }

  // ---------------------------------------------------------------- the list in place

  predicate Named(c: Context, name: string) {
    !c.isPrivate && c.name == name
  }

  class List {
    var first: Context?
    ghost var nodes: seq<Context>

    ghost predicate Valid()
      reads this, nodes
    {
      && first == (if nodes == [] then null else nodes[0])
      && Distinct(nodes)
      && (forall i, j :: 0 <= i && i + 1 == j < |nodes| ==> nodes[i].next == nodes[j])
      && (nodes != [] ==> nodes[|nodes| - 1].next == null && nodes[0].prevNext == HeadOf(this))
      && (forall i, j :: 0 <= i && i + 1 == j < |nodes| ==> nodes[j].prevNext == NextOf(nodes[i]))
      && (forall i :: 0 <= i < |nodes| ==> nodes[i].hasMutex)
    }

    constructor ()
      ensures Valid() && nodes == []
    {
      first, nodes := null, [];
    }

    /** mgw_context_data_insert. */
    method InsertContext(context: Context)
      requires Valid() && !context.hasMutex
      modifies this, context, nodes
      ensures Valid() && nodes == [context] + old(nodes)
    {
      assert context !in nodes;
      context.hasMutex := true;
      context.prevNext := HeadOf(this);
      context.next := first;
      first := context;
      if context.next != null {
        context.next.prevNext := NextOf(context);
      }
      nodes := [context] + nodes;
    }

    /** get_context_by_name, before the reference is taken. */
    method FindByName(name: string) returns (found: Context?)
      requires Valid()
      ensures found == null ==> forall c :: c in nodes ==> !Named(c, name)
      ensures found != null ==> exists i ::
                && 0 <= i < |nodes| && nodes[i] == found && Named(found, name)
                && forall j :: 0 <= j < i ==> !Named(nodes[j], name)
    {
      found := first;
      ghost var i := 0;
      while found != null
        invariant 0 <= i <= |nodes|
        invariant found == if i < |nodes| then nodes[i] else null
        invariant forall j :: 0 <= j < i ==> !Named(nodes[j], name)
        decreases |nodes| - i
      {
        if !found.isPrivate && found.name == name {
          return;
        }
        found := found.next;
        i := i + 1;
      }
    }
  }

  /** mgw_context_data_remove: knows neither the list nor the context before, only the
      cell.  `owner` is the list the context is in, if it is in one. */
  method RemoveContext(context: Context, ghost owner: List)
    requires owner.Valid() && (context.hasMutex ==> context in owner.nodes)
    modifies owner, owner.nodes, context
    ensures owner.Valid() && !context.hasMutex
    ensures old(context.hasMutex) ==> owner.nodes == Erase(old(owner.nodes), context)
    ensures !old(context.hasMutex) ==> unchanged(owner) && unchanged(owner.nodes) && unchanged(context)
  {
    if context.hasMutex {
      Unlink(context, owner, IndexOf(owner.nodes, context));
    }
  }

  method Unlink(context: Context, ghost owner: List, ghost i: nat)
    requires owner.Valid() && i < |owner.nodes| && owner.nodes[i] == context
    modifies owner, owner.nodes
    ensures owner.Valid() && !context.hasMutex && owner.nodes == Without(old(owner.nodes), i)
  {
    ghost var n, was := |owner.nodes|, owner.nodes;
    Relink(context, owner, i);
    context.hasMutex := false;
    OnlyAt(was, i);
    DistinctWithout(was, i);
    hide Distinct;
    owner.nodes := Without(was, i);
  }

  /** The cell before and the context behind point past `context`. */
  method Relink(context: Context, ghost owner: List, ghost i: nat)
    requires owner.Valid() && i < |owner.nodes| && owner.nodes[i] == context
    modifies owner`first, owner.nodes
    ensures var n := |owner.nodes|;
            && owner.first == (if i == 0 then old(context.next) else old(owner.first))
            && old(context.next) == (if i + 1 < n then owner.nodes[i + 1] else null)
            && (forall j :: 0 <= j < n ==>
                  var c := owner.nodes[j];
                  && c.next == (if j == i - 1 then old(context.next) else old(c.next))
                  && c.prevNext == (if j == i + 1 then old(context.prevNext) else old(c.prevNext))
                  && c.hasMutex)
  {
    assert context.next == if i + 1 < |owner.nodes| then owner.nodes[i + 1] else null;
    assert context.prevNext == if i == 0 then HeadOf(owner) else NextOf(owner.nodes[i - 1]);
    if context.prevNext.HeadOf? {
      context.prevNext.list.first := context.next;
    } else if context.prevNext.NextOf? {
      context.prevNext.context.next := context.next;
    }
    if context.next != null {
      context.next.prevNext := context.prevNext;
    }
  }

  // ---------------------------------------------------------------- several lists

  ghost function Members(lists: set<List>): (r: set<Context>)
    reads lists
    ensures forall l, c :: l in lists && c in l.nodes ==> c in r
  {
    set l, c | l in lists && c in l.nodes :: c
  }

  /** All lists are in order and no context is in two of them. */
  ghost predicate Apart(lists: set<List>)
    reads lists, Members(lists)
  {
    && (forall l :: l in lists ==> l.Valid())
    && (forall l, m :: l in lists && m in lists && l != m ==> forall c :: c in l.nodes ==> c !in m.nodes)
  }

  twostate lemma StaysValid(l: List)
    requires old(l.Valid()) && unchanged(l)
    requires forall c :: c in l.nodes ==> unchanged(c)
    ensures l.Valid()
  {
    forall i | 0 <= i < |l.nodes| ensures unchanged(l.nodes[i]) {
      assert l.nodes[i] in l.nodes;
    }
  }

  /** Inserting into one list leaves all others as they were. */
  method InsertAmong(ghost lists: set<List>, list: List, context: Context)
    requires list in lists && Apart(lists) && !context.hasMutex
    modifies list, context, list.nodes
    ensures Apart(lists) && list.nodes == [context] + old(list.nodes)
    ensures forall l :: l in lists && l != list ==> l.nodes == old(l.nodes)
  {
    list.InsertContext(context);
    forall l | l in lists && l != list ensures l.Valid() {
      StaysValid(l);
    }
  }

  /** Removing a context from whichever list it is in leaves all others as they were. */
  method RemoveAmong(ghost lists: set<List>, context: Context, ghost owner: List)
    requires owner in lists && Apart(lists) && (context.hasMutex ==> context in owner.nodes)
    modifies owner, owner.nodes, context
    ensures Apart(lists) && !context.hasMutex
    ensures owner.nodes == if old(context.hasMutex) then Erase(old(owner.nodes), context) else old(owner.nodes)
    ensures forall l :: l in lists && l != owner ==> l.nodes == old(l.nodes)
  {
    ValidParts(owner);
    RemoveContext(context, owner);
    hide List.Valid, Erase;
    forall c: Context ensures c in owner.nodes <==> c in old(owner.nodes) && c != context {
      ErasedOne(old(owner.nodes), context, c);
    }
    forall l | l in lists && l != owner ensures l.Valid() {
      StaysValid(l);
    }
  }

  lemma ValidParts(l: List)
    requires l.Valid()
    ensures Distinct(l.nodes) && forall c :: c in l.nodes ==> c.hasMutex
  {
  }

  /** Any sequence of inserts of unlinked contexts and removes of any contexts, also
      repeated ones, on an empty list. */
  method Perform(list: List, ops: seq<Op<Context>>, ghost pool: set<Context>)
    requires list.Valid() && list.nodes == [] && InsertsUnlinked(ops)
    requires forall n :: 0 <= n < |ops| ==> ops[n].c in pool && !ops[n].c.hasMutex
    modifies list, pool
    ensures list.Valid() && list.nodes == Replay(ops)
  {
    hide List.Valid, Erase;
    for n := 0 to |ops|
      invariant list.Valid() && list.nodes == Replay(ops[..n])
      invariant forall c :: c in list.nodes ==> c in pool
      invariant forall k :: 0 <= k < |ops| ==> (ops[k].c.hasMutex <==> ops[k].c in list.nodes)
    {
      assert ops[..n + 1][..n] == ops[..n];
      ghost var before := list.nodes;
      assert ops[n].c in pool;
      if ops[n].Insert? {
        list.InsertContext(ops[n].c);
        assert forall c :: c in list.nodes ==> c in before || c == ops[n].c;
      } else {
        ValidParts(list);
        ErasedOne(before, ops[n].c, ops[n].c);
        RemoveContext(ops[n].c, list);
        forall c: Context ensures c in list.nodes <==> c in before && c != ops[n].c {
          ErasedOne(before, ops[n].c, c);
        }
      }
    }
    assert ops[..|ops|] == ops;
  }
}
