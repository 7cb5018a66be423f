/** The intrusive circular lists, in a heap with any number of them, and the walk over the exception hooks. */
module RingList {

  class ListEntry {
    var next: ListEntry?
    var prev: ListEntry?

    constructor ()
    {
      next, prev := null, null;
    }
  }

  ghost predicate Distinct(r: seq<ListEntry>) { forall i, j :: 0 <= i < j < |r| ==> r[i] != r[j] }

  /** Each entry and the one after it point at each other. */
  ghost predicate Linked(r: seq<ListEntry>)
    reads r
  {
    && (forall i :: 0 <= i < |r| - 1 ==> r[i].next == r[i + 1])
    && (forall i :: 0 < i < |r| ==> r[i].prev == r[i - 1])
  }

  /** The entries of one list in order, its head first, closed into a ring by both links. */
  ghost predicate IsRing(r: seq<ListEntry>)
    reads r
  {
    r != [] && Distinct(r) && Linked(r) && r[|r| - 1].next == r[0] && r[0].prev == r[|r| - 1]
  }

  ghost function Entries(rs: seq<seq<ListEntry>>): (es: set<ListEntry>)
    ensures forall k, e :: 0 <= k < |rs| && e in rs[k] ==> e in es
  {
    set k, e | 0 <= k < |rs| && e in rs[k] :: e
  }

  ghost predicate Disjoint(rs: seq<seq<ListEntry>>) {
    forall k, l :: 0 <= k < l < |rs| ==> forall e :: !(e in rs[k] && e in rs[l])
  }

  /** Rings that share no entry. */
  ghost predicate Rings(rs: seq<seq<ListEntry>>)
    reads Entries(rs)
  {
    && (forall k :: 0 <= k < |rs| ==> IsRing(rs[k]))
    && Disjoint(rs)
  }

  function Without(r: seq<ListEntry>, e: ListEntry): seq<ListEntry> {
    if r == [] then [] else if r[0] == e then Without(r[1..], e) else [r[0]] + Without(r[1..], e)
  }

  function WithoutAll(rs: seq<seq<ListEntry>>, e: ListEntry): seq<seq<ListEntry>> {
    seq(|rs|, k requires 0 <= k < |rs| => Without(rs[k], e))
  }

  lemma {:induction false} WithoutAbsent(r: seq<ListEntry>, e: ListEntry)
    requires e !in r
    ensures Without(r, e) == r
  {
    if r == [] {
    } else {
      WithoutAbsent(r[1..], e);
    }
  }

  lemma {:induction false} WithoutAt(r: seq<ListEntry>, i: nat)
    requires i < |r| && forall j, k :: 0 <= j < k < |r| ==> r[j] != r[k]
    ensures Without(r, r[i]) == r[..i] + r[i + 1..]
  {
    if i == 0 {
      WithoutAbsent(r[1..], r[0]);
    } else {
      WithoutAt(r[1..], i - 1);
      assert r[1..][..i - 1] == r[1..i] && [r[0]] + r[1..i] == r[..i];
    }
  }

  // ---------------------------------------------------------------------------------------
  // Putting rings together

  /** A ring replaced by another, whose entries come from it or from outside. */
  lemma RingReplaced(rs: seq<seq<ListEntry>>, k: nat, q: seq<ListEntry>)
    requires k < |rs| && IsRing(q)
    requires forall l :: 0 <= l < |rs| && l != k ==> IsRing(rs[l])
    requires Disjoint(rs)
    requires forall e :: e in q && e !in rs[k] ==> e !in Entries(rs)
    ensures Rings(rs[k := q])
  {
    var now := rs[k := q];
    assert forall l, e :: 0 <= l < |rs| && l != k && e in rs[l] && e in q ==> e in Entries(rs) && e in rs[k];
    assert forall l, m :: 0 <= l < m < |now| ==> forall e :: !(e in now[l] && e in now[m]);
  }

  // ---------------------------------------------------------------------------------------
  // The operations

  method InitList(list: ListEntry, ghost rs: seq<seq<ListEntry>>)
    requires Rings(rs) && list !in Entries(rs)
    modifies list
    ensures Rings(rs + [[list]])
  {
    list.prev := list;
    list.next := list;
    ghost var now := rs + [[list]];
    assert IsRing([list]);
    assert forall k :: 0 <= k < |now| ==> IsRing(now[k]);
  }

  /** The links of an appended entry, and those that lead to it. */
  lemma RingAppended(r: seq<ListEntry>, entry: ListEntry)
    requires r != [] && Distinct(r) && entry !in r
    requires forall i :: 0 <= i < |r| - 1 ==> r[i].next == r[i + 1]
    requires forall i :: 0 < i < |r| ==> r[i].prev == r[i - 1]
    requires r[|r| - 1].next == entry == r[0].prev && entry.prev == r[|r| - 1] && entry.next == r[0]
    ensures IsRing(r + [entry])
  {
  }

  /** Appends an entry that is in no list. */
  method ListPush(list: ListEntry, entry: ListEntry, ghost rs: seq<seq<ListEntry>>, ghost k: nat)
    requires Rings(rs) && k < |rs| && list == rs[k][0] && entry !in Entries(rs)
    modifies list, entry, list.prev
    ensures Rings(rs[k := rs[k] + [entry]])
  {
    ghost var r := rs[k];
    assert IsRing(r) && forall e :: e in r ==> e in Entries(rs);
    assert list.prev in r && list in r;
    assert forall l, e :: 0 <= l < |rs| && l != k && e in rs[l] ==> e !in r && e in Entries(rs);
    var prev := list.prev;
    entry.prev := prev;
    entry.next := list;
    prev.next := entry;
    list.prev := entry;
    RingAppended(r, entry);
    hide IsRing;
    RingReplaced(rs, k, r + [entry]);
  }

  ghost function NextIn(r: seq<ListEntry>, i: nat): ListEntry
    requires i < |r|
  {
    if i + 1 < |r| then r[i + 1] else r[0]
  }

  /** The links around an entry that was taken out. */
  lemma RingShortened(r: seq<ListEntry>, i: nat)
    requires Distinct(r) && 0 < i < |r|
    requires forall j :: 0 <= j < |r| - 1 && j != i - 1 ==> r[j].next == r[j + 1]
    requires forall j :: 0 < j < |r| && j != i + 1 ==> r[j].prev == r[j - 1]
    requires r[i - 1].next == NextIn(r, i) && NextIn(r, i).prev == r[i - 1]
    requires i + 1 < |r| ==> r[|r| - 1].next == r[0] && r[0].prev == r[|r| - 1]
    ensures IsRing(r[..i] + r[i + 1..])
  {
    var q := r[..i] + r[i + 1..];
    assert forall j :: 0 <= j < |q| ==> q[j] == if j < i then r[j] else r[j + 1];
  }

  lemma RingFacts(r: seq<ListEntry>, i: nat)
    requires IsRing(r) && 0 < i < |r|
    ensures Distinct(r) && r[i].prev == r[i - 1] && r[i].next == NextIn(r, i)
    ensures forall j :: 0 <= j < |r| - 1 ==> r[j].next == r[j + 1]
    ensures forall j :: 0 < j < |r| ==> r[j].prev == r[j - 1]
    ensures r[|r| - 1].next == r[0] && r[0].prev == r[|r| - 1]
  {
  }

  lemma WithoutInOne(rs: seq<seq<ListEntry>>, k: nat, i: nat)
    requires Disjoint(rs) && k < |rs| && i < |rs[k]| && Distinct(rs[k])
    ensures WithoutAll(rs, rs[k][i]) == rs[k := rs[k][..i] + rs[k][i + 1..]]
  {
    forall l | 0 <= l < |rs|
      ensures Without(rs[l], rs[k][i]) == if l == k then rs[k][..i] + rs[k][i + 1..] else rs[l]
    {
      if l == k {
        WithoutAt(rs[k], i);
      } else {
        WithoutAbsent(rs[l], rs[k][i]);
      }
    }
  }

  lemma Place(entry: ListEntry, rs: seq<seq<ListEntry>>) returns (k: nat, i: nat)
    requires Rings(rs) && entry in Entries(rs) && forall k :: 0 <= k < |rs| ==> entry != rs[k][0]
    ensures k < |rs| && 0 < i < |rs[k]| && rs[k][i] == entry && IsRing(rs[k])
  {
    k, i :| 0 <= k < |rs| && 0 <= i < |rs[k]| && rs[k][i] == entry;
  }

  /** Other rings in a heap where only objects of ring k changed, and that ring is shorter by one. */
  lemma RingTakenOut(rs: seq<seq<ListEntry>>, k: nat, i: nat)
    requires Disjoint(rs) && k < |rs| && i < |rs[k]| && Distinct(rs[k])
    requires IsRing(rs[k][..i] + rs[k][i + 1..])
    requires forall l :: 0 <= l < |rs| && l != k ==> IsRing(rs[l])
    ensures Rings(WithoutAll(rs, rs[k][i]))
  {
    WithoutInOne(rs, k, i);
    hide IsRing;
    RingReplaced(rs, k, rs[k][..i] + rs[k][i + 1..]);
  }

  /** Takes an entry that is not a head out of whichever ring it is in; the caller does not say which. */
  method ListRemove(entry: ListEntry, ghost rs: seq<seq<ListEntry>>)
    requires Rings(rs) && entry in Entries(rs) && forall k :: 0 <= k < |rs| ==> entry != rs[k][0]
    modifies entry.prev, entry.next
    ensures Rings(WithoutAll(rs, entry))
  {
    ghost var k, i := Place(entry, rs);
    ghost var r := rs[k];
    assert forall l, e :: 0 <= l < |rs| && l != k && e in rs[l] ==> e !in r;
    hide IsRing, Disjoint, Entries, WithoutAll;
    RingFacts(r, i);
    var prev := entry.prev;
    var next := entry.next;
    assert prev in r && next in r;
    prev.next := next;
    next.prev := prev;
    RingShortened(r, i);
    RingTakenOut(rs, k, i);
  }

  /** Takes the last entry of a list, the one pushed last; null if there is none. It is the first only if alone. */
  method ListPop(list: ListEntry, ghost rs: seq<seq<ListEntry>>, ghost k: nat) returns (back: ListEntry?)
    requires Rings(rs) && k < |rs| && list == rs[k][0]
    modifies if |rs[k]| > 1 then {list, rs[k][|rs[k]| - 2]} else {}
    ensures |rs[k]| == 1 ==> back == null && Rings(rs)
    ensures |rs[k]| > 1 ==> back == rs[k][|rs[k]| - 1] && Rings(rs[k := rs[k][..|rs[k]| - 1]])
    ensures |rs[k]| > 1 ==> (back == rs[k][1] <==> |rs[k]| == 2)
  {
    ghost var r := rs[k];
    assert IsRing(r);
    back := list.prev;
    assert back == r[|r| - 1] && back in r;
    if back == list {
      return null;
    }
    ghost var i := |r| - 1;
    assert r[..i] + r[i + 1..] == r[..i];
    assert back.prev == r[i - 1] && back.next == r[0];
    WithoutInOne(rs, k, i);
    ListRemove(back, rs);
  }

  // ---------------------------------------------------------------------------------------
  // The exception hooks

  /** What a hook leaves: the context, its handled flag, and its error, zero for none. */
  datatype Outcome<S> = Outcome(ctx: S, handled: bool, err: nat)

  /** The handle function of every hook. */
  type Handler<!S> = (ListEntry, S, bool) -> Outcome<S>

  datatype Walk<S> = Walk(outcome: Outcome<S>, called: seq<ListEntry>)

  /** The hooks in order, up to the first that returns an error. */
  function CallHooks<S>(hooks: seq<ListEntry>, handle: Handler<S>, ctx: S, handled: bool): Walk<S> {
    if hooks == [] then Walk(Outcome(ctx, handled, 0), [])
    else
      var o := handle(hooks[0], ctx, handled);
      if o.err != 0 then Walk(o, [hooks[0]])
      else
        var w := CallHooks(hooks[1..], handle, o.ctx, o.handled);
        w.(called := [hooks[0]] + w.called)
  }

  /** The outcome of the n-th call, had every hook before it been called whatever it returned. */
  function Call<S>(hooks: seq<ListEntry>, handle: Handler<S>, ctx: S, handled: bool, n: nat): Outcome<S>
    requires n <= |hooks|
  {
    if n == 0 then Outcome(ctx, handled, 0)
    else
      var before := Call(hooks, handle, ctx, handled, n - 1);
      handle(hooks[n - 1], before.ctx, before.handled)
  }

  lemma {:induction false} CallOfRest<S>(hooks: seq<ListEntry>, handle: Handler<S>, ctx: S, handled: bool, n: nat)
    requires n < |hooks| && handle(hooks[0], ctx, handled).err == 0
    ensures
      var o := handle(hooks[0], ctx, handled);
      Call(hooks[1..], handle, o.ctx, o.handled, n) == Call(hooks, handle, ctx, handled, n + 1)
  {
    if n == 0 {
      assert Call(hooks, handle, ctx, handled, 0) == Outcome(ctx, handled, 0);
    } else {
      CallOfRest(hooks, handle, ctx, handled, n - 1);
    }
  }

  lemma FirstCall<S>(hooks: seq<ListEntry>, handle: Handler<S>, ctx: S, handled: bool)
    requires hooks != []
    ensures Call(hooks, handle, ctx, handled, 1) == handle(hooks[0], ctx, handled)
  {
    assert Call(hooks, handle, ctx, handled, 0) == Outcome(ctx, handled, 0);
  }

  /** The first n of the hooks were called, none before the n-th failed, and all if the n-th did not. */
  ghost predicate StoppedAtFirstError<S>(hooks: seq<ListEntry>, handle: Handler<S>, ctx: S, handled: bool,
      w: Walk<S>) {
    && w.called <= hooks && w.outcome == Call(hooks, handle, ctx, handled, |w.called|)
    && (forall i :: 1 <= i < |w.called| ==> Call(hooks, handle, ctx, handled, i).err == 0)
    && (w.outcome.err == 0 ==> w.called == hooks)
  }

  lemma {:induction false} CallsUpToFirstError<S>(hooks: seq<ListEntry>, handle: Handler<S>, ctx: S, handled: bool)
    ensures StoppedAtFirstError(hooks, handle, ctx, handled, CallHooks(hooks, handle, ctx, handled))
  {
    if hooks == [] {
    } else {
      var o := handle(hooks[0], ctx, handled);
      FirstCall(hooks, handle, ctx, handled);
      if o.err == 0 {
        CallsUpToFirstError(hooks[1..], handle, o.ctx, o.handled);
        OneMore(hooks, handle, ctx, handled, CallHooks(hooks[1..], handle, o.ctx, o.handled));
      }
    }
  }

  lemma OneMore<S>(hooks: seq<ListEntry>, handle: Handler<S>, ctx: S, handled: bool, w: Walk<S>)
    requires hooks != [] && handle(hooks[0], ctx, handled).err == 0
    requires var o := handle(hooks[0], ctx, handled); StoppedAtFirstError(hooks[1..], handle, o.ctx, o.handled, w)
    ensures StoppedAtFirstError(hooks, handle, ctx, handled, w.(called := [hooks[0]] + w.called))
  {
    var o := handle(hooks[0], ctx, handled);
    FirstCall(hooks, handle, ctx, handled);
    hide Call;
    var n := |w.called|;
    assert [hooks[0]] + hooks[1..] == hooks;
    CallOfRest(hooks, handle, ctx, handled, n);
    forall i | 1 <= i < n + 1
      ensures Call(hooks, handle, ctx, handled, i).err == 0
    {
      if i > 1 {
        CallOfRest(hooks, handle, ctx, handled, i - 1);
      }
    }
  }

  /** hook_exception_handler: the new hook is called after those already there. */
  method HookExceptionHandler(list: ListEntry, link: ListEntry, ghost rs: seq<seq<ListEntry>>, ghost k: nat)
    requires Rings(rs) && k < |rs| && list == rs[k][0] && link !in Entries(rs)
    modifies list, link, list.prev
    ensures Rings(rs[k := rs[k] + [link]])
  {
    ListPush(list, link, rs, k);
  }

  /** Calls the hooks; fatal is whether the kernel's own handler, which does not return, is reached. */
  method CommonExceptionHandler<S>(list: ListEntry, handle: Handler<S>, context: S, ghost r: seq<ListEntry>)
    returns (fatal: bool, ctx: S)
    requires IsRing(r) && r[0] == list
    ensures
      var o := CallHooks(r[1..], handle, context, false).outcome;
      ctx == o.ctx && fatal == (o.err != 0 || !o.handled)
  {
    var err, handled := 0, false;
    ctx := context;
    var entry := list.next;
    ghost var i := 1;
    ghost var all := CallHooks(r[1..], handle, context, false).outcome;
    while entry != list
      invariant 1 <= i <= |r| && entry == (if i < |r| then r[i] else list) && err == 0
      invariant all == CallHooks(r[i..], handle, ctx, handled).outcome
      decreases |r| - i
    {
      var o := handle(entry, ctx, handled);
      assert r[i..][1..] == r[i + 1..];
      ctx, handled, err := o.ctx, o.handled, o.err;
      if err != 0 {
        break;
      }
      entry := entry.next;
      i := i + 1;
    }
    fatal := err != 0 || !handled;
  }
}
