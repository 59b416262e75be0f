/**
 Runs of the QuickFit allocator: the clients' calls and stores, one after the other. A
 client frees and resizes only blocks that it holds, under their class, and stores only
 inside them; otherwise the calls are arbitrary.
 */
module QuickFitRuns {
  import opened Wrappers
  import opened QuickFit
  import opened QuickFitHeap

  datatype Operation =
    | Malloc(layout: Layout)
    | Free(block: Addr, layout: Layout)
    | Realloc(block: Addr, layout: Layout, newSize: nat)
    | Store(block: Addr, offset: nat, value: nat)

  /** What a client may do when it holds the blocks of `live`. */
  predicate Allowed(live: map<Addr, nat>, op: Operation) {
    match op
    case Malloc(layout) => IsQuick(layout)
    case Free(p, layout) => IsQuick(layout) && p in live && live[p] == ClassOf(layout)
    case Realloc(p, layout, newSize) =>
      IsQuick(layout) && IsQuick(Layout(newSize, layout.align)) && p in live && live[p] == ClassOf(layout)
    case Store(p, offset, _) => p in live && offset < ClassSize(live[p])
  }

  datatype Event =
    | Got(block: Addr, k: nat)
    | Gave(block: Addr)
    | Moved(block: Addr, to: Addr, k: nat, kept: nat)
    | Stored(block: Addr)
    | Nothing

  predicate Touches(e: Event, p: Addr) {
    !e.Nothing? && e.block == p
  }

  /** The client no longer holds `p` because of `e`. */
  predicate Releases(e: Event, p: Addr) {
    e == Gave(p) || (e.Moved? && e.block == p && e.to != p)
  }

  /** What an event does to the blocks that clients hold, and to their contents. */
  ghost predicate Effect(live: map<Addr, nat>, mem: Memory, e: Event, live': map<Addr, nat>, mem': Memory) {
    match e
    case Got(p, k) => p !in live && live' == live[p := k] && LiveKept(mem, mem', live)
    case Gave(p) => p in live && live' == live - {p} && LiveKept(mem, mem', live')
    case Moved(p, q, k, n) =>
      && p in live && (q == p || q !in live) && live' == (live - {p})[q := k]
      && LiveKept(mem, mem', live - {p}) && SameContents(mem, p, mem', q, n)
    case Stored(p) => p in live && live' == live && LiveKept(mem, mem', live - {p})
    case Nothing => live' == live && mem' == mem
  }

  /** The answer to each call, when the classes of `out` have no block to give. */
  predicate Answers(op: Operation, e: Event, out: set<nat>) {
    match op
    case Malloc(layout) =>
      if ClassOf(layout) in out then e.Nothing? else e.Got? && e.k == ClassOf(layout)
    case Free(p, _) => e == Gave(p)
    case Realloc(p, layout, newSize) =>
      var k := ClassOf(Layout(newSize, layout.align));
      if k in out && !Stays(layout, newSize) then e.Nothing?
      else e.Moved? && e.block == p && e.k == k && e.kept == Min(layout.size, newSize)
           && (e.to == p <==> Stays(layout, newSize))
    case Store(p, _, _) => e == Stored(p)
  }

  /** The classes that have no block to give. */
  ghost function Out(a: Allocator): set<nat>
    requires a.Valid()
    reads a
  {
    set k | 0 <= k < NUM_QLISTS && a.Exhausted(k)
  }

  function Min(a: nat, b: nat): nat {
    if a < b then a else b
  }

  /** The client's own record of the blocks it holds. */
  function Held(held: map<Addr, nat>, e: Event): map<Addr, nat> {
    match e
    case Got(p, k) => held[p := k]
    case Gave(p) => held - {p}
    case Moved(p, q, k, _) => (held - {p})[q := k]
    case _ => held
  }

  datatype Moment = Moment(live: map<Addr, nat>, mem: Memory, out: set<nat>)

  /** `moments[i]` is the state before event `i`. */
  ghost predicate IsHistory(moments: seq<Moment>, events: seq<Event>) {
    && |moments| == |events| + 1
    && forall i | 0 <= i < |events| ::
         Effect(moments[i].live, moments[i].mem, events[i], moments[i + 1].live, moments[i + 1].mem)
  }

  lemma {:induction false} EffectKeeps(m: Moment, e: Event, m': Moment, p: Addr)
    requires Effect(m.live, m.mem, e, m'.live, m'.mem) && p in m.live && !Touches(e, p)
    ensures p in m'.live && m'.live[p] == m.live[p]
    ensures SameBytes(m.mem, m'.mem, p, p + ClassSize(m.live[p]))
  {
    match e
    case Got(_, _) => assert p in m.live;
    case Gave(_) => assert p in m'.live;
    case Moved(q, _, _, _) => assert p in m.live - {q};
    case Stored(q) => assert p in m.live - {q};
    case Nothing =>
  }

  /** A block that nobody frees, resizes or stores into stays live and keeps its bytes. */
  lemma {:induction false} BlockKept(moments: seq<Moment>, events: seq<Event>, p: Addr, i: nat, j: nat)
    requires IsHistory(moments, events) && i <= j < |moments| && p in moments[i].live
    requires forall n | i <= n < j :: !Touches(events[n], p)
    ensures p in moments[j].live && moments[j].live[p] == moments[i].live[p]
    ensures i < j ==> SameBytes(moments[i].mem, moments[j].mem, p, p + ClassSize(moments[i].live[p]))
    decreases j - i
  {
    if i < j {
      EffectKeeps(moments[i], events[i], moments[i + 1], p);
      BlockKept(moments, events, p, i + 1, j);
    }
  }

  lemma {:induction false} StaysLive(moments: seq<Moment>, events: seq<Event>, p: Addr, i: nat, j: nat)
    requires IsHistory(moments, events) && i <= j < |moments| && p in moments[i].live
    requires forall n | i <= n < j :: !Releases(events[n], p)
    ensures p in moments[j].live
    decreases j - i
  {
    if i < j {
      assert Effect(moments[i].live, moments[i].mem, events[i], moments[i + 1].live, moments[i + 1].mem);
      StaysLive(moments, events, p, i + 1, j);
    }
  }

  /** An address handed out twice was given back in between. */
  lemma {:induction false} NotGotTwice(moments: seq<Moment>, events: seq<Event>, p: Addr, i: nat, j: nat)
    requires IsHistory(moments, events) && i < j < |events|
    requires events[i].Got? && events[j].Got? && events[i].block == events[j].block == p
    ensures exists n | i < n < j :: Releases(events[n], p)
  {
    assert Effect(moments[i].live, moments[i].mem, events[i], moments[i + 1].live, moments[i + 1].mem);
    assert Effect(moments[j].live, moments[j].mem, events[j], moments[j + 1].live, moments[j + 1].mem);
    if forall n | i < n < j :: !Releases(events[n], p) {
      StaysLive(moments, events, p, i + 1, j);
    }
  }

  method Perform(a: Allocator, op: Operation) returns (e: Event)
    requires a.Valid() && Allowed(a.live, op)
    modifies a
    ensures a.Valid() && Effect(old(a.live), old(a.mem), e, a.live, a.mem)
    ensures Answers(op, e, old(Out(a)))
  {
    match op
    case Malloc(layout) =>
      var r := a.Malloc(layout);
      e := if r.Some? then Got(r.value, ClassOf(layout)) else Nothing;
    case Free(p, layout) =>
      a.Free(Some(p), layout);
      e := Gave(p);
    case Realloc(p, layout, newSize) =>
      var r := a.Realloc(Some(p), layout, newSize);
      e := if r.Some?
      then Moved(p, r.value, ClassOf(Layout(newSize, layout.align)), Min(layout.size, newSize))
      else Nothing;
    case Store(p, offset, value) =>
      a.Store(p, offset, value);
      e := Stored(p);
  }

  /**
   Any sequence of operations, leaving out those that a client is not allowed: the heap
   invariant holds throughout, and what happened is a history of the effects above.
   */
  method PerformAll(a: Allocator, ops: seq<Operation>, held: map<Addr, nat>)
    returns (events: seq<Event>, ghost moments: seq<Moment>)
    requires a.Valid() && a.live == held
    modifies a
    ensures a.Valid() && |events| == |ops| && IsHistory(moments, events)
    ensures moments[0] == Moment(old(a.live), old(a.mem), old(Out(a)))
            && moments[|ops|] == Moment(a.live, a.mem, Out(a))
    ensures forall i | 0 <= i < |ops| ::
              if Allowed(moments[i].live, ops[i]) then Answers(ops[i], events[i], moments[i].out)
              else events[i] == Nothing
    ensures forall i, j |
              0 <= i < j < |events| && events[i].Got? && events[j].Got? && events[i].block == events[j].block ::
              exists n | i < n < j :: Releases(events[n], events[i].block)
  {
    events, moments := [], [Moment(a.live, a.mem, Out(a))];
    var holds := held;
    for n := 0 to |ops|
      invariant a.Valid() && a.live == holds && |events| == n && IsHistory(moments, events)
      invariant moments[0] == Moment(old(a.live), old(a.mem), old(Out(a)))
                && moments[n] == Moment(a.live, a.mem, Out(a))
      invariant forall i | 0 <= i < n ::
                  if Allowed(moments[i].live, ops[i]) then Answers(ops[i], events[i], moments[i].out)
                  else events[i] == Nothing
    {
      var e := Nothing;
      if Allowed(holds, ops[n]) {
        e := Perform(a, ops[n]);
        holds := Held(holds, e);
      }
      HistoryStep(moments, events, e, Moment(a.live, a.mem, Out(a)));
      events, moments := events + [e], moments + [Moment(a.live, a.mem, Out(a))];
    }
    forall i, j | 0 <= i < j < |events| && events[i].Got? && events[j].Got? && events[i].block == events[j].block
      ensures exists n | i < n < j :: Releases(events[n], events[i].block)
    {
      NotGotTwice(moments, events, events[i].block, i, j);
    }
  }

  lemma {:induction false} HistoryStep(moments: seq<Moment>, events: seq<Event>, e: Event, m: Moment)
    requires IsHistory(moments, events) && Effect(moments[|events|].live, moments[|events|].mem, e, m.live, m.mem)
    ensures IsHistory(moments + [m], events + [e])
  {
    var moments', events' := moments + [m], events + [e];
    forall i | 0 <= i < |events'|
      ensures Effect(moments'[i].live, moments'[i].mem, events'[i], moments'[i + 1].live, moments'[i + 1].mem)
    {
      if i < |events| {
        assert Effect(moments[i].live, moments[i].mem, events[i], moments[i + 1].live, moments[i + 1].mem);
      }
    }
  }
}
