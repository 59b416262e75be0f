/**
 Runs of the page allocator: what its operations did, one after the other, and
 the law that a page handed out is not handed out again before it was freed.
 */
module BitmapRuns {
  import opened Wrappers
  import opened Mem
  import opened BitmapGeometry
  import opened BitmapAlloc

  datatype Operation =
    | Allocate
    | Deallocate(pa: PhysAddr)
    | MarkFree(range: PhysRange)
    | MarkAllocated(range: PhysRange)

  /** What an operation did to the set of free pages. */
  datatype Event =
    | Took(page: nat)
    | Gave(pages: set<nat>)
    | Reserved(pages: set<nat>)
    | Failed

  ghost predicate Effect(free: set<nat>, e: Event, free': set<nat>) {
    match e
    case Took(p) => p in free && free' == free - {p}
    case Gave(ps) => free' == free + ps
    case Reserved(ps) => free' == free - ps
    case Failed => free' == free
  }

  /** `frees[i]` is the set of free pages before event `i`. */
  ghost predicate IsHistory(frees: seq<set<nat>>, events: seq<Event>) {
    |frees| == |events| + 1 && forall i | 0 <= i < |events| :: Effect(frees[i], events[i], frees[i + 1])
  }

  predicate Frees(e: Event, p: nat) {
    e.Gave? && p in e.pages
  }

  lemma {:induction false} StaysTaken(frees: seq<set<nat>>, events: seq<Event>, p: nat, i: nat, j: nat)
    requires IsHistory(frees, events) && i <= j < |frees| && p !in frees[i]
    requires forall k | i <= k < j :: !Frees(events[k], p)
    ensures p !in frees[j]
    decreases j - i
  {
    if i < j {
      assert Effect(frees[i], events[i], frees[i + 1]);
      StaysTaken(frees, events, p, i + 1, j);
    }
  }

  /** Between two allocations of the same page, some event gave that page back. */
  lemma NotTakenTwice(frees: seq<set<nat>>, events: seq<Event>, p: nat, i: nat, j: nat)
    requires IsHistory(frees, events) && i < j < |events|
    requires events[i] == Took(p) && events[j] == Took(p)
    ensures exists k | i < k < j :: Frees(events[k], p)
  {
    assert Effect(frees[i], events[i], frees[i + 1]);
    assert Effect(frees[j], events[j], frees[j + 1]);
    if forall k | i < k < j :: !Frees(events[k], p) {
      StaysTaken(frees, events, p, i + 1, j);
    }
  }

  /**
   Deallocations at which the source does not panic, other than the one that frees the page
   at the end (see `BitmapPageAlloc.Deallocate`).
   */
  predicate Admissible(g: Geometry, end: PhysAddr, op: Operation)
    requires g.Formed()
  {
    op.Deallocate? && op.pa <= end ==>
      && g.IsPageAddr(op.pa) && op.pa < g.MaxBytes()
      && !(op.pa == end && g.PhysAddrAsIndices(op.pa).1 == 0)
  }

  /** What each operation has to do when `free` are the free pages. */
  ghost predicate Does(g: Geometry, end: PhysAddr, free: set<nat>, op: Operation, e: Event)
    requires g.Valid() && end <= g.MaxBytes()
  {
    match op
    case Allocate => if free == {} then e == Failed else e.Took?
    case Deallocate(pa) => e == if pa > end || g.PageOf(pa) in free then Failed else Gave({Cleared(g, pa)})
    case MarkFree(range) => e == if range.end > end then Failed else Gave(Met(g, range))
    case MarkAllocated(range) => e == if range.end > end then Failed else Reserved(Met(g, range))
  }

  /** A deallocation in the first byte of a bitmap, and only such a one, gives the page asked for. */
  lemma GivesAsked(g: Geometry, end: PhysAddr, free: set<nat>, pa: PhysAddr, e: Event)
    requires g.Valid() && end <= g.MaxBytes() && g.IsPageAddr(pa)
    requires Does(g, end, free, Deallocate(pa), e) && e.Gave?
    ensures e.pages == {g.PageOf(pa)} <==> g.PhysAddrAsIndices(pa).1 == 0
  {
    ClearedIsAsked(g, pa);
    assert Cleared(g, pa) in e.pages;
  }

  /** The pages that meet the range. */
  function Met(g: Geometry, range: PhysRange): set<nat>
    requires g.Valid() && range.end <= g.MaxBytes()
  {
    PagesIn(g, RoundDown(range.start, g.pageSize), RoundUp(range.end, g.pageSize))
  }

  method Perform(a: BitmapPageAlloc, op: Operation) returns (e: Event)
    requires a.Valid() && Admissible(a.g, a.end, op)
    modifies a
    ensures a.Valid() && a.end == old(a.end)
    ensures Effect(old(a.Free()), e, a.Free()) && Does(a.g, a.end, old(a.Free()), op, e)
  {
    match op
    case Allocate =>
      var r := a.Allocate();
      e := if r.Ok? then Took(a.g.PageOf(r.value)) else Failed;
    case Deallocate(pa) =>
      var r := a.Deallocate(pa);
      e := if r.Ok? then Gave({Cleared(a.g, pa)}) else Failed;
    case MarkFree(range) =>
      var r := a.MarkFree(range);
      e := if r.Ok? then Gave(Met(a.g, range)) else Failed;
    case MarkAllocated(range) =>
      var r := a.MarkAllocated(range);
      e := if r.Ok? then Reserved(Met(a.g, range)) else Failed;
  }

  /** Any sequence of operations: no page is handed out twice without being freed in between. */
  method PerformAll(a: BitmapPageAlloc, ops: seq<Operation>) returns (events: seq<Event>, ghost frees: seq<set<nat>>)
    requires a.Valid()
    requires forall i | 0 <= i < |ops| :: Admissible(a.g, a.end, ops[i])
    modifies a
    ensures a.Valid() && a.end == old(a.end) && |events| == |ops|
    ensures IsHistory(frees, events) && frees[0] == old(a.Free()) && frees[|ops|] == a.Free()
    ensures forall i | 0 <= i < |ops| :: Does(a.g, a.end, frees[i], ops[i], events[i])
    ensures forall i, j, p | 0 <= i < j < |events| && events[i] == Took(p) && events[j] == Took(p) ::
              exists k | i < k < j :: Frees(events[k], p)
  {
    events, frees := [], [a.Free()];
    for n := 0 to |ops|
      invariant a.Valid() && a.end == old(a.end) && |events| == n
      invariant IsHistory(frees, events) && frees[0] == old(a.Free()) && frees[n] == a.Free()
      invariant forall i | 0 <= i < n :: Does(a.g, a.end, frees[i], ops[i], events[i])
    {
      var e := Perform(a, ops[n]);
      HistoryStep(frees, events, e, a.Free());
      events := events + [e];
      frees := frees + [a.Free()];
    }
    forall i, j, p | 0 <= i < j < |events| && events[i] == Took(p) && events[j] == Took(p)
      ensures exists k | i < k < j :: Frees(events[k], p)
    {
      NotTakenTwice(frees, events, p, i, j);
    }
  }

  lemma HistoryStep(frees: seq<set<nat>>, events: seq<Event>, e: Event, free: set<nat>)
    requires IsHistory(frees, events) && Effect(frees[|events|], e, free)
    ensures IsHistory(frees + [free], events + [e])
  {
    var frees', events' := frees + [free], events + [e];
    forall i | 0 <= i < |events'|
      ensures Effect(frees'[i], events'[i], frees'[i + 1])
    {
      if i < |events| {
        assert Effect(frees[i], events[i], frees[i + 1]);
      }
    }
  }
}
