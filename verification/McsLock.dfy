/**
 The MCS queue lock (port/src/mcslock.rs) as an interleaving of atomic steps.

 Each load, store, swap and compare-exchange is one step, under sequential
 consistency.  A thread brings one node of its own to `lock`, so nodes and threads
 share their names.  The last three components of a state record its history
 and are read by no step.
 */
module McsLock {
  import opened Wrappers

  type Tid = nat

  datatype Node = Node(next: Option<Tid>, locked: bool)

  /** Where a thread is; each constructor but `Idle` and `Critical` names its next atomic operation. */
  datatype Pc =
    | Idle
    | ClearNext
    | ClearLocked
    | SwapQueue
    | SetLocked(pred: Tid)
    | LinkPred(pred: Tid)
    | SpinLocked
    | Critical
    | LoadNext
    | CasQueue
    | SpinNext
    | ReloadNext
    | StoreUnlocked(next: Option<Tid>)

  datatype State = State(
    queue: Option<Tid>,
    nodes: map<Tid, Node>,
    pc: map<Tid, Pc>,
    arrivals: seq<Tid>,  // threads in the order of their swaps on `queue`
    entries: seq<Tid>,   // threads in the order of their returns from `lock`
    released: nat)       // number of releasing steps

  predicate Init(s: State) {
    && s.queue == None && s.nodes.Keys == s.pc.Keys
    && (forall t | t in s.pc :: s.pc[t] == Idle)
    && s.arrivals == [] && s.entries == [] && s.released == 0
  }

  function At(s: State, t: Tid, pc: Pc): State {
    s.(pc := s.pc[t := pc])
  }

  function SetNode(s: State, t: Tid, n: Node): State {
    s.(nodes := s.nodes[t := n])
  }

  function Enter(s: State, t: Tid): State {
    At(s, t, Critical).(entries := s.entries + [t])
  }

  function Release(s: State, t: Tid): State {
    At(s, t, Idle).(released := s.released + 1)
  }

  /**
   One atomic step of thread `t`.  `spurious` makes the weak compare-exchange fail
   although the comparison would succeed.
   */
  function Exec(s: State, t: Tid, spurious: bool): State
    requires t in s.pc && t in s.nodes
  {
    match s.pc[t]
    case Idle => At(s, t, ClearNext)
    case ClearNext => At(SetNode(s, t, s.nodes[t].(next := None)), t, ClearLocked)
    case ClearLocked => At(SetNode(s, t, s.nodes[t].(locked := false)), t, SwapQueue)
    case SwapQueue =>
      var s' := s.(queue := Some(t), arrivals := s.arrivals + [t]);
      (match s.queue
       case None => Enter(s', t)
       case Some(pred) => At(s', t, SetLocked(pred)))
    case SetLocked(pred) => At(SetNode(s, t, s.nodes[t].(locked := true)), t, LinkPred(pred))
    case LinkPred(pred) =>
      if pred in s.nodes then At(SetNode(s, pred, s.nodes[pred].(next := Some(t))), t, SpinLocked) else s
    case SpinLocked => if s.nodes[t].locked then s else Enter(s, t)
    case Critical => At(s, t, LoadNext)
    case LoadNext => At(s, t, if s.nodes[t].next == None then CasQueue else ReloadNext)
    case CasQueue =>
      if s.queue == Some(t) && !spurious then Release(s.(queue := None), t) else At(s, t, SpinNext)
    case SpinNext => if s.nodes[t].next == None then s else At(s, t, ReloadNext)
    case ReloadNext => At(s, t, StoreUnlocked(s.nodes[t].next))
    case StoreUnlocked(next) =>
      if next.Some? && next.value in s.nodes then
        Release(SetNode(s, next.value, s.nodes[next.value].(locked := false)), t)
      else s
  }

  /** A run: the thread that moves at each step, and whether its compare-exchange fails spuriously. */
  datatype Move = Move(t: Tid, spurious: bool)

  function Step(s: State, m: Move): State {
    if m.t in s.pc && m.t in s.nodes then Exec(s, m.t, m.spurious) else s
  }

  function Run(s: State, moves: seq<Move>): State {
    if moves == [] then s else Step(Run(s, moves[..|moves| - 1]), moves[|moves| - 1])
  }

  // ----- the invariant

  /** The threads that have swapped themselves in and not yet released, in order. */
  function Waiters(s: State): seq<Tid>
    requires s.released <= |s.arrivals|
  {
    s.arrivals[s.released..]
  }

  predicate Queued(pc: Pc) {
    !(pc.Idle? || pc.ClearNext? || pc.ClearLocked? || pc.SwapQueue?)
  }

  /** Between returning from `lock` and the releasing step of `unlock`. */
  predicate Holds(pc: Pc) {
    Queued(pc) && !(pc.SetLocked? || pc.LinkPred? || pc.SpinLocked?)
  }

  /** `t` is queued directly behind `pred`: linked and told to wait, or about to be. */
  predicate Behind(s: State, pred: Tid, t: Tid) {
    && pred in s.nodes && t in s.nodes && t in s.pc
    && match s.pc[t]
       case SetLocked(p) => p == pred && s.nodes[pred].next == None
       case LinkPred(p) => p == pred && s.nodes[pred].next == None && s.nodes[t].locked
       case SpinLocked => s.nodes[pred].next == Some(t) && s.nodes[t].locked
       case _ => false
  }

  /** The head of the queue holds the lock or has been told that it may. */
  predicate Head(s: State, t: Tid) {
    && t in s.nodes && t in s.pc
    && match s.pc[t]
       case SpinLocked => !s.nodes[t].locked
       case ReloadNext => s.nodes[t].next.Some?
       case StoreUnlocked(n) => n.Some? && s.nodes[t].next == n
       case pc => Holds(pc)
  }

  predicate Distinct(q: seq<Tid>) {
    forall i, j | 0 <= i < j < |q| :: q[i] != q[j]
  }

  /** Exactly the queued threads are in the queue, once each, and `queue` points at the last. */
  ghost predicate Members(s: State)
    requires s.released <= |s.arrivals|
  {
    var q := Waiters(s);
    && s.pc.Keys == s.nodes.Keys
    && Distinct(q)
    && (forall t | t in s.pc :: Queued(s.pc[t]) <==> t in q)
    && (forall t | t in q :: t in s.pc)
    && s.queue == (if q == [] then None else Some(q[|q| - 1]))
  }

  /** Links of a queue: from the head on, each thread is behind the one before it, and the last has no next. */
  ghost predicate Linked(s: State, q: seq<Tid>) {
    && (q != [] ==> Head(s, q[0]) && q[|q| - 1] in s.nodes && s.nodes[q[|q| - 1]].next == None)
    && (forall i | 1 <= i < |q| :: Behind(s, q[i - 1], q[i]))
  }

  /** The nodes of the queue are linked from its head to its last, as far as the links are made. */
  ghost predicate Links(s: State)
    requires s.released <= |s.arrivals|
  {
    && Linked(s, Waiters(s))
    && (forall t | t in s.pc && (s.pc[t].ClearLocked? || s.pc[t].SwapQueue?) ::
          t in s.nodes && s.nodes[t].next == None)
  }

  /** The entries so far are the earliest arrivals. */
  ghost predicate History(s: State)
    requires s.released <= |s.arrivals|
  {
    var q := Waiters(s);
    && |s.entries| == s.released + (if q != [] && q[0] in s.pc && Holds(s.pc[q[0]]) then 1 else 0)
    && s.entries <= s.arrivals
  }

  ghost predicate Inv(s: State) {
    s.released <= |s.arrivals| && Members(s) && Links(s) && History(s)
  }

  lemma InitInv(s: State)
    requires Init(s)
    ensures Inv(s)
  {
  }

  /** Only the head of the queue can hold the lock. */
  lemma HolderIsHead(s: State, t: Tid)
    requires Inv(s) && t in s.pc && Holds(s.pc[t])
    ensures Waiters(s) != [] && t == Waiters(s)[0]
  {
    var q := Waiters(s);
    var i :| 0 <= i < |q| && q[i] == t;
    assert i > 0 ==> Behind(s, q[i - 1], q[i]);
  }

  /** A thread that has swapped in and not entered sits behind its predecessor. */
  lemma WaiterPosition(s: State, t: Tid) returns (i: nat)
    requires Inv(s) && t in s.pc && (s.pc[t].SetLocked? || s.pc[t].LinkPred?)
    ensures 1 <= i < |Waiters(s)| && Waiters(s)[i] == t && Behind(s, Waiters(s)[i - 1], t)
  {
    var q := Waiters(s);
    i :| 0 <= i < |q| && q[i] == t;
    assert i != 0;
    assert Behind(s, q[i - 1], q[i]);
  }

  /** A step of `t` that leaves the queue alone and keeps `t` on its side of it. */
  lemma SameMembers(s: State, s': State, t: Tid)
    requires Inv(s) && t in s.pc
    requires s'.arrivals == s.arrivals && s'.released == s.released && s'.queue == s.queue
    requires t in s'.pc && s'.pc == s.pc[t := s'.pc[t]] && Queued(s'.pc[t]) == Queued(s.pc[t])
    requires s'.nodes.Keys == s.nodes.Keys
    ensures Waiters(s') == Waiters(s) && Members(s')
  {
  }

  lemma DistinctTail(q: seq<Tid>)
    requires Distinct(q) && q != []
    ensures Distinct(q[1..])
    ensures forall u :: u in q[1..] <==> u in q && u != q[0]
  {
  }

  lemma DistinctSnoc(q: seq<Tid>, t: Tid)
    requires Distinct(q) && t !in q
    ensures Distinct(q + [t])
    ensures forall u :: u in q + [t] <==> u in q || u == t
  {
  }

  /** A step that takes `t`, the head, out of the queue. */
  lemma PopMembers(s: State, s': State, t: Tid)
    requires s.released <= |s.arrivals| && Members(s) && Waiters(s) != [] && Waiters(s)[0] == t
    requires s'.arrivals == s.arrivals && s'.released == s.released + 1
    requires s'.queue == if |Waiters(s)| == 1 then None else s.queue
    requires s'.pc == s.pc[t := Idle] && s'.nodes.Keys == s.nodes.Keys
    ensures Waiters(s') == Waiters(s)[1..] && Members(s')
  {
    assert Waiters(s') == Waiters(s)[1..];
    DistinctTail(Waiters(s));
  }

  /** A step that puts `t` at the end of the queue. */
  lemma PushMembers(s: State, s': State, t: Tid)
    requires s.released <= |s.arrivals| && Members(s) && t in s.pc && !Queued(s.pc[t])
    requires s'.arrivals == s.arrivals + [t] && s'.released == s.released && s'.queue == Some(t)
    requires t in s'.pc && s'.pc == s.pc[t := s'.pc[t]] && Queued(s'.pc[t]) && s'.nodes == s.nodes
    ensures Waiters(s') == Waiters(s) + [t] && Members(s')
  {
    assert Waiters(s') == Waiters(s) + [t];
    DistinctSnoc(Waiters(s), t);
  }

  lemma ArriveInv(s: State, t: Tid, spurious: bool)
    requires Inv(s) && t in s.pc && (s.pc[t].Idle? || s.pc[t].ClearNext? || s.pc[t].ClearLocked?)
    ensures Inv(Exec(s, t, spurious))
  {
    var q := Waiters(s);
    assert t !in q;
    var s' := Exec(s, t, spurious);
    SameMembers(s, s', t);
    forall i | 1 <= i < |q|
      ensures Behind(s', q[i - 1], q[i])
    {
      assert Behind(s, q[i - 1], q[i]);
    }
  }

  lemma LinkedPush(s: State, s': State, q: seq<Tid>, t: Tid)
    requires Linked(s, q) && t !in q && t in s.nodes && s.nodes[t].next == None
    requires s'.nodes == s.nodes && s'.pc == s.pc[t := if q == [] then Critical else SetLocked(q[|q| - 1])]
    ensures Linked(s', q + [t])
  {
    var q' := q + [t];
    forall i | 1 <= i < |q'|
      ensures Behind(s', q'[i - 1], q'[i])
    {
      if i < |q| {
        assert Behind(s, q[i - 1], q[i]);
      }
    }
  }

  lemma LinkedPop(s: State, s': State, q: seq<Tid>)
    requires Linked(s, q) && Distinct(q) && |q| >= 2
    requires q[0] in s.pc && q[1] in s.pc && s.pc[q[1]] == SpinLocked
    requires s'.nodes == s.nodes[q[1] := s.nodes[q[1]].(locked := false)] && s'.pc == s.pc[q[0] := Idle]
    ensures Linked(s', q[1..])
  {
    var q' := q[1..];
    forall i | 1 <= i < |q'|
      ensures Behind(s', q'[i - 1], q'[i])
    {
      assert q'[i - 1] == q[i] && q'[i] == q[i + 1];
      assert Behind(s, q[i], q[i + 1]);
    }
  }

  lemma SwapInv(s: State, t: Tid, spurious: bool)
    requires Inv(s) && t in s.pc && s.pc[t].SwapQueue?
    ensures Inv(Exec(s, t, spurious))
  {
    var s' := Exec(s, t, spurious);
    SwapEffect(s, t, spurious);
    PushMembers(s, s', t);
    LinkedPush(s, s', Waiters(s), t);
    SwapHistory(s, s', t);
  }

  lemma SwapHistory(s: State, s': State, t: Tid)
    requires s.released <= |s.arrivals| && History(s)
    requires var q := Waiters(s);
             && t !in q
             && s'.pc == s.pc[t := if q == [] then Critical else SetLocked(q[|q| - 1])]
             && s'.arrivals == s.arrivals + [t] && s'.released == s.released
             && s'.entries == if q == [] then s.entries + [t] else s.entries
    ensures History(s')
  {
    assert Waiters(s') == Waiters(s) + [t];
  }

  lemma SwapEffect(s: State, t: Tid, spurious: bool)
    requires Inv(s) && t in s.pc && s.pc[t].SwapQueue?
    ensures var q, s' := Waiters(s), Exec(s, t, spurious);
            && t !in q && s'.queue == Some(t)
            && s'.pc == s.pc[t := if q == [] then Critical else SetLocked(q[|q| - 1])]
            && s'.nodes == s.nodes && s'.arrivals == s.arrivals + [t] && s'.released == s.released
            && s'.entries == if q == [] then s.entries + [t] else s.entries
  {
  }

  lemma SetLockedInv(s: State, t: Tid, spurious: bool)
    requires Inv(s) && t in s.pc && s.pc[t].SetLocked?
    ensures Inv(Exec(s, t, spurious))
  {
    var q := Waiters(s);
    var k := WaiterPosition(s, t);
    var s' := Exec(s, t, spurious);
    SameMembers(s, s', t);
    forall i | 1 <= i < |q|
      ensures Behind(s', q[i - 1], q[i])
    {
      assert Behind(s, q[i - 1], q[i]);
    }
  }

  lemma LinkPredInv(s: State, t: Tid, spurious: bool)
    requires Inv(s) && t in s.pc && s.pc[t].LinkPred?
    ensures Inv(Exec(s, t, spurious))
  {
    var q := Waiters(s);
    var k := WaiterPosition(s, t);
    var s' := Exec(s, t, spurious);
    var p := q[k - 1];
    SameMembers(s, s', t);
    forall i | 1 <= i < |q|
      ensures Behind(s', q[i - 1], q[i])
    {
      assert Behind(s, q[i - 1], q[i]);
      assert i != k ==> q[i] != t && q[i - 1] != p;
    }
    assert Links(s') by {
      assert q[0] != t && q[|q| - 1] != p;
      assert Queued(s.pc[p]);
    }
  }

  lemma SpinLockedInv(s: State, t: Tid, spurious: bool)
    requires Inv(s) && t in s.pc && s.pc[t].SpinLocked?
    ensures Inv(Exec(s, t, spurious))
  {
    if !s.nodes[t].locked {
      var q := Waiters(s);
      var k :| 0 <= k < |q| && q[k] == t;
      assert k > 0 ==> Behind(s, q[k - 1], q[k]);
      var s' := Exec(s, t, spurious);
      SameMembers(s, s', t);
      BehindHead(s, s', t);
      assert s'.entries <= s'.arrivals by {
        assert s.arrivals[s.released] == t;
      }
    }
  }

  /** The links behind the head survive a step that moves the head and writes no node. */
  lemma BehindHead(s: State, s': State, t: Tid)
    requires Inv(s) && Waiters(s) != [] && t == Waiters(s)[0]
    requires s'.arrivals == s.arrivals && s'.released == s.released
    requires t in s'.pc && s'.pc == s.pc[t := s'.pc[t]] && s'.nodes == s.nodes
    ensures var q := Waiters(s'); forall i | 1 <= i < |q| :: Behind(s', q[i - 1], q[i])
  {
    var q := Waiters(s);
    forall i | 1 <= i < |q|
      ensures Behind(s', q[i - 1], q[i])
    {
      assert Behind(s, q[i - 1], q[i]);
    }
  }

  /** The steps of `unlock` that neither release nor write. */
  lemma UnlockReadInv(s: State, t: Tid, spurious: bool)
    requires Inv(s) && t in s.pc && Holds(s.pc[t]) && !s.pc[t].StoreUnlocked?
    requires s.pc[t].CasQueue? ==> s.queue != Some(t) || spurious
    ensures Inv(Exec(s, t, spurious))
  {
    HolderIsHead(s, t);
    var s' := Exec(s, t, spurious);
    SameMembers(s, s', t);
    BehindHead(s, s', t);
    HeadReads(s, t, spurious);
    HeadHistory(s, s', t);
  }

  lemma HeadReads(s: State, t: Tid, spurious: bool)
    requires t in s.pc && t in s.nodes && Head(s, t) && Holds(s.pc[t]) && !s.pc[t].StoreUnlocked?
    requires s.pc[t].CasQueue? ==> s.queue != Some(t) || spurious
    ensures var s' := Exec(s, t, spurious); Head(s', t) && Holds(s'.pc[t])
  {
  }

  /** While the head keeps the lock, nobody enters. */
  lemma HeadHistory(s: State, s': State, t: Tid)
    requires s.released <= |s.arrivals| && History(s) && Waiters(s) != [] && t == Waiters(s)[0]
    requires s'.arrivals == s.arrivals && s'.released == s.released && s'.entries == s.entries
    requires t in s.pc && t in s'.pc && Holds(s.pc[t]) && Holds(s'.pc[t])
    ensures History(s')
  {
  }

  lemma CasInv(s: State, t: Tid)
    requires Inv(s) && t in s.pc && s.pc[t].CasQueue? && s.queue == Some(t)
    ensures Inv(Exec(s, t, false))
  {
    var q := Waiters(s);
    HolderIsHead(s, t);
    assert q == [t];
    assert Waiters(Exec(s, t, false)) == [];
  }

  /** The releasing store always has a successor to wake, and that successor is spinning. */
  lemma SuccessorWaits(s: State, t: Tid)
    requires Inv(s) && t in s.pc && s.pc[t].StoreUnlocked?
    ensures |Waiters(s)| >= 2 && t == Waiters(s)[0]
    ensures s.pc[t].next == Some(Waiters(s)[1]) && s.pc[Waiters(s)[1]] == SpinLocked
    ensures s.nodes[Waiters(s)[0]].next == Some(Waiters(s)[1])
  {
    var q := Waiters(s);
    HolderIsHead(s, t);
    assert Head(s, t);
    assert |q| >= 2;
    assert Behind(s, q[0], q[1]);
  }

  lemma HandOverInv(s: State, t: Tid, spurious: bool)
    requires Inv(s) && t in s.pc && s.pc[t].StoreUnlocked?
    ensures Inv(Exec(s, t, spurious))
  {
    SuccessorWaits(s, t);
    var s' := Exec(s, t, spurious);
    PopMembers(s, s', t);
    LinkedPop(s, s', Waiters(s));
    PopHistory(s, s', t);
  }

  /** A release passes the turn to a thread that has not entered yet. */
  lemma PopHistory(s: State, s': State, t: Tid)
    requires s.released < |s.arrivals| && History(s) && t == Waiters(s)[0] && t in s.pc && Holds(s.pc[t])
    requires s'.arrivals == s.arrivals && s'.released == s.released + 1 && s'.entries == s.entries
    requires |Waiters(s)| >= 2 && Waiters(s)[1] in s'.pc && !Holds(s'.pc[Waiters(s)[1]])
    ensures History(s')
  {
    assert Waiters(s') == Waiters(s)[1..];
  }

  /** Every atomic step, of any thread, keeps the invariant. */
  lemma ExecInv(s: State, t: Tid, spurious: bool)
    requires Inv(s) && t in s.pc
    ensures Inv(Exec(s, t, spurious))
  {
    match s.pc[t] {
      case Idle => ArriveInv(s, t, spurious);
      case ClearNext => ArriveInv(s, t, spurious);
      case ClearLocked => ArriveInv(s, t, spurious);
      case SwapQueue => SwapInv(s, t, spurious);
      case SetLocked(_) => SetLockedInv(s, t, spurious);
      case LinkPred(_) => LinkPredInv(s, t, spurious);
      case SpinLocked => SpinLockedInv(s, t, spurious);
      case StoreUnlocked(_) => HandOverInv(s, t, spurious);
      case CasQueue =>
        if s.queue == Some(t) && !spurious {
          CasInv(s, t);
        } else {
          UnlockReadInv(s, t, spurious);
        }
      case _ => UnlockReadInv(s, t, spurious);
    }
  }

  lemma {:induction false} RunInv(s: State, moves: seq<Move>)
    requires Inv(s)
    ensures Inv(Run(s, moves))
  {
    if moves != [] {
      RunInv(s, moves[..|moves| - 1]);
      var m := moves[|moves| - 1];
      var s' := Run(s, moves[..|moves| - 1]);
      if m.t in s'.pc {
        ExecInv(s', m.t, m.spurious);
      }
    }
  }

  // ----- safety over every run

  /** At most one thread is between its return from `lock` and the releasing step of its `unlock`. */
  lemma MutualExclusion(s: State, moves: seq<Move>, t: Tid, u: Tid)
    requires Init(s)
    ensures var s' := Run(s, moves);
            t in s'.pc && u in s'.pc && Holds(s'.pc[t]) && Holds(s'.pc[u]) ==> t == u
  {
    InitInv(s);
    RunInv(s, moves);
    var s' := Run(s, moves);
    if t in s'.pc && u in s'.pc && Holds(s'.pc[t]) && Holds(s'.pc[u]) {
      HolderIsHead(s', t);
      HolderIsHead(s', u);
    }
  }

  lemma {:induction false} ArrivalsGrow(s: State, moves: seq<Move>, n: nat)
    requires n <= |moves|
    ensures Run(s, moves[..n]).arrivals <= Run(s, moves).arrivals
    decreases |moves| - n
  {
    if n == |moves| {
      assert moves[..n] == moves;
    } else {
      ArrivalsGrow(s, moves, n + 1);
      assert moves[..n + 1][..n] == moves[..n];
    }
  }

  /**
   First come, first served: the thread whose swap is step `n` of a run, with
   `ahead` nodes queued before its own and `done` threads already released, is the
   one whose entry has exactly `done + ahead` entries before it.
   */
  lemma EntryOrderIsSwapOrder(s: State, moves: seq<Move>, n: nat)
    requires Init(s) && n < |moves|
    requires var s0 := Run(s, moves[..n]); moves[n].t in s0.pc && s0.pc[moves[n].t] == SwapQueue
    ensures var s0, s' := Run(s, moves[..n]), Run(s, moves);
            && Inv(s0) && Inv(s')
            && s'.entries <= s'.arrivals
            && var place := s0.released + |Waiters(s0)|;
               && (forall i | 0 <= i < place && i < |s'.entries| :: s'.entries[i] == s0.arrivals[i])
               && (place < |s'.entries| ==> s'.entries[place] == moves[n].t)
  {
    var s0, s' := Run(s, moves[..n]), Run(s, moves);
    InitInv(s);
    RunInv(s, moves[..n]);
    RunInv(s, moves);
    SwapArrives(s, moves, n);
    assert s0.arrivals + [moves[n].t] <= s'.arrivals;
  }

  /** The thread that swaps at step `n` stays in its place among the arrivals. */
  lemma SwapArrives(s: State, moves: seq<Move>, n: nat)
    requires n < |moves|
    requires var s0 := Run(s, moves[..n]);
             moves[n].t in s0.pc && moves[n].t in s0.nodes && s0.pc[moves[n].t] == SwapQueue
    ensures Run(s, moves[..n]).arrivals + [moves[n].t] <= Run(s, moves).arrivals
  {
    assert moves[..n + 1][..n] == moves[..n];
    ArrivalsGrow(s, moves, n + 1);
  }

  // ----- which nodes a step touches

  /** The node written by the next step of `t`, if any. */
  function Written(s: State, t: Tid): Option<Tid>
    requires t in s.pc
  {
    match s.pc[t]
    case ClearNext => Some(t)
    case ClearLocked => Some(t)
    case SetLocked(_) => Some(t)
    case LinkPred(pred) => Some(pred)
    case StoreUnlocked(next) => next
    case _ => None
  }

  /**
   No step writes a node whose owner has returned from `unlock`: a thread's own node aside,
   the owner of a node that is written is queued and has not released.
   */
  lemma WritesLiveNodesOnly(s: State, moves: seq<Move>, t: Tid, spurious: bool)
    requires Init(s)
    ensures var s0 := Run(s, moves);
            t in s0.pc ==>
              && t in s0.nodes
              && (Written(s0, t).Some? ==> Written(s0, t).value in s0.pc && s0.pc[Written(s0, t).value] != Idle)
              && (Written(s0, t).Some? && Written(s0, t).value != t ==> Queued(s0.pc[Written(s0, t).value]))
              && (forall n | n in s0.nodes && Written(s0, t) != Some(n) ::
                    n in Exec(s0, t, spurious).nodes && Exec(s0, t, spurious).nodes[n] == s0.nodes[n])
  {
    InitInv(s);
    RunInv(s, moves);
    var s0 := Run(s, moves);
    if t in s0.pc {
      match s0.pc[t] {
        case LinkPred(_) =>
          var k := WaiterPosition(s0, t);
          assert Queued(s0.pc[Waiters(s0)[k - 1]]);
        case StoreUnlocked(_) =>
          SuccessorWaits(s0, t);
        case _ =>
      }
    }
  }

  // ----- progress

  /** `t` has a step that is not a failed turn of a spin loop. */
  predicate CanMove(s: State, t: Tid)
    requires t in s.pc && t in s.nodes
  {
    Exec(s, t, false) != s
  }

  /** A releaser whose weak compare-exchange failed although it is alone in the queue. */
  predicate LoneSpinner(s: State)
    requires s.released <= |s.arrivals|
  {
    var q := Waiters(s);
    |q| == 1 && q[0] in s.pc && s.pc[q[0]] == SpinNext
  }

  /**
   In every reachable state with a queue, some queued thread can move, unless the one in it
   spins after a lost compare-exchange.
   */
  lemma NoLostWakeup(s: State, moves: seq<Move>)
    requires Init(s)
    ensures var s' := Run(s, moves);
            && Inv(s')
            && var q := Waiters(s');
               (exists i | 0 <= i < |q| :: CanMove(s', q[i])) <==> q != [] && !LoneSpinner(s')
  {
    InitInv(s);
    RunInv(s, moves);
    var s' := Run(s, moves);
    var q := Waiters(s');
    if q != [] && !LoneSpinner(s') {
      if |q| >= 2 {
        assert Behind(s', q[0], q[1]);
        assert CanMove(s', q[0]) || CanMove(s', q[1]);
      } else {
        assert CanMove(s', q[0]);
      }
    }
  }

  /** Thread `t` alone in the system at `pc`, having arrived and entered if `inside`. */
  function Alone(t: Tid, n: Node, pc: Pc, inside: bool): State {
    State(if inside then Some(t) else None, map[t := n], map[t := pc],
          if inside then [t] else [], if inside then [t] else [], 0)
  }

  /** The lone spinner is reachable: one thread locks, unlocks, and its CAS fails spuriously. */
  lemma LoneSpinnerReachable(t: Tid, n: Node)
    ensures var s := Alone(t, n, Idle, false);
            Init(s) && exists moves :: Run(s, moves).released <= |Run(s, moves).arrivals| && LoneSpinner(Run(s, moves))
  {
    var s, clear := Alone(t, n, Idle, false), Node(None, false);
    var m3 := ThreeSteps(s, [], t, false);
    AloneArrives(t, n);
    var m6 := ThreeSteps(s, m3, t, false);
    AloneEnters(t);
    var m7 := RunStep(s, m6, t, true);
    assert Run(s, m7) == Exec(Alone(t, clear, CasQueue, true), t, true);
    AloneFails(t);
  }

  lemma AloneArrives(t: Tid, n: Node)
    ensures var s1 := Exec(Alone(t, n, Idle, false), t, false);
            && t in s1.pc && t in s1.nodes
            && var s2 := Exec(s1, t, false);
            && t in s2.pc && t in s2.nodes
            && Exec(s2, t, false) == Alone(t, Node(None, false), SwapQueue, false)
  {
  }

  lemma AloneEnters(t: Tid)
    ensures var s1 := Exec(Alone(t, Node(None, false), SwapQueue, false), t, false);
            && t in s1.pc && t in s1.nodes
            && var s2 := Exec(s1, t, false);
            && t in s2.pc && t in s2.nodes
            && Exec(s2, t, false) == Alone(t, Node(None, false), CasQueue, true)
  {
  }

  lemma AloneFails(t: Tid)
    ensures var s' := Exec(Alone(t, Node(None, false), CasQueue, true), t, true);
            s'.released <= |s'.arrivals| && LoneSpinner(s')
  {
    assert Waiters(Exec(Alone(t, Node(None, false), CasQueue, true), t, true)) == [t];
  }

  lemma ThreeSteps(s: State, moves: seq<Move>, t: Tid, spurious: bool) returns (moves': seq<Move>)
    requires var s0 := Run(s, moves); t in s0.pc && s0.nodes.Keys == s0.pc.Keys == {t}
    ensures var s0 := Run(s, moves);
            var s1 := Exec(s0, t, spurious);
            && t in s1.pc && t in s1.nodes
            && var s2 := Exec(s1, t, spurious);
            && t in s2.pc && t in s2.nodes
            && Run(s, moves') == Exec(s2, t, spurious)
  {
    var m1 := RunStep(s, moves, t, spurious);
    ExecFrame(Run(s, moves), t, spurious);
    var m2 := RunStep(s, m1, t, spurious);
    ExecFrame(Run(s, m1), t, spurious);
    moves' := RunStep(s, m2, t, spurious);
  }

  /** A step moves only its own thread and keeps the set of threads. */
  lemma ExecFrame(s: State, t: Tid, spurious: bool)
    requires t in s.pc && t in s.nodes
    ensures var s' := Exec(s, t, spurious);
            && t in s'.pc && s'.pc == s.pc[t := s'.pc[t]] && s'.nodes.Keys == s.nodes.Keys
            && (s'.arrivals == if s.pc[t].SwapQueue? then s.arrivals + [t] else s.arrivals)
  {
  }

  lemma RunStep(s: State, moves: seq<Move>, t: Tid, spurious: bool) returns (moves': seq<Move>)
    ensures var s0 := Run(s, moves);
            Run(s, moves') == if t in s0.pc && t in s0.nodes then Exec(s0, t, spurious) else s0
  {
    moves' := moves + [Move(t, spurious)];
    assert moves'[..|moves|] == moves;
  }

  // ----- what `lock` and `unlock` do, move by move

  /** `n` moves of `t`, none of them failing spuriously. */
  function Turns(t: Tid, n: nat): seq<Move> {
    seq(n, _ => Move(t, false))
  }

  lemma TurnsNext(s: State, t: Tid, n: nat)
    ensures Run(s, Turns(t, n + 1)) == Step(Run(s, Turns(t, n)), Move(t, false))
  {
    assert Turns(t, n + 1)[..n] == Turns(t, n);
  }

  /** The lock is free: nobody is queued and the next to come will enter. */
  predicate IsFree(s: State) {
    s.released == |s.arrivals| && s.queue == None
  }

  /** The compare-exchange releases the lock exactly when it does not fail spuriously and nobody else is queued. */
  lemma CasReleases(s: State, t: Tid, spurious: bool)
    requires Inv(s) && t in s.pc && s.pc[t].CasQueue?
    ensures var s' := Exec(s, t, spurious);
            && (s'.released == s.released + 1 <==> !spurious && Waiters(s) == [t])
            && (!spurious && Waiters(s) == [t] ==> IsFree(s') && t in s'.pc && s'.pc[t] == Idle)
  {
    HolderIsHead(s, t);
    var q := Waiters(s);
    if s.queue == Some(t) {
      assert q[0] == q[|q| - 1];
      assert q == [t];
    }
  }

  /** Three moves of a holder that nobody waits behind leave the lock free. */
  lemma LoneUnlock(s: State, t: Tid)
    requires Inv(s) && Waiters(s) == [t] && t in s.pc && s.pc[t] == Critical
    ensures var s' := Run(s, Turns(t, 3));
            IsFree(s') && s'.released == s.released + 1 && t in s'.pc && s'.pc[t] == Idle
  {
    TurnsNext(s, t, 0);
    TurnsNext(s, t, 1);
    TurnsNext(s, t, 2);
    ExecInv(s, t, false);
    var s1 := Exec(s, t, false);
    ExecInv(s1, t, false);
    var s2 := Exec(s1, t, false);
    assert s2.pc[t] == CasQueue;
    CasReleases(s2, t, false);
  }

  lemma {:induction false} TurnsThen(s: State, t: Tid, m: nat, n: nat)
    ensures Run(s, Turns(t, m + n)) == Run(Run(s, Turns(t, m)), Turns(t, n))
    decreases n
  {
    if n > 0 {
      TurnsThen(s, t, m, n - 1);
      TurnsNext(s, t, m + (n - 1));
      TurnsNext(Run(s, Turns(t, m)), t, n - 1);
    }
  }

  /** The moves of `lock` before its swap clear the thread's own node. */
  lemma ArriveTurns(s: State, t: Tid)
    requires t in s.pc && t in s.nodes && s.pc[t] == Idle
    ensures Run(s, Turns(t, 3)) == s.(nodes := s.nodes[t := Node(None, false)], pc := s.pc[t := SwapQueue])
  {
    var n := s.nodes[t].(next := None);
    var s1 := s.(pc := s.pc[t := ClearNext]);
    var s2 := s.(pc := s.pc[t := ClearLocked], nodes := s.nodes[t := n]);
    Overwritten(s.pc, t, ClearNext, ClearLocked);
    TwoTurns(s, t, s1, s2);
    ClearedLast(s, t, n);
    TurnsNext(s, t, 2);
  }

  lemma ClearedLast(s: State, t: Tid, n: Node)
    requires t in s.pc && t in s.nodes && n.next == None
    ensures Step(s.(pc := s.pc[t := ClearLocked], nodes := s.nodes[t := n]), Move(t, false)) ==
            s.(nodes := s.nodes[t := Node(None, false)], pc := s.pc[t := SwapQueue])
  {
    Overwritten(s.pc, t, ClearLocked, SwapQueue);
    assert s.nodes[t := n][t := Node(None, false)] == s.nodes[t := Node(None, false)];
  }

  lemma TwoTurns(s: State, t: Tid, s1: State, s2: State)
    requires Step(s, Move(t, false)) == s1 && Step(s1, Move(t, false)) == s2
    ensures Run(s, Turns(t, 2)) == s2
  {
    TurnsNext(s, t, 0);
    TurnsNext(s, t, 1);
  }

  /** The swap and the moves after it, with somebody queued. */
  lemma QueueTurns(s: State, t: Tid, pred: Tid)
    requires t in s.pc && t in s.nodes && s.pc[t] == SwapQueue
    requires s.queue == Some(pred) && pred in s.nodes && pred != t
    ensures Run(s, Turns(t, 3)) ==
            s.(queue := Some(t), arrivals := s.arrivals + [t], pc := s.pc[t := SpinLocked],
               nodes := s.nodes[t := s.nodes[t].(locked := true)][pred := s.nodes[pred].(next := Some(t))])
  {
    var s0 := s.(queue := Some(t), arrivals := s.arrivals + [t]);
    var s1 := s0.(pc := s.pc[t := SetLocked(pred)]);
    SetTurn(s0, t, pred);
    TwoTurns(s, t, s1, Step(s1, Move(t, false)));
    LinkTurn(s0, t, pred);
    TurnsNext(s, t, 2);
  }

  lemma SetTurn(s: State, t: Tid, pred: Tid)
    requires t in s.pc && t in s.nodes
    ensures Step(s.(pc := s.pc[t := SetLocked(pred)]), Move(t, false)) ==
            s.(pc := s.pc[t := LinkPred(pred)], nodes := s.nodes[t := s.nodes[t].(locked := true)])
  {
    Overwritten(s.pc, t, SetLocked(pred), LinkPred(pred));
  }

  lemma LinkTurn(s: State, t: Tid, pred: Tid)
    requires t in s.pc && t in s.nodes && pred in s.nodes && pred != t
    ensures var nodes := s.nodes[t := s.nodes[t].(locked := true)];
            Step(s.(pc := s.pc[t := LinkPred(pred)], nodes := nodes), Move(t, false)) ==
            s.(pc := s.pc[t := SpinLocked], nodes := nodes[pred := s.nodes[pred].(next := Some(t))])
  {
    Overwritten(s.pc, t, LinkPred(pred), SpinLocked);
  }

  /** Four moves of `unlock` with a waiter linked. */
  lemma UnlockTurns(s: State, t: Tid, u: Tid)
    requires t in s.pc && t in s.nodes && s.pc[t] == Critical && s.nodes[t].next == Some(u) && u in s.nodes
    ensures Run(s, Turns(t, 4)) ==
            s.(pc := s.pc[t := Idle], released := s.released + 1,
               nodes := s.nodes[u := s.nodes[u].(locked := false)])
  {
    TurnsThen(s, t, 2, 2);
    LoadTurns(s, t);
    Overwritten(s.pc, t, ReloadNext, Idle);
    ReleaseTurns(s.(pc := s.pc[t := ReloadNext]), t, u);
  }

  lemma LoadTurns(s: State, t: Tid)
    requires t in s.pc && t in s.nodes && s.pc[t] == Critical && s.nodes[t].next.Some?
    ensures Run(s, Turns(t, 2)) == s.(pc := s.pc[t := ReloadNext])
  {
    var s1 := s.(pc := s.pc[t := LoadNext]);
    Overwritten(s.pc, t, LoadNext, ReloadNext);
    TwoTurns(s, t, s1, Exec(s1, t, false));
  }

  lemma Overwritten(pc: map<Tid, Pc>, t: Tid, a: Pc, b: Pc)
    ensures pc[t := a][t := b] == pc[t := b]
  {
  }

  lemma ReleaseTurns(s: State, t: Tid, u: Tid)
    requires t in s.pc && t in s.nodes && s.pc[t] == ReloadNext && s.nodes[t].next == Some(u) && u in s.nodes
    ensures Run(s, Turns(t, 2)) ==
            s.(pc := s.pc[t := Idle], released := s.released + 1,
               nodes := s.nodes[u := s.nodes[u].(locked := false)])
  {
    var s1 := s.(pc := s.pc[t := StoreUnlocked(Some(u))]);
    Overwritten(s.pc, t, StoreUnlocked(Some(u)), Idle);
    TwoTurns(s, t, s1, Exec(s1, t, false));
  }

  /** Four moves take a free lock. */
  lemma LoneLock(s: State, t: Tid)
    requires Inv(s) && IsFree(s) && t in s.pc && s.pc[t] == Idle
    ensures var s' := Run(s, Turns(t, 4));
            && Inv(s') && Waiters(s') == [t] && t in s'.pc && s'.pc[t] == Critical
            && s'.released == s.released && s'.entries == s.entries + [t]
  {
    ArriveTurns(s, t);
    TurnsNext(s, t, 3);
    RunInv(s, Turns(t, 4));
  }

  /** Four moves of a holder with a waiter linked behind it let that waiter in at its next move. */
  lemma LinkedUnlock(s: State, t: Tid, u: Tid)
    requires Inv(s) && FirstTwo(s, t, u) && s.pc[t] == Critical && s.pc[u] == SpinLocked
    ensures var s' := Run(s, Turns(t, 4));
            && s'.released == s.released + 1 && t in s'.pc && s'.pc[t] == Idle
            && u in s'.pc && u in s'.nodes && s'.pc[u] == SpinLocked
            && var s2 := Exec(s', u, false);
               u in s2.pc && s2.pc[u] == Critical && s2.entries == s.entries + [u]
  {
    var q := Waiters(s);
    assert Behind(s, q[0], q[1]);
    UnlockTurns(s, t, u);
  }

  /** Six moves put a thread behind the last one in the queue, linked to it and waiting. */
  lemma LockQueues(s: State, t: Tid)
    requires Inv(s) && Waiters(s) != [] && t in s.pc && s.pc[t] == Idle
    ensures var q, s' := Waiters(s), Run(s, Turns(t, 6));
            && Inv(s') && Waiters(s') == q + [t] && t in s'.pc && s'.pc[t] == SpinLocked && s'.entries == s.entries
            && q[|q| - 1] in s'.nodes && s'.nodes[q[|q| - 1]].next == Some(t)
            && t in s'.nodes && s'.nodes[t].locked
  {
    var q := Waiters(s);
    var pred := q[|q| - 1];
    assert pred in q && t !in q;
    JoinTurns(s, t, pred);
    RunInv(s, Turns(t, 6));
    assert Waiters(Run(s, Turns(t, 6))) == q + [t];
  }

  lemma JoinTurns(s: State, t: Tid, pred: Tid)
    requires t in s.pc && t in s.nodes && s.pc[t] == Idle && s.queue == Some(pred) && pred in s.nodes && pred != t
    ensures var s' := Run(s, Turns(t, 6));
            && s'.arrivals == s.arrivals + [t] && s'.released == s.released && s'.entries == s.entries
            && t in s'.pc && s'.pc[t] == SpinLocked
            && t in s'.nodes && s'.nodes[t].locked && pred in s'.nodes && s'.nodes[pred].next == Some(t)
  {
    TurnsThen(s, t, 3, 3);
    ArriveTurns(s, t);
    QueueTurns(Run(s, Turns(t, 3)), t, pred);
  }

  /** The number of steps left before the holder's releasing store. */
  function HolderRank(pc: Pc): nat {
    match pc
    case SpinLocked => 7
    case Critical => 6
    case LoadNext => 5
    case CasQueue => 4
    case SpinNext => 3
    case ReloadNext => 2
    case _ => 1
  }

  /** The number of steps left before the next thread has linked itself behind the holder. */
  function NextRank(pc: Pc): nat {
    match pc
    case SetLocked(_) => 2
    case LinkPred(_) => 1
    case _ => 0
  }

  /** How far the head `a` and the thread `b` behind it are from handing the lock over. */
  function Distance(s: State, a: Tid, b: Tid): nat
    requires a in s.pc && b in s.pc
  {
    HolderRank(s.pc[a]) + NextRank(s.pc[b])
  }

  /** With two or more threads queued, one of the first two can move. */
  lemma FirstTwoCanMove(s: State)
    requires Inv(s) && |Waiters(s)| >= 2
    ensures CanMove(s, Waiters(s)[0]) || CanMove(s, Waiters(s)[1])
  {
    var q := Waiters(s);
    assert Head(s, q[0]);
    assert Behind(s, q[0], q[1]);
  }

  /** The release is the head's own step, and it lets the next thread in. */
  lemma ReleaseWakesNext(s: State, t: Tid, spurious: bool)
    requires Inv(s) && t in s.pc && |Waiters(s)| >= 2
    requires Exec(s, t, spurious).released != s.released
    ensures var q, s' := Waiters(s), Exec(s, t, spurious);
            && t == q[0] && s'.released == s.released + 1
            && q[1] in s'.pc && q[1] in s'.nodes && s'.pc[q[1]] == SpinLocked && !s'.nodes[q[1]].locked
  {
    HolderIsHead(s, t);
    if s.pc[t].StoreUnlocked? {
      SuccessorWaits(s, t);
    }
  }

  lemma HolderApproaches(s: State, t: Tid, spurious: bool)
    requires Head(s, t)
    requires var s' := Exec(s, t, spurious); s' != s && s'.released == s.released
    ensures var s' := Exec(s, t, spurious); t in s'.pc && HolderRank(s'.pc[t]) < HolderRank(s.pc[t])
  {
  }

  lemma NextApproaches(s: State, pred: Tid, t: Tid, spurious: bool)
    requires Behind(s, pred, t)
    requires Exec(s, t, spurious) != s
    ensures var s' := Exec(s, t, spurious); t in s'.pc && NextRank(s'.pc[t]) < NextRank(s.pc[t])
  {
  }

  /**
   Until the release, each move of the first two threads brings it closer, and no
   move of another thread delays it.
   */
  lemma ReleaseApproaches(s: State, t: Tid, spurious: bool)
    requires Inv(s) && t in s.pc && |Waiters(s)| >= 2
    requires Exec(s, t, spurious).released == s.released
    ensures var q, s' := Waiters(s), Exec(s, t, spurious);
            && q[0] in s'.pc && q[1] in s'.pc
            && s'.released <= |s'.arrivals| && q <= Waiters(s')
            && Distance(s', q[0], q[1]) <= Distance(s, q[0], q[1])
            && (t in q[..2] && s' != s ==> Distance(s', q[0], q[1]) < Distance(s, q[0], q[1]))
  {
    var q, s' := Waiters(s), Exec(s, t, spurious);
    ExecFrame(s, t, spurious);
    assert Waiters(s') == if s.pc[t].SwapQueue? then q + [t] else q;
    assert q[..2] == [q[0], q[1]] && q[0] != q[1];
    assert Behind(s, q[0], q[1]);
    if s' != s && t == q[0] {
      HolderApproaches(s, t, spurious);
    } else if s' != s && t == q[1] {
      NextApproaches(s, q[0], t, spurious);
    }
  }

  lemma {:induction false} ReleasedStep(s: State, m: Move)
    ensures s.released <= Step(s, m).released
  {
  }

  lemma {:induction false} ReleasedGrows(s: State, moves: seq<Move>)
    ensures s.released <= Run(s, moves).released
    decreases |moves|
  {
    if moves != [] {
      ReleasedGrows(s, moves[..|moves| - 1]);
      ReleasedStep(Run(s, moves[..|moves| - 1]), moves[|moves| - 1]);
    }
  }

  /** A move of `a` or `b` that changes the state. */
  predicate Advances(s: State, m: Move, a: Tid, b: Tid) {
    (m.t == a || m.t == b) && Step(s, m) != s
  }

  /** The number of such moves in a run. */
  function Advance(s: State, moves: seq<Move>, a: Tid, b: Tid): nat {
    if moves == [] then 0
    else
      var n := |moves| - 1;
      Advance(s, moves[..n], a, b) + if Advances(Run(s, moves[..n]), moves[n], a, b) then 1 else 0
  }

  /** The threads `a` and `b` are the first two in the queue. */
  ghost predicate FirstTwo(s: State, a: Tid, b: Tid) {
    && s.released <= |s.arrivals| && |Waiters(s)| >= 2 && Waiters(s)[0] == a && Waiters(s)[1] == b
    && a in s.pc && b in s.pc
  }

  lemma {:induction false} AdvanceStep(s: State, m: Move, a: Tid, b: Tid)
    requires Inv(s) && FirstTwo(s, a, b) && Step(s, m).released == s.released
    ensures FirstTwo(Step(s, m), a, b)
    ensures Distance(Step(s, m), a, b) + (if Advances(s, m, a, b) then 1 else 0) <= Distance(s, a, b)
  {
    if m.t in s.pc && m.t in s.nodes {
      ReleaseApproaches(s, m.t, m.spurious);
      assert Waiters(s)[..2] == [a, b];
    }
  }

  /**
   However a run goes on from a reachable state in which `a` and `b` are the first two in the
   queue, and whatever other threads do in it: as long as nobody releases, `a` and `b` stay
   the first two and make no more moves than the distance to the release.
   */
  lemma {:induction false} ReleaseComes(s: State, moves: seq<Move>, a: Tid, b: Tid)
    requires Inv(s) && FirstTwo(s, a, b) && Run(s, moves).released == s.released
    ensures FirstTwo(Run(s, moves), a, b)
    ensures Advance(s, moves, a, b) + Distance(Run(s, moves), a, b) <= Distance(s, a, b)
    decreases |moves|
  {
    if moves != [] {
      var before, m := moves[..|moves| - 1], moves[|moves| - 1];
      ReleasedGrows(s, before);
      ReleasedStep(Run(s, before), m);
      ReleaseComes(s, before, a, b);
      RunInv(s, before);
      AdvanceStep(Run(s, before), m, a, b);
    }
  }

  // ----- how long a waiter waits

  predicate TwoQueued(s: State) {
    s.released <= |s.arrivals| && |Waiters(s)| >= 2
  }

  /** A move of one of the two threads then at the front of the queue that changes the state. */
  predicate FrontMove(s: State, m: Move) {
    TwoQueued(s) && Advances(s, m, Waiters(s)[0], Waiters(s)[1])
  }

  /** The number of such moves in a run, however often the two at the front change. */
  function FrontMoves(s: State, moves: seq<Move>): nat {
    if moves == [] then 0
    else
      var n := |moves| - 1;
      FrontMoves(s, moves[..n]) + if FrontMove(Run(s, moves[..n]), moves[n]) then 1 else 0
  }

  function FrontDistance(s: State): nat {
    if TwoQueued(s) && Waiters(s)[0] in s.pc && Waiters(s)[1] in s.pc then Distance(s, Waiters(s)[0], Waiters(s)[1])
    else 0
  }

  lemma {:induction false} FrontStep(s: State, m: Move)
    requires Inv(s) && TwoQueued(s) && TwoQueued(Step(s, m))
    ensures s.released <= Step(s, m).released
    ensures FrontDistance(Step(s, m)) + (if FrontMove(s, m) then 1 else 0)
            <= FrontDistance(s) + 9 * (Step(s, m).released - s.released)
  {
    var q, s' := Waiters(s), Step(s, m);
    assert q[0] in q && q[1] in q;
    if s'.released == s.released {
      AdvanceStep(s, m, q[0], q[1]);
    } else {
      ReleaseWakesNext(s, m.t, m.spurious);
    }
  }

  /**
   Over any run in which two threads or more stay queued, the moves of those at the front are
   bounded by the number of releases, whatever other threads do.
   */
  lemma {:induction false} HandOversCome(s: State, moves: seq<Move>)
    requires Inv(s) && forall n | 0 <= n <= |moves| :: TwoQueued(Run(s, moves[..n]))
    ensures s.released <= Run(s, moves).released
    ensures FrontMoves(s, moves) + FrontDistance(Run(s, moves))
            <= FrontDistance(s) + 9 * (Run(s, moves).released - s.released)
    decreases |moves|
  {
    if moves != [] {
      var before, m := moves[..|moves| - 1], moves[|moves| - 1];
      forall n | 0 <= n <= |before|
        ensures TwoQueued(Run(s, before[..n]))
      {
        assert before[..n] == moves[..n];
      }
      assert moves[..|moves| - 1] == before && moves[..|moves|] == moves;
      HandOversCome(s, before);
      RunInv(s, before);
      FrontStep(Run(s, before), m);
    }
  }

  /** At most nine such moves for each release, and nine before the next. */
  lemma {:induction false} HandOverBound(s: State, moves: seq<Move>)
    requires Inv(s) && forall n | 0 <= n <= |moves| :: TwoQueued(Run(s, moves[..n]))
    ensures FrontMoves(s, moves) < 9 * (Run(s, moves).released - s.released + 1)
  {
    HandOversCome(s, moves);
    RunInv(s, moves);
    assert moves[..0] == [] && moves[..|moves|] == moves;
    assert TwoQueued(Run(s, moves[..0])) && TwoQueued(Run(s, moves[..|moves|]));
    FrontBounds(s);
    FrontBounds(Run(s, moves));
  }

  lemma {:induction false} ReleasedSince(s: State, moves: seq<Move>, n: nat)
    requires n <= |moves|
    ensures Run(s, moves[..n]).released <= Run(s, moves).released
    decreases |moves| - n
  {
    if n == |moves| {
      assert moves[..n] == moves;
    } else {
      ReleasedSince(s, moves, n + 1);
      assert moves[..n + 1][..n] == moves[..n];
      ReleasedStep(Run(s, moves[..n]), moves[n]);
    }
  }

  /** Behind `i` others, a thread moves up one place with each release. */
  lemma {:induction false} PlaceInQueue(s: State, moves: seq<Move>, i: nat)
    requires Inv(s) && i < |Waiters(s)|
    ensures var s' := Run(s, moves);
            && s.released <= s'.released <= |s'.arrivals|
            && (s'.released <= s.released + i ==>
                  var j := s.released + i - s'.released;
                  j < |Waiters(s')| && Waiters(s')[j] == Waiters(s)[i])
  {
    RunInv(s, moves);
    ReleasedGrows(s, moves);
    ArrivalsGrow(s, moves, 0);
    assert moves[..0] == [];
    PlaceAfter(s, Run(s, moves), i);
  }

  lemma PlaceAfter(s: State, s': State, i: nat)
    requires s.released <= |s.arrivals| && s'.released <= |s'.arrivals| && i < |Waiters(s)|
    requires s.arrivals <= s'.arrivals && s.released <= s'.released
    ensures s'.released <= s.released + i ==>
              var j := s.released + i - s'.released;
              j < |Waiters(s')| && Waiters(s')[j] == Waiters(s)[i]
  {
  }

  lemma FrontBounds(s: State)
    requires Inv(s) && TwoQueued(s)
    ensures 1 <= FrontDistance(s) <= 9
  {
    var q := Waiters(s);
    assert q[0] in q && q[1] in q;
  }

  /**
   However a run goes on from a reachable state, the thread with `i` others before it is at the
   front of the queue, or has been, once the threads then at the front have made `9 * i` moves.
   */
  lemma {:induction false} TurnComes(s: State, moves: seq<Move>, i: nat)
    requires Inv(s) && 1 <= i < |Waiters(s)|
    ensures FrontMoves(s, moves) >= 9 * i ==> Run(s, moves).released >= s.released + i
  {
    if Run(s, moves).released < s.released + i {
      forall n | 0 <= n <= |moves|
        ensures TwoQueued(Run(s, moves[..n]))
      {
        ReleasedSince(s, moves, n);
        PlaceInQueue(s, moves[..n], i);
      }
      HandOverBound(s, moves);
    }
  }
}
