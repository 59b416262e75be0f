/**
 The lock-free bump allocator (port/src/allocator.rs, `BumpAlloc::try_alloc`):
 the arithmetic of one attempt, and any interleaving of concurrent calls.
 */
module BumpAlloc {
  import opened Wrappers
  import opened Bits
  import Mem
  import opened Repeated

  /** `addr` is a multiple of `align`. */
  predicate Aligned(addr: nat, align: nat)
    requires align >= 1
  {
    Rem(addr, align) == 0
  }

  lemma AlignedIsMod(addr: nat, align: nat)
    requires align >= 1
    ensures Aligned(addr, align) <==> addr % align == 0
  {
    QuotRemIsDivMod(addr, align);
  }

  /** `align_offset`: how far the next multiple of `align` is. */
  function AlignOffset(addr: nat, align: nat): (off: nat)
    requires align >= 1
    ensures off < align && Aligned(addr + off, align)
    ensures Aligned(addr, align) ==> off == 0
  {
    AlignOffsetFits(addr, align);
    if Rem(addr, align) == 0 then 0 else align - Rem(addr, align)
  }

  lemma AlignOffsetFits(addr: nat, align: nat)
    requires align >= 1
    ensures Rem(addr, align) != 0 ==> Aligned(addr + (align - Rem(addr, align)), align)
  {
    var q, r := Quot(addr, align), Rem(addr, align);
    QuotRem(addr, align);
    if r != 0 {
      QuotRemOf(q + 1, 0, align);
    }
  }

  /** A part of the arena given out by one successful call: a prefix up to the alignment, then the block. */
  datatype Grant = Grant(start: nat, adjust: nat, align: nat, size: nat) {
    function BlockStart(): nat {
      start + adjust
    }

    function End(): nat {
      start + adjust + size
    }
  }

  /** The closure of `fetch_update`: what the call would take if the cursor stood at `current`. */
  function Attempt(base: nat, len: nat, current: nat, align: nat, size: nat): (r: Option<Grant>)
    requires align >= 1
    ensures r.Some? ==> r.value.start == current && r.value.align == align && r.value.size == size
                        && Aligned(base + r.value.BlockStart(), align) && r.value.adjust < align && r.value.End() <= len
  {
    var adjust := AlignOffset(base + current, align);
    if current + adjust + size <= len then Some(Grant(current, adjust, align, size)) else None
  }

  /** A block of the size fits at address `x`, which is aligned and not before the cursor. */
  predicate FitsAt(base: nat, len: nat, current: nat, align: nat, size: nat, x: nat)
    requires align >= 1
  {
    base + current <= x && x % align == 0 && x + size <= base + len
  }

  ghost predicate Room(base: nat, len: nat, current: nat, align: nat, size: nat)
    requires align >= 1
  {
    exists x :: FitsAt(base, len, current, align, size, x)
  }

  /** `x` is the first multiple of `align` from `lo` on. */
  ghost predicate FirstMultiple(lo: nat, align: nat, x: nat)
    requires align >= 1
  {
    lo <= x && x % align == 0 && forall y | lo <= y < x :: y % align != 0
  }

  lemma OffsetToFirst(lo: nat, align: nat)
    requires align >= 1
    ensures FirstMultiple(lo, align, lo + AlignOffset(lo, align))
  {
    var x := lo + AlignOffset(lo, align);
    AlignedIsMod(x, align);
    forall y | lo <= y < x
      ensures y % align != 0
    {
      if y % align == 0 {
        Mem.NextMultiple(y, x, align);
        AlignedIsMod(lo, align);
      }
    }
  }

  /** An attempt succeeds exactly when there is room, and takes the first aligned address from the cursor on. */
  lemma AttemptIff(base: nat, len: nat, current: nat, align: nat, size: nat)
    requires align >= 1
    ensures Attempt(base, len, current, align, size).Some? <==> Room(base, len, current, align, size)
    ensures Attempt(base, len, current, align, size).Some? ==>
              FirstMultiple(base + current, align, base + Attempt(base, len, current, align, size).value.BlockStart())
  {
    var x := base + current + AlignOffset(base + current, align);
    OffsetToFirst(base + current, align);
    if x + size <= base + len {
      assert FitsAt(base, len, current, align, size, x);
    } else {
      assert forall y: nat | FitsAt(base, len, current, align, size, y) :: y >= x;
    }
  }

  /** The aligned block from a later cursor does not end earlier. */
  lemma AttemptMonotone(base: nat, len: nat, x: nat, y: nat, align: nat, size: nat)
    requires align >= 1 && x <= y
    requires Attempt(base, len, x, align, size).None?
    ensures Attempt(base, len, y, align, size).None?
  {
    var a, b := base + x + AlignOffset(base + x, align), base + y + AlignOffset(base + y, align);
    AlignedIsMod(a, align);
    AlignedIsMod(b, align);
    if b < a {
      Mem.NextMultiple(b, a, align);
    }
  }

  // ----- concurrent calls

  type Tid = nat

  datatype Phase = Idle | Loaded(align: nat, size: nat, seen: nat)

  datatype State = State(cursor: nat, phases: map<Tid, Phase>, log: seq<Grant>)

  datatype Move =
    | Call(t: Tid, align: nat, size: nat)  // the first load of the cursor
    | Exchange(t: Tid, spurious: bool)     // the closure and the weak compare-exchange

  function Step(base: nat, len: nat, s: State, m: Move): State {
    if m.t !in s.phases then s
    else
      match m
      case Call(t, align, size) =>
        if s.phases[t].Idle? && align >= 1 then s.(phases := s.phases[t := Loaded(align, size, s.cursor)]) else s
      case Exchange(t, spurious) =>
        match s.phases[t]
        case Idle => s
        case Loaded(align, size, seen) =>
          if align == 0 then s
          else
            match Attempt(base, len, seen, align, size)
            case None => s.(phases := s.phases[t := Idle])
            case Some(grant) =>
              if s.cursor == seen && !spurious
              then State(grant.End(), s.phases[t := Idle], s.log + [grant])
              else s.(phases := s.phases[t := Loaded(align, size, s.cursor)])
  }

  function Run(base: nat, len: nat, s: State, moves: seq<Move>): State {
    if moves == [] then s
    else Step(base, len, Run(base, len, s, moves[..|moves| - 1]), moves[|moves| - 1])
  }

  predicate Init(s: State) {
    s.cursor == 0 && s.log == [] && forall t | t in s.phases :: s.phases[t] == Idle
  }

  /** The grants lie end to end from 0 to `cursor`. */
  predicate Tiled(log: seq<Grant>, cursor: nat) {
    if log == [] then cursor == 0
    else
      var last := log[|log| - 1];
      last.End() == cursor && Tiled(log[..|log| - 1], last.start)
  }

  ghost predicate Inv(base: nat, len: nat, s: State) {
    && Tiled(s.log, s.cursor) && s.cursor <= len
    && (forall i | 0 <= i < |s.log| :: s.log[i].align >= 1 && Aligned(base + s.log[i].BlockStart(), s.log[i].align))
    && (forall t | t in s.phases && s.phases[t].Loaded? :: s.phases[t].seen <= s.cursor)
  }

  lemma StepInv(base: nat, len: nat, s: State, m: Move)
    requires Inv(base, len, s)
    ensures Inv(base, len, Step(base, len, s, m))
    ensures s.cursor <= Step(base, len, s, m).cursor && s.log <= Step(base, len, s, m).log
  {
    if m.t in s.phases {
      PhaseInv(base, len, s, m.t, Idle);
      if m.Call? {
        PhaseInv(base, len, s, m.t, Loaded(m.align, m.size, s.cursor));
      } else if s.phases[m.t].Loaded? && s.phases[m.t].align > 0 {
        var Loaded(align, size, seen) := s.phases[m.t];
        PhaseInv(base, len, s, m.t, Loaded(align, size, s.cursor));
        var attempt := Attempt(base, len, seen, align, size);
        if attempt.Some? && s.cursor == seen {
          GrantInv(base, len, s, m.t, attempt.value);
        }
      }
    }
  }

  lemma PhaseInv(base: nat, len: nat, s: State, t: Tid, phase: Phase)
    requires Inv(base, len, s) && (phase.Loaded? ==> phase.seen <= s.cursor)
    ensures Inv(base, len, s.(phases := s.phases[t := phase]))
  {
  }

  lemma GrantInv(base: nat, len: nat, s: State, t: Tid, grant: Grant)
    requires Inv(base, len, s) && grant.start == s.cursor && grant.End() <= len
    requires grant.align >= 1 && Aligned(base + grant.BlockStart(), grant.align)
    ensures Inv(base, len, State(grant.End(), s.phases[t := Idle], s.log + [grant]))
  {
    TiledSnoc(s.log, s.cursor, grant);
  }

  lemma {:induction false} TiledSnoc(log: seq<Grant>, cursor: nat, grant: Grant)
    requires Tiled(log, cursor) && grant.start == cursor
    ensures Tiled(log + [grant], grant.End())
  {
    assert (log + [grant])[..|log|] == log;
  }

  lemma {:induction false} RunInv(base: nat, len: nat, s: State, moves: seq<Move>)
    requires Inv(base, len, s)
    ensures Inv(base, len, Run(base, len, s, moves))
  {
    if moves != [] {
      RunInv(base, len, s, moves[..|moves| - 1]);
      StepInv(base, len, Run(base, len, s, moves[..|moves| - 1]), moves[|moves| - 1]);
    }
  }

  lemma {:induction false} TiledOrder(log: seq<Grant>, cursor: nat, i: nat, j: nat)
    requires Tiled(log, cursor) && i <= j < |log|
    ensures log[j].End() <= cursor && (i < j ==> log[i].End() <= log[j].start)
    ensures i + 1 == j ==> log[i].End() == log[j].start
    ensures log[0].start == 0
    decreases |log|
  {
    var n := |log| - 1;
    if j < n {
      TiledOrder(log[..n], log[n].start, i, j);
    } else if n > 0 {
      TiledOrder(log[..n], log[n].start, if i < n then i else n - 1, n - 1);
    }
  }

  /**
   Under every interleaving, the (prefix, block) pairs in the order of their
   compare-exchanges tile the arena below the cursor with no gap and no overlap,
   each block is aligned, and the cursor never passes the end of the arena.
   */
  lemma GrantsTile(base: nat, len: nat, s: State, moves: seq<Move>, i: nat, j: nat)
    requires Init(s)
    requires i <= j < |Run(base, len, s, moves).log|
    ensures var s' := Run(base, len, s, moves);
            && s'.log[0].start == 0 && s'.log[|s'.log| - 1].End() == s'.cursor && s'.cursor <= len
            && (i < j ==> s'.log[i].End() <= s'.log[j].start) && s'.log[j].End() <= s'.cursor
            && (j == i + 1 ==> s'.log[i].End() == s'.log[j].start)
            && s'.log[i].align >= 1 && (base + s'.log[i].BlockStart()) % s'.log[i].align == 0
  {
    var s' := Run(base, len, s, moves);
    RunInv(base, len, s, moves);
    TiledOrder(s'.log, s'.cursor, i, j);
    AlignedIsMod(base + s'.log[i].BlockStart(), s'.log[i].align);
  }

  /** The prefix and block granted by an exchange start at the cursor and are what its caller asked for. */
  lemma GrantIsAsked(base: nat, len: nat, s: State, m: Move)
    requires Step(base, len, s, m).log != s.log
    ensures m.t in s.phases && s.phases[m.t].Loaded?
    ensures var s' := Step(base, len, s, m);
            && |s'.log| == |s.log| + 1 && s.log <= s'.log
            && var grant := s'.log[|s.log|];
               && grant.start == s.cursor && grant.End() == s'.cursor
               && grant.align == s.phases[m.t].align && grant.size == s.phases[m.t].size
               && grant.adjust < grant.align
  {
    var p := s.phases[m.t];
    assert Attempt(base, len, p.seen, p.align, p.size).Some?;
  }

  /** A call gives up only when its request does not fit at the cursor of that moment. */
  lemma FailureIsJustified(base: nat, len: nat, s: State, moves: seq<Move>, t: Tid, spurious: bool)
    requires Init(s)
    requires var s0 := Run(base, len, s, moves);
             && t in s0.phases && s0.phases[t].Loaded? && s0.phases[t].align >= 1
             && Step(base, len, s0, Exchange(t, spurious)).phases[t] == Idle
             && Step(base, len, s0, Exchange(t, spurious)).log == s0.log
    ensures var s0 := Run(base, len, s, moves);
            !Room(base, len, s0.cursor, s0.phases[t].align, s0.phases[t].size)
  {
    RunInv(base, len, s, moves);
    var s0 := Run(base, len, s, moves);
    var p := s0.phases[t];
    AttemptIff(base, len, s0.cursor, p.align, p.size);
    if Attempt(base, len, p.seen, p.align, p.size).None? {
      AttemptMonotone(base, len, p.seen, s0.cursor, p.align, p.size);
    }
  }

  /**
   An exchange that finds the cursor as it was loaded, and does not fail spuriously, ends the
   call: with the first aligned block from the cursor on if there is room, and else with none.
   */
  lemma ExchangeEnds(base: nat, len: nat, s: State, t: Tid)
    requires t in s.phases && s.phases[t].Loaded? && s.phases[t].align >= 1 && s.phases[t].seen == s.cursor
    ensures var Loaded(align, size, seen) := s.phases[t];
            var s' := Step(base, len, s, Exchange(t, false));
            && t in s'.phases && s'.phases[t] == Idle
            && (if Room(base, len, seen, align, size) then
                  && |s'.log| == |s.log| + 1 && s.log <= s'.log
                  && var grant := s'.log[|s.log|];
                     && grant.start == seen && grant.size == size && grant.End() == s'.cursor
                     && FirstMultiple(base + seen, align, base + grant.BlockStart())
                else s'.log == s.log && s'.cursor == s.cursor)
  {
    AttemptIff(base, len, s.cursor, s.phases[t].align, s.phases[t].size);
  }

  /**
   An exchange after which the call goes on has loaded the cursor anew, and if it did not
   fail spuriously, another call has taken a block since the load.
   */
  lemma ExchangeRetries(base: nat, len: nat, s: State, t: Tid, spurious: bool)
    requires Inv(base, len, s) && t in s.phases && s.phases[t].Loaded? && s.phases[t].align >= 1
    requires Step(base, len, s, Exchange(t, spurious)).phases[t] != Idle
    ensures var s' := Step(base, len, s, Exchange(t, spurious));
            && s'.phases[t] == s.phases[t].(seen := s.cursor) && s'.cursor == s.cursor && s'.log == s.log
            && (spurious || s.phases[t].seen < s.cursor)
  {
  }

  /** A call that nobody disturbs takes the first aligned block from the cursor on, or fails for want of room. */
  lemma CallAlone(base: nat, len: nat, s: State, t: Tid, align: nat, size: nat)
    requires t in s.phases && s.phases[t] == Idle && align >= 1
    ensures var s' := Run(base, len, s, [Call(t, align, size), Exchange(t, false)]);
            && t in s'.phases && s'.phases[t] == Idle
            && (if Room(base, len, s.cursor, align, size) then
                  && |s'.log| == |s.log| + 1 && s.log <= s'.log
                  && var grant := s'.log[|s.log|];
                     && grant.start == s.cursor && grant.size == size && grant.End() == s'.cursor
                     && FirstMultiple(base + s.cursor, align, base + grant.BlockStart())
                else s'.log == s.log && s'.cursor == s.cursor)
  {
    var moves := [Call(t, align, size), Exchange(t, false)];
    var s1 := Step(base, len, s, moves[0]);
    assert Run(base, len, s, moves) == Step(base, len, s1, moves[1]) by {
      assert moves[..1] == [moves[0]] && moves[..1][..0] == [];
      assert Run(base, len, s, moves[..1]) == s1;
    }
    ExchangeEnds(base, len, s1, t);
  }
}
