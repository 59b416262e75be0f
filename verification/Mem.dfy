/**
 Physical addresses and ranges (port/src/mem.rs): rounding to a power-of-two
 step, and the enumeration of the steps of a range.
 */
module Mem {
  import opened Bits

  const PAGE_SIZE_4K: nat := 0x1000
  const PAGE_SIZE_2M: nat := 0x20_0000
  const PAGE_SIZE_1G: nat := 0x4000_0000

  type U64 = x: nat | x < U64_LIMIT

  type PhysAddr = U64

  datatype PhysRange = PhysRange(start: PhysAddr, end: PhysAddr)

  function RoundDown(pa: PhysAddr, step: U64): (r: PhysAddr)
    requires IsPow2(step)
    ensures r <= pa < r + step
  {
    RoundDownMask(pa, step);
    And(pa, U64_LIMIT - 1 - (step - 1))
  }

  function RoundUp(pa: PhysAddr, step: U64): (r: PhysAddr)
    requires IsPow2(step)
    requires pa + step - 1 < U64_LIMIT
    ensures pa <= r < pa + step
  {
    RoundDownMask(pa + step - 1, step);
    And(pa + step - 1, U64_LIMIT - 1 - (step - 1))
  }

  /** Rounding down gives the largest multiple of `step` not above `pa`. */
  lemma RoundsDown(pa: PhysAddr, step: U64)
    requires IsPow2(step)
    ensures step >= 1
    ensures var r := RoundDown(pa, step); r % step == 0 && r <= pa < r + step
  {
    RoundDownMask(pa, step);
  }

  /** Rounding up gives the smallest multiple of `step` not below `pa`. */
  lemma RoundsUp(pa: PhysAddr, step: U64)
    requires IsPow2(step)
    requires pa + step - 1 < U64_LIMIT
    ensures step >= 1
    ensures var r := RoundUp(pa, step); r % step == 0 && pa <= r < pa + step
  {
    RoundDownMask(pa + step - 1, step);
  }

  lemma RoundDownMask(x: U64, step: U64)
    requires IsPow2(step)
    ensures step >= 1
    ensures And(x, U64_LIMIT - 1 - (step - 1)) == x - x % step
    ensures (x - x % step) % step == 0
  {
    var k: nat :| k <= step && step == Pow2(k);
    assert k <= 64 by {
      Pow2Constants();
      if k > 64 {
        Pow2Monotone(64, k);
      }
    }
    AndField(x, 64, k);
    assert Pow2(64) == U64_LIMIT by { Pow2Constants(); }
    assert x % U64_LIMIT == x;
    MultipleBelow(x, step);
  }

  lemma MultipleBelow(x: nat, step: nat)
    requires step >= 1
    ensures (x - x % step) % step == 0
  {
    DivModUnique(x - x % step, step, x / step, 0);
  }

  /** The addresses yielded by `step_by_rounded`. */
  function StepByRounded(range: PhysRange, step: U64): seq<PhysAddr>
    requires IsPow2(step)
    requires range.end + step - 1 < U64_LIMIT
  {
    RoundsDown(range.start, step);
    RoundsUp(range.end, step);
    Steps(RoundDown(range.start, step), RoundUp(range.end, step), step)
  }

  /** Rust's `(start..end).step_by(step)`, for bounds that are multiples of `step`. */
  function Steps(start: PhysAddr, end: PhysAddr, step: U64): (s: seq<PhysAddr>)
    requires step >= 1
    requires start % step == 0 && end % step == 0
    decreases end - start
  {
    if end <= start then []
    else
      NextMultiple(start, end, step);
      [start] + Steps(start + step, end, step)
  }

  /** The addresses go from `lo` in steps up to, but excluding, `hi`, which the last step reaches. */
  predicate Consecutive(s: seq<PhysAddr>, lo: nat, hi: nat, step: nat) {
    && (s == [] <==> hi <= lo)
    && (s != [] ==> s[0] == lo && s[|s| - 1] + step == hi)
    && (forall i | 1 <= i < |s| :: OneStepOn(s, i, step))
    && (forall i | 0 <= i < |s| :: lo <= s[i] < hi)
  }

  predicate OneStepOn(s: seq<PhysAddr>, i: nat, step: nat)
    requires 1 <= i < |s|
  {
    s[i] == s[i - 1] + step
  }

  lemma {:induction false} StepsConsecutive(start: PhysAddr, end: PhysAddr, step: U64)
    requires step >= 1
    requires start % step == 0 && end % step == 0
    ensures Consecutive(Steps(start, end, step), start, end, step)
    decreases end - start
  {
    if start < end {
      NextMultiple(start, end, step);
      StepsConsecutive(start + step, end, step);
      var rest := Steps(start + step, end, step);
      assert Steps(start, end, step) == [start] + rest;
      forall i | 1 <= i < |rest| + 1
        ensures OneStepOn([start] + rest, i, step)
      {
        assert i > 1 ==> OneStepOn(rest, i - 1, step);
      }
    }
  }

  /**
   `step_by_rounded` yields every multiple of the step from the rounded-down start up to,
   but excluding, the rounded-up end, in order.
   */
  lemma {:induction false} StepsRounded(range: PhysRange, step: U64)
    requires IsPow2(step)
    requires range.end + step - 1 < U64_LIMIT
    ensures var s, lo, hi := StepByRounded(range, step), RoundDown(range.start, step), RoundUp(range.end, step);
            && Consecutive(s, lo, hi, step)
            && forall pa: PhysAddr :: pa in s <==> lo <= pa < hi && pa % step == 0
  {
    var lo, hi := RoundDown(range.start, step), RoundUp(range.end, step);
    RoundsDown(range.start, step);
    RoundsUp(range.end, step);
    StepsConsecutive(lo, hi, step);
    forall pa: PhysAddr
      ensures pa in Steps(lo, hi, step) <==> lo <= pa < hi && pa % step == 0
    {
      StepsIn(lo, hi, step, pa);
    }
  }

  lemma {:induction false} StepsIn(start: PhysAddr, end: PhysAddr, step: U64, pa: PhysAddr)
    requires step >= 1
    requires start % step == 0 && end % step == 0
    ensures pa in Steps(start, end, step) <==> start <= pa < end && pa % step == 0
    decreases end - start
  {
    if start < end {
      NextMultiple(start, end, step);
      StepsIn(start + step, end, step, pa);
      if start < pa && pa % step == 0 {
        NextMultiple(start, pa, step);
      }
    }
  }

  lemma NextMultiple(a: nat, b: nat, step: nat)
    requires step >= 1
    requires a % step == 0 && b % step == 0 && a < b
    ensures a + step <= b
    ensures (a + step) % step == 0
  {
    assert a == step * (a / step) && b == step * (b / step);
    var m, n := a / step, b / step;
    assert m < n by {
      if n <= m {
        MulMonotone(step, n, m);
      }
    }
    MulMonotone(step, m + 1, n);
    assert step * (m + 1) == a + step;
    DivModUnique(a + step, step, m + 1, 0);
  }

  lemma MulMonotone(c: nat, x: int, y: int)
    requires x <= y
    ensures c * x <= c * y
  {
  }

  /** For a range that is not empty, the steps are exactly the aligned blocks that meet it. */
  lemma StepsMeetRange(range: PhysRange, step: U64, pa: PhysAddr)
    requires IsPow2(step)
    requires range.end + step - 1 < U64_LIMIT
    requires range.start < range.end
    requires pa % step == 0
    ensures pa in StepByRounded(range, step) <==> pa < range.end && range.start < pa + step
  {
    var lo, hi := RoundDown(range.start, step), RoundUp(range.end, step);
    StepsRounded(range, step);
    RoundsDown(range.start, step);
    RoundsUp(range.end, step);
    if pa < lo {
      NextMultiple(pa, lo, step);
    }
    if range.end <= pa < hi {
      NextMultiple(pa, hi, step);
    }
  }
}
