/** Progressive lockout: the policy's arithmetic (crates/domain/src/auth.rs). */
module Lockouts {
  import opened Common

  const U32_MAX: nat := 0xFFFF_FFFF

  /** A std Duration: u64 seconds and nanoseconds, here in nanoseconds. */
  const DURATION_LIMIT: nat := 0x1_0000_0000_0000_0000 * SECOND

  type Duration = d: nat | d < DURATION_LIMIT

  type U32 = n: nat | n <= U32_MAX

  datatype Policy = Policy(maxAttempts: U32, baseDelay: Duration, maxDelay: Duration)

  datatype LockoutState = LockoutState(failedAttempts: nat, lockedUntil: Option<nat>)

  const CLEAR := LockoutState(0, None)

  function Pow2(n: nat): nat {
    if n == 0 then 1 else 2 * Pow2(n - 1)
  }

  function Threshold(p: Policy): nat {
    if p.maxAttempts == 0 then 1 else p.maxAttempts
  }

  /** Failures past the threshold. */
  function Over(p: Policy, n: nat): nat {
    if n <= Threshold(p) then 0 else n - Threshold(p)
  }

  /** `lock_duration`: a shift capped at 32, a factor capped at u32::MAX, and `max_delay` when the
      multiplication overflows. */
  function LockDuration(p: Policy, n: nat): Duration {
    var factor := Min(Pow2(Min(Over(p, n), 32)), U32_MAX);
    var scaled := if p.baseDelay * factor < DURATION_LIMIT then p.baseDelay * factor else p.maxDelay;
    Min(scaled, p.maxDelay)
  }

  predicate IsLocked(s: LockoutState, now: nat) {
    s.lockedUntil.Some? && s.lockedUntil.value > now
  }

  function RetryAfter(s: LockoutState, now: nat): Option<nat> {
    if s.lockedUntil.Some? && s.lockedUntil.value > now then Some(s.lockedUntil.value - now) else None
  }

  function SaturatingSuccessor(n: nat): nat {
    if n < U32_MAX then n + 1 else U32_MAX
  }

  function RegisterFailure(p: Policy, s: LockoutState, now: nat): LockoutState {
    var failed := SaturatingSuccessor(s.failedAttempts);
    LockoutState(failed, if failed >= Threshold(p) then Some(now + LockDuration(p, failed)) else None)
  }

  // -------- the delay is a capped doubling --------

  /** What the policy promises: start at the base and double, never past the ceiling. */
  function Doubling(p: Policy, i: nat): nat {
    if i == 0 then Min(p.baseDelay, p.maxDelay) else Min(2 * Doubling(p, i - 1), p.maxDelay)
  }

  lemma {:induction false} Pow2Monotone(i: nat, j: nat)
    requires i <= j
    ensures 1 <= Pow2(i) <= Pow2(j)
    decreases j
  {
    if i < j {
      Pow2Monotone(i, j - 1);
    } else if i > 0 {
      Pow2Monotone(i - 1, i - 1);
    }
  }

  lemma Pow2At32()
    ensures Pow2(31) == 0x8000_0000 && Pow2(32) == 0x1_0000_0000
  {
    assert Pow2(8) == 256;
    assert Pow2(16) == 0x1_0000 by { assert Pow2(12) == 4096; }
    assert Pow2(24) == 0x100_0000 by { assert Pow2(20) == 0x10_0000; }
    assert Pow2(28) == 0x1000_0000;
  }

  lemma MulMonotone(k: nat, x: nat, y: nat)
    requires x <= y
    ensures k * x <= k * y
  {
  }

  lemma PowerDoubles(base: nat, i: nat)
    ensures base * Pow2(i + 1) == 2 * (base * Pow2(i))
  {
    var power := Pow2(i);
    assert base * (2 * power) == 2 * (base * power);
  }

  lemma CapDoubles(x: nat, cap: nat)
    ensures Min(2 * Min(x, cap), cap) == Min(2 * x, cap)
  {
  }

  lemma {:induction false} DoublingIsCappedPower(p: Policy, i: nat)
    ensures Doubling(p, i) == Min(p.baseDelay * Pow2(i), p.maxDelay)
  {
    if i > 0 {
      DoublingIsCappedPower(p, i - 1);
      PowerDoubles(p.baseDelay, i - 1);
      CapDoubles(p.baseDelay * Pow2(i - 1), p.maxDelay);
    }
  }

  lemma LockDurationIsCappedProduct(p: Policy, n: nat)
    ensures LockDuration(p, n) == Min(p.baseDelay * Min(Pow2(Min(Over(p, n), 32)), U32_MAX), p.maxDelay)
  {
  }

  /** Below a shift of 32 the delay is the capped doubling, overflow fallback included. */
  lemma SmallShifts(p: Policy, n: nat)
    requires Over(p, n) < 32
    ensures LockDuration(p, n) == Doubling(p, Over(p, n))
  {
    Pow2At32();
    Pow2Monotone(Over(p, n), 31);
    DoublingIsCappedPower(p, Over(p, n));
    LockDurationIsCappedProduct(p, n);
  }

  /** From a shift of 32 on the delay is the capped doubling exactly when the largest factor already
      reaches the ceiling. */
  lemma LargeShifts(p: Policy, n: nat)
    requires Over(p, n) >= 32
    ensures LockDuration(p, n) == Doubling(p, Over(p, n)) <==>
            p.baseDelay == 0 || p.maxDelay <= p.baseDelay * U32_MAX
  {
    Pow2At32();
    Pow2Monotone(32, Over(p, n));
    DoublingIsCappedPower(p, Over(p, n));
    LockDurationIsCappedProduct(p, n);
    MulMonotone(p.baseDelay, U32_MAX + 1, Pow2(Over(p, n)));
  }

  /** The exact condition under which `lock_duration` is the promised doubling for every counter
      value: the base is zero, or the ceiling is within 2^32 - 1 times the base, or the threshold is
      so high that the counter saturates before the shift reaches 32. */
  lemma LockDurationDoublesIff(p: Policy)
    ensures (forall n: nat :: n <= U32_MAX ==> LockDuration(p, n) == Doubling(p, Over(p, n))) <==>
            p.baseDelay == 0 || p.maxDelay <= p.baseDelay * U32_MAX || Threshold(p) > U32_MAX - 32
  {
    forall n: nat | n <= U32_MAX
      ensures Over(p, n) < 32 ==> LockDuration(p, n) == Doubling(p, Over(p, n))
      ensures Over(p, n) >= 32 ==>
                (LockDuration(p, n) == Doubling(p, Over(p, n)) <==>
                 p.baseDelay == 0 || p.maxDelay <= p.baseDelay * U32_MAX)
    {
      if Over(p, n) < 32 {
        SmallShifts(p, n);
      } else {
        LargeShifts(p, n);
      }
    }
    if Threshold(p) <= U32_MAX - 32 {
      var n := Threshold(p) + 32;
      assert Over(p, n) == 32;
    }
  }

  /** The exact condition under which every shift of 32 or more saturates to the ceiling: the ceiling is
      within 2^32 - 1 times the base, or the counter saturates before the shift gets there. */
  lemma CappedShiftSaturatesIff(p: Policy)
    ensures (forall n: nat :: n <= U32_MAX && Over(p, n) >= 32 ==> LockDuration(p, n) == p.maxDelay) <==>
            p.maxDelay <= p.baseDelay * U32_MAX || Threshold(p) > U32_MAX - 32
  {
    forall n: nat | n <= U32_MAX && Over(p, n) >= 32
      ensures LockDuration(p, n) == p.maxDelay <==> p.maxDelay <= p.baseDelay * U32_MAX
    {
      Pow2At32();
      LockDurationIsCappedProduct(p, n);
    }
    if Threshold(p) <= U32_MAX - 32 {
      assert Over(p, Threshold(p) + 32) == 32;
    }
  }

  /** With a one-nanosecond base and a ceiling beyond 2^32 - 1 nanoseconds, 32 failures past the
      threshold do not saturate to the ceiling, although the comment on the capped shift in
      crates/domain/src/auth.rs says so. */
  lemma CappedShiftFallsShort()
    ensures var p := Policy(1, 1, 0x2_0000_0000);
            LockDuration(p, 33) == U32_MAX && Doubling(p, Over(p, 33)) == 0x1_0000_0000
  {
    var p := Policy(1, 1, 0x2_0000_0000);
    Pow2At32();
    LockDurationIsCappedProduct(p, 33);
    DoublingIsCappedPower(p, 32);
  }

  /** Whatever the configuration, more failures never shorten the lock, and it never exceeds the
      ceiling. */
  lemma LockDurationMonotone(p: Policy, n: nat, m: nat)
    requires n <= m
    ensures LockDuration(p, n) <= LockDuration(p, m) <= p.maxDelay
  {
    Pow2Monotone(Min(Over(p, n), 32), Min(Over(p, m), 32));
    LockDurationIsCappedProduct(p, n);
    LockDurationIsCappedProduct(p, m);
    MulMonotone(p.baseDelay, Min(Pow2(Min(Over(p, n), 32)), U32_MAX), Min(Pow2(Min(Over(p, m), 32)), U32_MAX));
  }

  /** The delay by the failure count itself: the base, within the ceiling, up to and at `maxAttempts`
      failures (one, if that is zero), and twice as much for each failure more, through the two caps. */
  lemma DelayAt(p: Policy, n: nat)
    ensures n <= 1 || n <= p.maxAttempts ==> LockDuration(p, n) == Min(p.baseDelay, p.maxDelay)
    ensures n >= 1 && n >= p.maxAttempts ==>
              var extra := n - if p.maxAttempts == 0 then 1 else p.maxAttempts;
              LockDuration(p, n) == Min(p.baseDelay * (if extra < 32 then Pow2(extra) else U32_MAX), p.maxDelay)
  {
    LockDurationIsCappedProduct(p, n);
    Pow2At32();
    if Over(p, n) < 32 {
      Pow2Monotone(Over(p, n), 31);
    }
  }

  /** What a failure leaves: the count one higher, saturating, and a lock from now on exactly when that
      count is at least one and at least `maxAttempts`. */
  lemma FailureMeaning(p: Policy, s: LockoutState, now: nat)
    ensures var after := RegisterFailure(p, s, now);
            && after.failedAttempts == (if s.failedAttempts < 0xFFFF_FFFF then s.failedAttempts + 1 else 0xFFFF_FFFF)
            && (after.lockedUntil.Some? <==> after.failedAttempts >= 1 && after.failedAttempts >= p.maxAttempts)
            && (after.lockedUntil.Some? ==> after.lockedUntil.value == now + LockDuration(p, after.failedAttempts))
  {
  }

  /** A deadline locks strictly before it, and a zero wait is no wait. */
  lemma LockMeaning(s: LockoutState, now: nat)
    ensures IsLocked(s, now) <==> s.lockedUntil.Some? && now < s.lockedUntil.value
    ensures IsLocked(s, now) ==> RetryAfter(s, now) == Some(s.lockedUntil.value - now)
    ensures !IsLocked(s, now) ==> RetryAfter(s, now) == None
  {
  }

  /** `retry_after` names the instant the lock ends: locked before it, open from it on. */
  lemma RetryAfterEndsLock(s: LockoutState, now: nat, later: nat)
    ensures RetryAfter(s, now).Some? <==> IsLocked(s, now)
    ensures now <= later && RetryAfter(s, now).Some? ==>
              (IsLocked(s, later) <==> later < now + RetryAfter(s, now).value)
  {
  }
}
