/** The reconnect settings of include/hv/hloop.h, and how TcpClient.h uses them: 32-bit fields. */
module Reconnect {
  import opened Text

  const LIMIT := 0x1_0000_0000

  type Uint32 = n: int | 0 <= n < LIMIT

  /** No limit on the number of retries. */
  const INFINITE: Uint32 := 0xFFFF_FFFF

  function Min(a: int, b: int): int {
    if a < b then a else b
  }

  function Max(a: int, b: int): int {
    if a > b then a else b
  }

  /** The delay that `reconn_setting_calc_delay` goes on to from the current one. */
  function NextDelay(min: Uint32, max: Uint32, policy: Uint32, cur: Uint32): (delay: Uint32)
    ensures delay <= max
  {
    var raw :=
      if policy == 0 then min
      else if policy == 1 then (cur + min) % LIMIT
      else cur * policy % LIMIT;
    Min(Max(raw, min), max)
  }

  /** The n-th delay after a reset, counting from 0. */
  function Delay(min: Uint32, max: Uint32, policy: Uint32, n: nat): (delay: Uint32)
    ensures delay <= max
  {
    NextDelay(min, max, policy, if n == 0 then 0 else Delay(min, max, policy, n - 1))
  }

  function Pow(b: nat, n: nat): nat {
    if n == 0 then 1 else b * Pow(b, n - 1)
  }

  /** What the comment beside `delay_policy` promises. */
  function Promised(min: Uint32, max: Uint32, policy: Uint32, n: nat): (delay: int)
  {
    if policy == 0 then Min(max, min)
    else if policy == 1 then Min(max, (n + 1) * min)
    else Min(max, min * Pow(policy, n))
  }

  /** The step from this delay wraps, and to less than the largest delay, so the wrapped value is not cut. */
  predicate WrapsLow(min: Uint32, max: Uint32, policy: Uint32, cur: Uint32) {
    var exact := if policy == 0 then 0 else if policy == 1 then cur + min else cur * policy;
    exact >= LIMIT && Max(exact % LIMIT, min) < max
  }

  lemma PromisedBounds(min: Uint32, max: Uint32, policy: Uint32, n: nat)
    requires min <= max
    ensures min <= Promised(min, max, policy, n) <= max
  {
    if policy == 1 {
      assert (n + 1) * min == n * min + min && n * min >= 0;
    } else if policy > 1 {
      PowPositive(policy, n);
      TimesAtLeast(min, Pow(policy, n));
    }
  }

  lemma {:induction false} PowPositive(b: nat, n: nat)
    requires b > 0
    ensures Pow(b, n) >= 1
  {
    if n > 0 {
      PowPositive(b, n - 1);
      TimesAtLeast(b, Pow(b, n - 1));
    }
  }

  lemma TimesAtLeast(a: nat, b: nat)
    requires b >= 1
    ensures a <= a * b
  {
    assert a * b == a + a * (b - 1);
    assert a * (b - 1) >= 0;
  }

  /** One more step of what is promised, done without wrapping. */
  lemma PromisedStep(min: Uint32, max: Uint32, policy: Uint32, n: nat)
    requires min <= max
    ensures var cur := Promised(min, max, policy, n);
            Promised(min, max, policy, n + 1)
            == Min(Max(if policy == 0 then min else if policy == 1 then cur + min else cur * policy, min), max)
  {
    if policy == 1 {
      assert (n + 2) * min == (n + 1) * min + min;
      assert (n + 1) * min == n * min + min && n * min >= 0;
    } else if policy > 1 {
      PowPositive(policy, n);
      TimesAtLeast(min, Pow(policy, n));
      assert min * (policy * Pow(policy, n)) == min * Pow(policy, n) * policy;
      ExponentialStep(min, max, policy, min * Pow(policy, n));
    }
  }

  lemma ExponentialStep(min: nat, max: nat, policy: nat, exact: nat)
    requires min <= max && min <= exact && policy > 1
    ensures Min(max, exact * policy) == Min(Max(Min(max, exact) * policy, min), max)
  {
    TimesAtLeast(exact, policy);
    TimesAtLeast(max, policy);
  }

  /** The step taken from the promised delay is the promised one, exactly when it does not wrap low. */
  lemma StepIff(min: Uint32, max: Uint32, policy: Uint32, n: nat)
    requires min <= max
    ensures var cur := Promised(min, max, policy, n);
            0 <= cur < LIMIT && (NextDelay(min, max, policy, cur) == Promised(min, max, policy, n + 1) <==> !WrapsLow(min, max, policy, cur))
  {
    hide Promised;
    PromisedBounds(min, max, policy, n);
    PromisedStep(min, max, policy, n);
    var cur := Promised(min, max, policy, n);
    WrapIff(min, max, if policy == 0 then min else if policy == 1 then cur + min else cur * policy);
  }

  /** A value cut between the two limits is the same modulo 2^32 unless it wraps to less than the upper one. */
  lemma WrapIff(min: Uint32, max: Uint32, exact: nat)
    requires min <= max
    ensures Min(Max(exact % LIMIT, min), max) == Min(Max(exact, min), max) <==> !(exact >= LIMIT && Max(exact % LIMIT, min) < max)
  {
  }

  lemma FirstDelay(min: Uint32, max: Uint32, policy: Uint32)
    requires min <= max
    ensures Delay(min, max, policy, 0) == min == Promised(min, max, policy, 0)
  {
    assert 1 * min == min && min * Pow(policy, 0) == min;
  }

  /** No step from a promised delay before the n-th wraps low. */
  ghost predicate NeverWrapsLow(min: Uint32, max: Uint32, policy: Uint32, n: nat)
    requires min <= max
  {
    forall k: nat :: k < n ==> StepIsExact(min, max, policy, k)
  }

  ghost predicate StepIsExact(min: Uint32, max: Uint32, policy: Uint32, k: nat)
    requires min <= max
  {
    PromisedBounds(min, max, policy, k);
    !WrapsLow(min, max, policy, Promised(min, max, policy, k))
  }

  lemma {:induction false} ExactSteps(min: Uint32, max: Uint32, policy: Uint32, n: nat)
    requires min <= max && NeverWrapsLow(min, max, policy, n)
    ensures Delay(min, max, policy, n) == Promised(min, max, policy, n)
  {
    FirstDelay(min, max, policy);
    if n > 0 {
      ExactSteps(min, max, policy, n - 1);
      StepIff(min, max, policy, n - 1);
      assert StepIsExact(min, max, policy, n - 1);
    }
  }

  lemma {:induction false} FirstInexactStep(min: Uint32, max: Uint32, policy: Uint32, n: nat) returns (k: nat)
    requires min <= max && !NeverWrapsLow(min, max, policy, n)
    ensures k <= n && Delay(min, max, policy, k) != Promised(min, max, policy, k)
  {
    if !NeverWrapsLow(min, max, policy, n - 1) {
      k := FirstInexactStep(min, max, policy, n - 1);
    } else {
      k := n;
      assert !StepIsExact(min, max, policy, n - 1);
      ExactSteps(min, max, policy, n - 1);
      StepIff(min, max, policy, n - 1);
    }
  }

  ghost predicate KeepsPromise(min: Uint32, max: Uint32, policy: Uint32, n: nat) {
    forall k: nat :: k <= n ==> IsPromised(min, max, policy, k)
  }

  predicate IsPromised(min: Uint32, max: Uint32, policy: Uint32, k: nat) {
    Delay(min, max, policy, k) == Promised(min, max, policy, k)
  }

  /** The delays up to the n-th are the promised ones if and only if no step before it wraps low. */
  lemma PromiseIff(min: Uint32, max: Uint32, policy: Uint32, n: nat)
    requires min <= max
    ensures KeepsPromise(min, max, policy, n) <==> NeverWrapsLow(min, max, policy, n)
  {
    if NeverWrapsLow(min, max, policy, n) {
      forall k: nat | k <= n ensures IsPromised(min, max, policy, k) {
        ExactSteps(min, max, policy, k);
      }
    } else {
      var k := FirstInexactStep(min, max, policy, n);
      assert !IsPromised(min, max, policy, k);
    }
  }

  /** Settings whose largest delay cannot wrap in one step. */
  predicate CannotWrap(min: Uint32, max: Uint32, policy: Uint32) {
    (policy == 1 ==> max + min < LIMIT) && (policy > 1 ==> max * policy < LIMIT)
  }

  /** With such settings every delay is the promised one; delays never fall and never pass the maximum. */
  lemma PromiseKept(min: Uint32, max: Uint32, policy: Uint32, n: nat)
    requires min <= max && CannotWrap(min, max, policy)
    ensures Delay(min, max, policy, n) == Promised(min, max, policy, n)
    ensures min <= Delay(min, max, policy, n) <= Delay(min, max, policy, n + 1) <= max
  {
    forall k: nat ensures StepIsExact(min, max, policy, k) {
      PromisedBounds(min, max, policy, k);
      TimesMonotone(Promised(min, max, policy, k), max, policy);
    }
    ExactSteps(min, max, policy, n);
    ExactSteps(min, max, policy, n + 1);
    PromisedBounds(min, max, policy, n);
    PromisedStep(min, max, policy, n);
    if policy > 1 {
      TimesAtLeast(Promised(min, max, policy, n), policy);
    }
  }

  lemma LateDelay(min: Uint32, max: Uint32)
    requires 0 < min <= max
    ensures Promised(min, max, 1, max) == max
  {
    assert (max + 1) * min == (max + 1) + (max + 1) * (min - 1);
    assert (max + 1) * (min - 1) >= 0;
  }

  /**
   * With the linear policy all delays are the promised ones if and only if the step from the largest delay
   * does not wrap, or the limits are equal, or the delays do not grow.
   */
  lemma LinearPromiseIff(min: Uint32, max: Uint32)
    requires min <= max
    ensures (forall n: nat :: KeepsPromise(min, max, 1, n)) <==> (max + min < LIMIT || min == max || min == 0)
  {
    if max + min < LIMIT || min == max || min == 0 {
      forall n: nat ensures KeepsPromise(min, max, 1, n) {
        forall k: nat ensures StepIsExact(min, max, 1, k) {
          PromisedBounds(min, max, 1, k);
          assert min == 0 ==> (k + 1) * min == 0;
        }
        PromiseIff(min, max, 1, n);
      }
    } else {
      LateDelay(min, max);
      assert !StepIsExact(min, max, 1, max);
      assert !NeverWrapsLow(min, max, 1, max + 1);
      PromiseIff(min, max, 1, max + 1);
    }
  }

  // --- the exponential policy ---

  lemma TimesGrows(a: nat, b: nat)
    requires a > 0 && b > 1
    ensures a < a * b
  {
    assert a * b == a + a * (b - 1);
    TimesAtLeast(a, b - 1);
  }

  /** The largest of `v`, `v` times the factor, and so on, that is below the maximum. */
  function LastBelow(v: nat, max: nat, factor: nat): (last: nat)
    requires 0 < v < max && factor > 1
    ensures v <= last < max <= last * factor
    decreases max - v
  {
    TimesGrows(v, factor);
    if v * factor < max then LastBelow(v * factor, max, factor) else v
  }

  lemma NextPower(v: nat, factor: nat, k: nat)
    requires k > 0
    ensures v * Pow(factor, k) == v * Pow(factor, k - 1) * factor == v * factor * Pow(factor, k - 1)
  {
    TimesRegroup(v, factor, Pow(factor, k - 1));
  }

  lemma TimesRegroup(a: nat, b: nat, c: nat)
    ensures a * (b * c) == a * c * b == a * b * c
  {
  }

  /** Multiplying on from any of the values below the maximum ends at the same one. */
  lemma {:induction false} LastIsSame(v: nat, max: nat, factor: nat, k: nat)
    requires 0 < v < max && factor > 1 && v * Pow(factor, k) < max
    ensures 0 < v * Pow(factor, k) && LastBelow(v * Pow(factor, k), max, factor) == LastBelow(v, max, factor)
  {
    if k == 0 {
      assert v * Pow(factor, 0) == v;
    } else {
      NextPower(v, factor, k);
      var before := v * Pow(factor, k - 1);
      PowPositive(factor, k - 1);
      TimesAtLeast(v, Pow(factor, k - 1));
      TimesGrows(before, factor);
      LastIsSame(v, max, factor, k - 1);
    }
  }

  /** The last value below the maximum is one of the delays promised. */
  lemma {:induction false} LastIsReached(v: nat, max: nat, factor: nat) returns (k: nat)
    requires 0 < v < max && factor > 1
    ensures v * Pow(factor, k) == LastBelow(v, max, factor)
    decreases max - v
  {
    TimesGrows(v, factor);
    if v * factor < max {
      var n := LastIsReached(v * factor, max, factor);
      k := n + 1;
      hide Pow;
      NextPower(v, factor, k);
    } else {
      k := 0;
      assert v * Pow(factor, 0) == v;
    }
  }

  /** The steps that can wrap: the one from the maximum, and the one that comes to it. */
  predicate ExponentialIsSafe(min: Uint32, max: Uint32, factor: Uint32)
    requires min <= max && factor > 1
  {
    min == 0 || min == max || (!WrapsLow(min, max, factor, max) && !WrapsLow(min, max, factor, LastBelow(min, max, factor)))
  }

  lemma ExponentialStepIsExact(min: Uint32, max: Uint32, factor: Uint32, k: nat)
    requires min <= max && factor > 1 && ExponentialIsSafe(min, max, factor)
    ensures StepIsExact(min, max, factor, k)
  {
    PromisedBounds(min, max, factor, k);
    var exact := min * Pow(factor, k);
    if min == 0 {
      assert 0 * Pow(factor, k) == 0;
    } else if min < max && exact < max {
      LastIsSame(min, max, factor, k);
      assert exact * factor < max || LastBelow(exact, max, factor) == exact;
    }
  }

  /**
   * With the exponential policy all delays are the promised ones if and only if neither the maximum nor the last
   * value below it, multiplied once more, wraps to less than the maximum, or the limits are equal, or the minimum is 0.
   */
  lemma ExponentialPromiseIff(min: Uint32, max: Uint32, factor: Uint32)
    requires min <= max && factor > 1
    ensures (forall n: nat :: KeepsPromise(min, max, factor, n)) <==> ExponentialIsSafe(min, max, factor)
  {
    if ExponentialIsSafe(min, max, factor) {
      forall n: nat ensures KeepsPromise(min, max, factor, n) {
        forall k: nat ensures StepIsExact(min, max, factor, k) {
          ExponentialStepIsExact(min, max, factor, k);
        }
        PromiseIff(min, max, factor, n);
      }
    } else {
      var k := LastIsReached(min, max, factor);
      NextPower(min, factor, k + 1);
      hide Pow, WrapsLow;
      assert Promised(min, max, factor, k) == LastBelow(min, max, factor) && Promised(min, max, factor, k + 1) == max;
      assert !StepIsExact(min, max, factor, k) || !StepIsExact(min, max, factor, k + 1);
      assert !NeverWrapsLow(min, max, factor, k + 2);
      PromiseIff(min, max, factor, k + 2);
    }
  }

  lemma TimesMonotone(a: nat, b: nat, c: nat)
    requires a <= b
    ensures a * c <= b * c
  {
  }

  /** Settings that wrap: doubling 2^31 gives 0, so the delay stays at the minimum instead of growing. */
  lemma PromiseCanFail()
    ensures Delay(0x8000_0000, 0xC000_0000, 2, 1) == 0x8000_0000
    ensures Promised(0x8000_0000, 0xC000_0000, 2, 1) == 0xC000_0000
  {
    assert Delay(0x8000_0000, 0xC000_0000, 2, 0) == 0x8000_0000;
    assert Pow(2, 1) == 2 * Pow(2, 0) == 2;
  }

  // ---------------------------------------------------------------------------------------------
  // Retries
  // ---------------------------------------------------------------------------------------------

  /** What `reconn_setting_can_retry` answers when it has counted up to `cnt`. */
  predicate MayRetry(maxRetryCnt: Uint32, cnt: Uint32) {
    maxRetryCnt == INFINITE || cnt < maxRetryCnt
  }

  /** The answers of `n` calls in a row, the counter being at `cnt` before the first. */
  function Answers(maxRetryCnt: Uint32, cnt: Uint32, n: nat): (answers: seq<bool>)
    ensures |answers| == n
    decreases n
  {
    if n == 0 then []
    else
      var next := (cnt + 1) % LIMIT;
      [MayRetry(maxRetryCnt, next)] + Answers(maxRetryCnt, next, n - 1)
  }

  lemma CountOn(cnt: Uint32, k: nat)
    ensures ((cnt + 1) % LIMIT + k) % LIMIT == (cnt + k + 1) % LIMIT
  {
    if cnt + 1 == LIMIT {
      assert (cnt + k + 1) % LIMIT == (k + LIMIT) % LIMIT == k % LIMIT;
    }
  }

  lemma {:induction false} AnswerAt(maxRetryCnt: Uint32, cnt: Uint32, n: nat, k: nat)
    requires k < n
    ensures Answers(maxRetryCnt, cnt, n)[k] == MayRetry(maxRetryCnt, (cnt + k + 1) % LIMIT)
    decreases n
  {
    hide MayRetry;
    if k > 0 {
      var next := (cnt + 1) % LIMIT;
      AnswerAt(maxRetryCnt, next, n - 1, k - 1);
      CountOn(cnt, k);
    }
  }

  /**
   * From a reset, a finite limit m >= 1 allows the first m - 1 of any number of retries and refuses the next
   * ones, but for call number 2^32, which finds the counter at 0; and it is so again in every round of 2^32 calls.
   */
  lemma RetriesBeforeRefusal(maxRetryCnt: Uint32, n: nat, k: nat)
    requires 1 <= maxRetryCnt < INFINITE && k < n
    ensures k + 1 < LIMIT ==> (Answers(maxRetryCnt, 0, n)[k] <==> k < maxRetryCnt - 1)
    ensures k + 1 == LIMIT ==> Answers(maxRetryCnt, 0, n)[k]
    ensures k >= LIMIT ==> Answers(maxRetryCnt, 0, n)[k] == Answers(maxRetryCnt, 0, n)[k - LIMIT]
  {
    hide Answers;
    AnswerAt(maxRetryCnt, 0, n, k);
    if k >= LIMIT {
      AnswerAt(maxRetryCnt, 0, n, k - LIMIT);
      hide MayRetry;
      RoundBefore(k + 1);
    } else {
      CountIs(k + 1);
    }
  }

  lemma RoundBefore(n: nat)
    requires n >= LIMIT
    ensures n % LIMIT == (n - LIMIT) % LIMIT
  {
  }

  lemma CountIs(n: nat)
    requires n <= LIMIT
    ensures n % LIMIT == if n == LIMIT then 0 else n
  {
  }

  lemma NextCount(n: nat)
    ensures (n % LIMIT + 1) % LIMIT == (n + 1) % LIMIT
  {
  }

  lemma DelayStep(min: Uint32, max: Uint32, policy: Uint32, n: nat)
    ensures Delay(min, max, policy, n) == NextDelay(min, max, policy, if n == 0 then 0 else Delay(min, max, policy, n - 1))
  {
  }

  class ReconnSetting {
    var minDelay: Uint32
    var maxDelay: Uint32
    var curDelay: Uint32
    var delayPolicy: Uint32
    var maxRetryCnt: Uint32
    var curRetryCnt: Uint32

    /** `reconn_setting_init`. */
    constructor ()
      ensures minDelay == 1000 && maxDelay == 60000 && delayPolicy == 2 && maxRetryCnt == INFINITE
      ensures curDelay == 0 && curRetryCnt == 0
    {
      minDelay, maxDelay, delayPolicy, maxRetryCnt := 1000, 60000, 2, INFINITE;
      curDelay, curRetryCnt := 0, 0;
    }

    method Reset()
      modifies `curDelay, `curRetryCnt
      ensures curDelay == 0 && curRetryCnt == 0
    {
      curDelay, curRetryCnt := 0, 0;
    }

    method CanRetry() returns (may: bool)
      modifies `curRetryCnt
      ensures curRetryCnt == (old(curRetryCnt) + 1) % LIMIT
      ensures may == MayRetry(maxRetryCnt, curRetryCnt)
    {
      curRetryCnt := (curRetryCnt + 1) % LIMIT;
      may := maxRetryCnt == INFINITE || curRetryCnt < maxRetryCnt;
    }

    method CalcDelay() returns (delay: Uint32)
      modifies `curDelay
      ensures delay == curDelay == NextDelay(minDelay, maxDelay, delayPolicy, old(curDelay))
    {
      if delayPolicy == 0 {
        curDelay := minDelay;
      } else if delayPolicy == 1 {
        curDelay := (curDelay + minDelay) % LIMIT;
      } else {
        curDelay := curDelay * delayPolicy % LIMIT;
      }
      if curDelay < minDelay {
        curDelay := minDelay;
      }
      if curDelay > maxDelay {
        curDelay := maxDelay;
      }
      delay := curDelay;
    }

    /**
     * `startReconnect` after `startReconnect`, from a reset, until a retry is refused or `attempts` have been
     * made: the delays of the timeouts that are set.
     */
    method Session(attempts: nat) returns (delays: seq<Uint32>)
      modifies this
      ensures |delays| == if maxRetryCnt == INFINITE || attempts < maxRetryCnt then attempts else Max(maxRetryCnt - 1, 0)
      ensures forall k :: 0 <= k < |delays| ==> delays[k] == Delay(minDelay, maxDelay, delayPolicy, k)
      ensures minDelay == old(minDelay) && maxDelay == old(maxDelay) && delayPolicy == old(delayPolicy) && maxRetryCnt == old(maxRetryCnt)
    {
      hide NextDelay, Delay;
      Reset();
      delays := [];
      while |delays| < attempts
        invariant |delays| <= attempts && curRetryCnt == |delays| % LIMIT
        invariant maxRetryCnt == INFINITE || |delays| <= Max(maxRetryCnt - 1, 0)
        invariant curDelay == if |delays| == 0 then 0 else Delay(minDelay, maxDelay, delayPolicy, |delays| - 1)
        invariant forall k :: 0 <= k < |delays| ==> delays[k] == Delay(minDelay, maxDelay, delayPolicy, k)
        invariant minDelay == old(minDelay) && maxDelay == old(maxDelay) && delayPolicy == old(delayPolicy) && maxRetryCnt == old(maxRetryCnt)
        decreases attempts - |delays|
      {
        var may := CanRetry();
        assert curRetryCnt == (|delays| + 1) % LIMIT by { NextCount(|delays|); }
        if !may {
          return;
        }
        DelayStep(minDelay, maxDelay, delayPolicy, |delays|);
        var delay := CalcDelay();
        delays := delays + [delay];
      }
    }
  }
}
