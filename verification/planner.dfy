/**
 * Range planning: the integer arithmetic that fixes the first and last
 * height queried. All of it is unsigned, so every addition that can leave
 * the type is an explicit `Panic(Overflow)` (the Rust code's checked
 * arithmetic), and the subtractions are either guarded or saturating.
 */
module Planner {
  import opened Outcomes

  /** Heights 0 and 1 are never queried. */
  const Floor: nat := 2

  /** new_only's three ways to pick the first height. */
  datatype Policy = Buffered | ExplicitStart(start: U32) | Strict

  /**
   * `--strict` and `--start` together trip the `assert!` before any other
   * work (new_only.rs:59-62); otherwise the flags pick one policy, the match
   * at new_only.rs:143-148.
   */
  function SelectPolicy(strict: bool, start: Option<U32>): (r: Outcome<Policy>)
    ensures r.Panic? <==> strict && start.Some?
    ensures r.Panic? ==> r.site == ConflictingFlags
    ensures r.Ok? ==> (r.value.Strict? <==> strict)
    ensures r.Ok? ==> (r.value.ExplicitStart? <==> start.Some?)
    ensures r.Ok? && start.Some? ==> r.value.start == start.value
  {
    if strict && start.Some? then Panic(ConflictingFlags)
    else if strict then Ok(Strict)
    else if start.Some? then Ok(ExplicitStart(start.value))
    else Ok(Buffered)
  }

  /**
   * new_only's first height (new_only.rs:143-148):
   * buffered `2.max(our_max.max(buffer) - buffer)`, which never underflows
   * and is `max(2, our_max - buffer)` when `our_max >= buffer` and 2 otherwise;
   * explicit: the given height as it is;
   * strict `2.max(our_max + 1)`: above every height we hold, and an overflow
   * only when `our_max` is `u32::MAX`.
   */
  function NewOnlyStart(policy: Policy, ourMax: U32, buffer: U32): (r: Outcome<U32>)
    ensures policy.Buffered? ==> r.Ok? && r.value >= Floor
    ensures policy.Buffered? && ourMax >= buffer ==> r == Ok(Max(Floor, ourMax - buffer))
    ensures policy.Buffered? && ourMax < buffer ==> r == Ok(Floor)
    ensures policy.ExplicitStart? ==> r == Ok(policy.start)
    ensures policy.Strict? ==> (r.Ok? <==> ourMax + 1 < U32Limit)
    ensures policy.Strict? && r.Ok? ==> r.value > ourMax && r.value >= Floor
    ensures policy.Strict? && r.Ok? && ourMax >= 1 ==> r.value == ourMax + 1
    ensures r.Panic? ==> r.site == Overflow
    ensures !r.Err?
  {
    match policy
    case Buffered => Ok(Max(Floor, Max(ourMax, buffer) - buffer))
    case ExplicitStart(start) => Ok(start)
    case Strict =>
      if ourMax + 1 < U32Limit then Ok(Max(Floor, ourMax + 1)) else Panic(Overflow)
  }

  /**
   * new_only's last height `our_max + minutes / 3 + 1` (new_only.rs:139):
   * one height per three minutes since the newest local block, plus one,
   * so always above `our_max` unless the `u32` sum overflows.
   */
  function NewOnlyEnd(ourMax: U32, minutes: U32): (r: Outcome<U32>)
    ensures r.Ok? <==> ourMax + minutes / 3 + 1 < U32Limit
    ensures r.Ok? ==> ourMax < r.value && r.value - ourMax - 1 == minutes / 3
    ensures r.Panic? ==> r.site == Overflow
    ensures !r.Err?
  {
    var end := ourMax + minutes / 3 + 1;
    if end < U32Limit then Ok(end) else Panic(Overflow)
  }

  /**
   * new_only computes the last height (line 139) before the first (line
   * 143), so the strict start's `our_max + 1` cannot overflow once the last
   * height did not: whenever the last height fits, so does every start.
   */
  lemma StartBeforeEndOverflow(policy: Policy, ourMax: U32, buffer: U32, minutes: U32)
    requires NewOnlyEnd(ourMax, minutes).Ok?
    ensures NewOnlyStart(policy, ourMax, buffer).Ok?
  {
  }

  /** `u32::saturating_sub`. */
  function SaturatingSub(a: U32, b: U32): (r: U32)
    ensures a >= b ==> r == a - b
    ensures a < b ==> r == 0
  {
    if a >= b then a - b else 0
  }

  /**
   * The loop's first height `2.max(max.saturating_sub(buffer))`
   * (continuous_loop.rs:124): at least 2, never above `max(2, max)`,
   * `max - buffer` when that is at least 2 and 2 otherwise.
   */
  function LoopStart(max: U32, buffer: U32): (r: U32)
    ensures Floor <= r <= Max(Floor, max)
    ensures max >= buffer + Floor ==> r == max - buffer
    ensures max < buffer + Floor ==> r == Floor
  {
    Max(Floor, SaturatingSub(max, buffer))
  }

  /** The loop's last height `max + additional` (continuous_loop.rs:125), in `u32`. */
  function LoopEnd(max: U32, additional: U32): (r: Outcome<U32>)
    ensures r.Ok? <==> max + additional < U32Limit
    ensures r.Ok? ==> max <= r.value && r.value - max == additional
    ensures r.Panic? ==> r.site == Overflow
    ensures !r.Err?
  {
    if max + additional < U32Limit then Ok(max + additional) else Panic(Overflow)
  }

  /**
   * The maintenance lookahead `frequency as u32 / 3 + 1` (continuous_loop.rs:91):
   * the `as u32` cast keeps the low 32 bits of the `u64` frequency; the
   * result is at least 1 and, for frequencies that fit in 32 bits, one
   * height per three seconds plus one.
   */
  function MaintenanceLookahead(frequency: U64): (r: U32)
    ensures 1 <= r <= (U32Limit - 1) / 3 + 1
    ensures frequency < U32Limit ==> r == frequency / 3 + 1
  {
    (frequency % U32Limit) / 3 + 1
  }

  /** The truncating cast: frequencies that agree in their low 32 bits get the same lookahead. */
  lemma MaintenanceLookaheadTruncates(frequency: U64)
    requires frequency + U32Limit < U64Limit
    ensures MaintenanceLookahead(frequency + U32Limit) == MaintenanceLookahead(frequency)
  {
    assert (frequency + U32Limit) % U32Limit == frequency % U32Limit;
  }

  /** contiguous's exclusive upper bound `num + start` (contiguous.rs:51), in 64-bit `usize`. */
  function ContiguousEnd(start: U64, num: U64): (r: Outcome<U64>)
    ensures r.Ok? <==> start + num < U64Limit
    ensures r.Ok? ==> r.value >= start && r.value - start == num
    ensures r.Panic? ==> r.site == Overflow
    ensures !r.Err?
  {
    if start + num < U64Limit then Ok(start + num) else Panic(Overflow)
  }

  /** A worked window: maximum 12, buffer 5, lookahead 3 gives heights 7 to 15. */
  lemma LoopWindowExample()
    ensures LoopStart(12, 5) == 7 && LoopEnd(12, 3) == Ok(15)
  {
  }

  /** Buffered start with buffer 5: 95 above a local maximum of 100, the floor 2 above 3. */
  lemma BufferedStartExamples()
    ensures NewOnlyStart(Buffered, 100, 5) == Ok(95)
    ensures NewOnlyStart(Buffered, 3, 5) == Ok(2)
  {
  }
}
