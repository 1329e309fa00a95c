/** `ThreadXConditionVariable`: a counting semaphore (initial count 0) with
    condition-variable waits. `wait_for` converts its millisecond timeout to
    ticks in 64-bit arithmetic, with a one-tick minimum and a cap at the
    largest 32-bit wait. */
module ThreadXCondVar {
  import opened Wire
  import opened WaitLoop

  /// The representation of `std::chrono::milliseconds`: a signed 64-bit count.
  newtype i64 = x: int | -0x8000_0000_0000_0000 <= x < 0x8000_0000_0000_0000

  /// `static_cast<unsigned long long>(ms) * ticksPerSec / 1000ULL`: the
  /// count reinterpreted as unsigned, the product taken modulo 2^64.
  function TotalTicks(ms: i64, tps: u32): nat
  {
    (((ms as int) % 0x1_0000_0000_0000_0000) * (tps as int)) % 0x1_0000_0000_0000_0000 / 1000
  }

  /// The tick timeout as the code computes it: at least one tick for a
  /// positive count, at most `0xFFFFFFFF`.
  function AsWrittenTicks(ms: i64, tps: u32): u32
  {
    var total := TotalTicks(ms, tps);
    var atLeastOne := if total == 0 && ms > 0 then 1 else total;
    if atLeastOne > TICK_MAX as nat then TICK_MAX else atLeastOne as u32
  }

  /// The tick timeout with a negative count taken as no time at all (the
  /// timeout `wait_for` is used with in this model).
  function TimeoutTicks(ms: i64, tps: u32): u32
  {
    if ms < 0 then 0 else AsWrittenTicks(ms, tps)
  }

  /// For counts that are not negative the two agree.
  lemma CorrectedAgrees(ms: i64, tps: u32)
    requires ms >= 0
    ensures TimeoutTicks(ms, tps) == AsWrittenTicks(ms, tps)
  {
  }

  /// A negative count as written: `-1` ms at 1000 ticks per second gives
  /// `0xFFFFFFFF` ticks (TX_WAIT_FOREVER) instead of no time.
  lemma NegativeTimeoutWaitsForever()
    ensures AsWrittenTicks(-1, 1000) == TICK_MAX
    ensures WaitForSpec([Round(false, 0, false, false)], AsWrittenTicks(-1, 1000), 0, 0).waits == [TICK_MAX]
    ensures TimeoutTicks(-1, 1000) == 0
  {
    assert (-1 as int) % 0x1_0000_0000_0000_0000 == 0xFFFF_FFFF_FFFF_FFFF;
    assert (0xFFFF_FFFF_FFFF_FFFF * 1000) % 0x1_0000_0000_0000_0000 == 0x1_0000_0000_0000_0000 - 1000;
  }

  /// With the correction a negative timeout tests the predicate and
  /// returns without taking the semaphore.
  lemma NegativeNeverWaits(ms: i64, tps: u32, rounds: seq<Round>, start: u32, tokens: nat)
    requires ms < 0 && |rounds| > 0
    ensures WaitForSpec(rounds, TimeoutTicks(ms, tps), start, tokens).waits == []
    ensures WaitForSpec(rounds, TimeoutTicks(ms, tps), start, tokens).result == Some(rounds[0].ready || rounds[0].late)
  {
    ZeroTimeoutNeverWaits(rounds, start, tokens);
  }

  /// A positive timeout never becomes zero ticks.
  lemma PositiveNeverZero(ms: i64, tps: u32)
    requires ms > 0
    ensures TimeoutTicks(ms, tps) >= 1
  {
  }

  /// Zero milliseconds are zero ticks, and a negative count, corrected, is too.
  lemma NonPositiveIsZero(ms: i64, tps: u32)
    requires ms <= 0
    ensures TimeoutTicks(ms, tps) == 0
  {
    if ms == 0 {
      assert TotalTicks(ms, tps) == 0;
    }
  }

  /// Where the 64-bit product does not overflow and neither the minimum
  /// nor the cap applies, the timeout is the requested time rounded down
  /// to whole ticks.
  lemma RoundsDown(ms: i64, tps: u32)
    requires ms > 0 && (ms as int) * (tps as int) < 0x1_0000_0000_0000_0000
    requires 1 < TimeoutTicks(ms, tps) < TICK_MAX
    ensures TimeoutTicks(ms, tps) as int * 1000 <= (ms as int) * (tps as int) < (TimeoutTicks(ms, tps) as int + 1) * 1000
  {
    var p := (ms as int) * (tps as int);
    assert (ms as int) % 0x1_0000_0000_0000_0000 == ms as int;
    assert p % 0x1_0000_0000_0000_0000 == p;
    assert TotalTicks(ms, tps) == p / 1000;
  }

  /// A timeout longer than the largest 32-bit wait is capped at it.
  lemma CapsLongTimeouts(ms: i64, tps: u32)
    requires ms > 0 && (ms as int) * (tps as int) < 0x1_0000_0000_0000_0000
    requires (ms as int) * (tps as int) / 1000 >= TICK_MAX as int
    ensures TimeoutTicks(ms, tps) == TICK_MAX
  {
    var p := (ms as int) * (tps as int);
    assert (ms as int) % 0x1_0000_0000_0000_0000 == ms as int;
    assert p % 0x1_0000_0000_0000_0000 == p;
  }

  class ThreadXConditionVariable {
    /// The semaphore's count.
    var tokens: nat

    constructor ()
      ensures tokens == 0
    {
      tokens := 0;
    }

    /// `notify_one()`: one more token, kept until a take (a notify before a
    /// wait is not lost).
    method NotifyOne()
      modifies this
      ensures tokens == old(tokens) + 1
    {
      tokens := tokens + 1;
    }

    /// `wait(lock, pred)` over the predicate values seen at its tests.
    method Wait(preds: seq<bool>) returns (returned: bool, takes: nat)
      modifies this
      ensures WaitOutcome(returned, takes, tokens) == WaitSpec(preds, old(tokens))
    {
      returned, takes, tokens := WaitTakes(preds, tokens);
    }

    /// `wait_for(lock, timeout, pred)` for `ms` milliseconds at `tps` ticks
    /// per second, `start` being tx_time_get() on entry.
    method WaitFor(ms: i64, tps: u32, start: u32, rounds: seq<Round>) returns (result: Option<bool>, waits: seq<u32>)
      modifies this
      ensures WaitForOutcome(result, tokens, waits) == WaitForSpec(rounds, TimeoutTicks(ms, tps), start, old(tokens))
    {
      var totalTicks := TotalTicks(ms, tps);
      if ms < 0 { totalTicks := 0; }
      if totalTicks == 0 && ms > 0 { totalTicks := 1; }
      var timeoutTicks: u32 := if totalTicks > TICK_MAX as nat then TICK_MAX else totalTicks as u32;
      result, tokens, waits := WaitForRounds(timeoutTicks, start, tokens, rounds);
    }
  }
}
