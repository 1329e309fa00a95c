/** `FreeRTOSConditionVariable`: a binary semaphore with condition-variable
    waits; notifies before a take coalesce into one token. The tick timeout
    (`pdMS_TO_TICKS` of the milliseconds) is a parameter. */
module FreeRtosCondVar {
  import opened Wire
  import opened WaitLoop

  class FreeRtosConditionVariable {
    /// `m_sem != NULL`.
    var hasSem: bool
    /// Whether the binary semaphore is given (one token at most).
    var tokens: nat

    ghost predicate Valid()
      reads this
    {
      tokens <= 1
    }

    /// `FreeRTOSConditionVariable()`: `semOk` is what xSemaphoreCreateBinary delivers.
    constructor (semOk: bool)
      ensures Valid() && hasSem == semOk && tokens == 0
    {
      hasSem, tokens := semOk, 0;
    }

    /// `notify_one()`: nothing without a semaphore; otherwise the semaphore
    /// is given, and a second give before a take adds nothing.
    method NotifyOne()
      requires Valid()
      modifies this
      ensures Valid() && hasSem == old(hasSem)
      ensures tokens == (if hasSem then 1 else old(tokens))
    {
      if !hasSem { return; }
      tokens := 1;
    }

    /// `wait(lock, pred)` over the predicate values seen at its tests.
    method Wait(preds: seq<bool>) returns (returned: bool, takes: nat)
      requires Valid() && hasSem
      modifies this
      ensures Valid() && hasSem
      ensures WaitOutcome(returned, takes, tokens) == WaitSpec(preds, old(tokens))
    {
      WaitReturnsAtFirstTrue(preds, tokens);
      returned, takes, tokens := WaitTakes(preds, tokens);
    }

    /// `wait_for(lock, timeout, pred)` with `timeoutTicks` the converted
    /// timeout and `start` xTaskGetTickCount() on entry.
    method WaitFor(timeoutTicks: u32, start: u32, rounds: seq<Round>) returns (result: Option<bool>, waits: seq<u32>)
      requires Valid() && hasSem
      modifies this
      ensures Valid() && hasSem
      ensures WaitForOutcome(result, tokens, waits) == WaitForSpec(rounds, timeoutTicks, start, old(tokens))
    {
      TokensNeverGrow(rounds, timeoutTicks, start, tokens);
      result, tokens, waits := WaitForRounds(timeoutTicks, start, tokens, rounds);
    }
  }

  /// A wait_for never leaves more tokens than it found.
  lemma {:induction false} TokensNeverGrow(rounds: seq<Round>, timeout: u32, start: u32, tokens: nat)
    ensures WaitForSpec(rounds, timeout, start, tokens).tokens <= tokens
  {
    if |rounds| > 0 && !rounds[0].ready && Elapsed(start, rounds[0].now) < timeout {
      TokensNeverGrow(rounds[1..], timeout, start, if tokens > 0 then tokens - 1 else 0);
    }
  }
}
