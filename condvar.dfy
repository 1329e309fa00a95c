/** The waiting loops shared by the ThreadX and FreeRTOS condition
    variables. Both wrap a semaphore: `wait` re-tests the predicate after
    every take, and `wait_for` bounds the total wait by a tick timeout,
    measuring elapsed ticks by unsigned subtraction. What the predicate,
    the tick counter and the semaphore report is an observed trace. */
module WaitLoop {
  import opened Wire

  /// An unsigned 32-bit value: ThreadX `ULONG` and FreeRTOS `TickType_t`
  /// (ported with 32-bit ticks).
  newtype u32 = x: int | 0 <= x < 0x1_0000_0000

  const TICK_MAX: u32 := 0xFFFF_FFFF

  /// `now - start` in unsigned 32-bit arithmetic.
  function Elapsed(start: u32, now: u32): u32
  {
    ((now as int - start as int) % 0x1_0000_0000) as u32
  }

  /// The elapsed count is exact across a wrap of the tick counter: for any
  /// real tick counts `t0` and `t0 + d` with `d` below 2^32, it is `d`.
  lemma ElapsedAcrossWrap(t0: nat, d: nat)
    requires d < 0x1_0000_0000
    ensures Elapsed((t0 % 0x1_0000_0000) as u32, ((t0 + d) % 0x1_0000_0000) as u32) as int == d
  {
    var q0, r0 := t0 / 0x1_0000_0000, t0 % 0x1_0000_0000;
    var q1, r1 := (t0 + d) / 0x1_0000_0000, (t0 + d) % 0x1_0000_0000;
    var k := q1 - q0;
    assert r1 - r0 == d - k * 0x1_0000_0000;
    assert k == 0 || k == 1;
    if k == 0 {
      assert d % 0x1_0000_0000 == d;
    } else {
      assert r1 - r0 == d - 0x1_0000_0000;
      assert (d - 0x1_0000_0000) % 0x1_0000_0000 == d;
    }
  }

  /// One pass of `wait_for`'s loop, as its environment answers: the
  /// predicate at the loop test, the tick counter read next, whether a
  /// semaphore take that finds no token ends with a notify (rather than its
  /// timeout), and the predicate re-read on a returning path.
  datatype Round = Round(ready: bool, now: u32, woken: bool, late: bool)

  /// What `wait_for` does: its result (None while the trace ends before the
  /// call returns), the semaphore's tokens afterwards, and the timeout of
  /// every semaphore take, in order.
  datatype WaitForOutcome = WaitForOutcome(result: Option<bool>, tokens: nat, waits: seq<u32>)

  /// `wait_for` with `timeout` ticks and `start` the tick count read on
  /// entry, over the semaphore's `tokens` and the observed rounds. A take
  /// finds a token when one is there and consumes it.
  function WaitForSpec(rounds: seq<Round>, timeout: u32, start: u32, tokens: nat): WaitForOutcome
    decreases |rounds|
  {
    if |rounds| == 0 then WaitForOutcome(None, tokens, [])
    else
      var r := rounds[0];
      if r.ready then WaitForOutcome(Some(true), tokens, [])
      else
        var e := Elapsed(start, r.now);
        if e >= timeout then WaitForOutcome(Some(r.late), tokens, [])
        else
          var rem := timeout - e;
          var t1 := if tokens > 0 then tokens - 1 else 0;
          if tokens == 0 && !r.woken then WaitForOutcome(Some(r.late), t1, [rem])
          else
            var o := WaitForSpec(rounds[1..], timeout, start, t1);
            o.(waits := [rem] + o.waits)
  }

  /// A predicate that already holds returns true without waiting.
  lemma ReadyReturnsAtOnce(rounds: seq<Round>, timeout: u32, start: u32, tokens: nat)
    requires |rounds| > 0 && rounds[0].ready
    ensures WaitForSpec(rounds, timeout, start, tokens) == WaitForOutcome(Some(true), tokens, [])
  {
  }

  /// Once the elapsed ticks reach the timeout, the result is the predicate
  /// re-read, with no further wait.
  lemma ExpiredReturnsPredicate(rounds: seq<Round>, timeout: u32, start: u32, tokens: nat)
    requires |rounds| > 0 && !rounds[0].ready && Elapsed(start, rounds[0].now) >= timeout
    ensures WaitForSpec(rounds, timeout, start, tokens) == WaitForOutcome(Some(rounds[0].late), tokens, [])
  {
  }

  /// With a zero timeout there is never a wait.
  lemma ZeroTimeoutNeverWaits(rounds: seq<Round>, start: u32, tokens: nat)
    requires |rounds| > 0
    ensures WaitForSpec(rounds, 0, start, tokens).waits == []
    ensures WaitForSpec(rounds, 0, start, tokens).result == Some(rounds[0].ready || rounds[0].late)
  {
  }

  /// Every take waits a positive number of ticks and ends no later than the
  /// deadline: the elapsed ticks of its round plus its wait are the timeout.
  lemma {:induction false} WaitsEndAtDeadline(rounds: seq<Round>, timeout: u32, start: u32, tokens: nat)
    ensures var o := WaitForSpec(rounds, timeout, start, tokens);
      |o.waits| <= |rounds| &&
      forall k :: 0 <= k < |o.waits| ==>
        0 < o.waits[k] <= timeout && Elapsed(start, rounds[k].now) as int + o.waits[k] as int == timeout as int
  {
    if |rounds| > 0 && !rounds[0].ready && Elapsed(start, rounds[0].now) < timeout {
      var t1 := if tokens > 0 then tokens - 1 else 0;
      if tokens > 0 || rounds[0].woken {
        WaitsEndAtDeadline(rounds[1..], timeout, start, t1);
        var o1 := WaitForSpec(rounds[1..], timeout, start, t1);
        var o := WaitForSpec(rounds, timeout, start, tokens);
        assert o.waits == [timeout - Elapsed(start, rounds[0].now)] + o1.waits;
        forall k | 1 <= k < |o.waits|
          ensures Elapsed(start, rounds[k].now) as int + o.waits[k] as int == timeout as int
        {
          assert o.waits[k] == o1.waits[k - 1];
          assert rounds[k] == rounds[1..][k - 1];
        }
      }
    }
  }

  /// A true result means the predicate was seen to hold.
  lemma {:induction false} TrueOnlyWhenSeen(rounds: seq<Round>, timeout: u32, start: u32, tokens: nat)
    requires WaitForSpec(rounds, timeout, start, tokens).result == Some(true)
    ensures exists k :: 0 <= k < |rounds| && (rounds[k].ready || rounds[k].late)
  {
    var r := rounds[0];
    if !r.ready && Elapsed(start, r.now) < timeout && (tokens > 0 || r.woken) {
      var t1 := if tokens > 0 then tokens - 1 else 0;
      TrueOnlyWhenSeen(rounds[1..], timeout, start, t1);
      var k :| 0 <= k < |rounds[1..]| && (rounds[1..][k].ready || rounds[1..][k].late);
      assert rounds[k + 1] == rounds[1..][k];
    }
  }

  /// A token left by an earlier notify is consumed by the first take,
  /// whether or not a notify arrives during it.
  lemma TokenFallsThrough(rounds: seq<Round>, timeout: u32, start: u32, tokens: nat)
    requires |rounds| > 0 && !rounds[0].ready && Elapsed(start, rounds[0].now) < timeout && tokens > 0
    ensures var o1 := WaitForSpec(rounds[1..], timeout, start, tokens - 1);
      WaitForSpec(rounds, timeout, start, tokens) == o1.(waits := [timeout - Elapsed(start, rounds[0].now)] + o1.waits)
  {
  }

  /// What `wait` does: whether it returned within the observed predicate
  /// values, how many takes it made, and the tokens left.
  datatype WaitOutcome = WaitOutcome(returned: bool, takes: nat, tokens: nat)

  /// `wait` over the predicate values seen at successive loop tests: each
  /// false value is followed by a take, which consumes a token already
  /// there or one a later notify provides.
  function WaitSpec(preds: seq<bool>, tokens: nat): WaitOutcome
    decreases |preds|
  {
    if |preds| == 0 then WaitOutcome(false, 0, tokens)
    else if preds[0] then WaitOutcome(true, 0, tokens)
    else
      var o := WaitSpec(preds[1..], if tokens > 0 then tokens - 1 else 0);
      o.(takes := o.takes + 1)
  }

  /// `wait` returns exactly when the predicate is seen to hold, at the
  /// first such test, after one take per earlier test; the tokens it finds
  /// are used first.
  lemma {:induction false} WaitReturnsAtFirstTrue(preds: seq<bool>, tokens: nat)
    ensures var o := WaitSpec(preds, tokens);
      (o.returned <==> exists k :: 0 <= k < |preds| && preds[k]) &&
      (o.returned ==> o.takes < |preds| && preds[o.takes] && forall k :: 0 <= k < o.takes ==> !preds[k]) &&
      o.tokens == (if tokens >= o.takes then tokens - o.takes else 0)
  {
    if |preds| > 0 && !preds[0] {
      var t1 := if tokens > 0 then tokens - 1 else 0;
      WaitReturnsAtFirstTrue(preds[1..], t1);
      var o1 := WaitSpec(preds[1..], t1);
      var o := WaitSpec(preds, tokens);
      if o.returned {
        forall k | 0 <= k < o.takes
          ensures !preds[k]
        {
          if k > 0 { assert preds[k] == preds[1..][k - 1]; }
        }
        assert preds[o.takes] == preds[1..][o1.takes];
      }
      if exists k :: 0 <= k < |preds| && preds[k] {
        var k :| 0 <= k < |preds| && preds[k];
        assert k > 0 && preds[1..][k - 1];
      }
    }
  }

  /// The loop of `wait`: one take per false test until a true one, over
  /// the semaphore's `tokens`.
  method WaitTakes(preds: seq<bool>, tokens: nat) returns (returned: bool, takes: nat, tokensOut: nat)
    ensures WaitOutcome(returned, takes, tokensOut) == WaitSpec(preds, tokens)
  {
    var i := 0;
    tokensOut := tokens;
    while i < |preds| && !preds[i]
      invariant 0 <= i <= |preds|
      invariant var o := WaitSpec(preds[i..], tokensOut); WaitSpec(preds, tokens) == o.(takes := o.takes + i)
    {
      assert preds[i..][1..] == preds[i + 1..];
      if tokensOut > 0 { tokensOut := tokensOut - 1; }
      i := i + 1;
    }
    returned, takes := i < |preds|, i;
  }

  /// The loop of `wait_for` for a timeout in ticks.
  method WaitForRounds(timeout: u32, start: u32, tokens: nat, rounds: seq<Round>)
    returns (result: Option<bool>, tokensOut: nat, waits: seq<u32>)
    ensures WaitForOutcome(result, tokensOut, waits) == WaitForSpec(rounds, timeout, start, tokens)
  {
    var i := 0;
    tokensOut, waits := tokens, [];
    while true
      invariant 0 <= i <= |rounds|
      invariant var o := WaitForSpec(rounds[i..], timeout, start, tokensOut);
        WaitForSpec(rounds, timeout, start, tokens) == o.(waits := waits + o.waits)
      decreases |rounds| - i
    {
      if i == |rounds| { return None, tokensOut, waits; }
      var r := rounds[i];
      if r.ready { return Some(true), tokensOut, waits; }
      var elapsed := Elapsed(start, r.now);
      if elapsed >= timeout { return Some(r.late), tokensOut, waits; }
      var remaining := timeout - elapsed;
      var t1 := if tokensOut > 0 then tokensOut - 1 else 0;
      assert rounds[i..][1..] == rounds[i + 1..];
      Regroup(waits, remaining, WaitForSpec(rounds[i + 1..], timeout, start, t1).waits);
      waits := waits + [remaining];
      var got := tokensOut > 0 || r.woken;
      tokensOut := t1;
      if !got { return Some(r.late), tokensOut, waits; }
      i := i + 1;
    }
  }

  lemma Regroup<T>(a: seq<T>, x: T, b: seq<T>)
    ensures a + [x] + b == a + ([x] + b)
  {
  }
}
