/** The FreeRTOS `Thread`: a task with a bounded message queue and an exit
    semaphore. The task, queue and semaphore handles are modelled by whether
    they exist; the queue by its contents. Allocation results and send
    outcomes are parameters. */
module FreeRtosThread {
  import opened Wire

  /// `DEFAULT_QUEUE_SIZE`.
  const DEFAULT_QUEUE_SIZE: nat := 20
  /// The stack of a dynamically created task, in words.
  const DYNAMIC_STACK_SIZE: nat := 1024
  /// `tskIDLE_PRIORITY`, which FreeRTOS defines as 0.
  const IDLE_PRIORITY: int := 0

  /// The queue depth a thread is built with.
  function QueueSizeFor(maxQueueSize: nat): (n: nat)
    ensures n > 0
    ensures maxQueueSize != 0 ==> n == maxQueueSize
    ensures maxQueueSize == 0 ==> n == DEFAULT_QUEUE_SIZE
  {
    if maxQueueSize == 0 then DEFAULT_QUEUE_SIZE else maxQueueSize
  }

  /// The priority a thread is built with, for `configMAX_PRIORITIES`
  /// priorities: above idle, and a valid level (below the maximum) whenever
  /// there are at least two levels.
  function DefaultPriority(maxPriorities: int): (p: int)
    ensures p > IDLE_PRIORITY
    ensures maxPriorities >= 2 ==> p < maxPriorities
    ensures maxPriorities > 2 ==> p == maxPriorities - 2
  {
    if maxPriorities > 2 then maxPriorities - 2 else IDLE_PRIORITY + 1
  }

  /// The delegate message a dispatch carries, with its invoker if any.
  datatype DelegateMsg = DelegateMsg(invoker: Option<nat>)

  /// A queued `ThreadMsg*`: null, a dispatch (whose data may be null), the
  /// exit request, or a message with another id.
  datatype ThreadMsg = NullMsg | DispatchMsg(data: Option<DelegateMsg>) | ExitMsg | OtherMsg(id: int)

  /// The result of `Run`: invokers called so far, what is left in the queue,
  /// and whether it returned on an exit message.
  datatype RunResult = RunResult(invoked: seq<nat>, rest: seq<ThreadMsg>, exited: bool)

  /// The invoker a message runs, if any: only a dispatch whose data and
  /// invoker are both present.
  function InvokerOf(m: ThreadMsg): Option<nat>
  {
    if m.DispatchMsg? && m.data.Some? then m.data.value.invoker else None
  }

  /// `Run()` on the queue `q`: until an exit message (or, in this model,
  /// until the queue is empty, where the task waits for more).
  function RunSpec(q: seq<ThreadMsg>, invoked: seq<nat>): RunResult
    decreases |q|
  {
    if |q| == 0 then RunResult(invoked, [], false)
    else if q[0].ExitMsg? then RunResult(invoked, q[1..], true)
    else
      var i := InvokerOf(q[0]);
      RunSpec(q[1..], if i.Some? then invoked + [i.value] else invoked)
  }

  /// Null messages, unknown ids and dispatches without data or invoker are
  /// passed over without effect.
  lemma SkippedMessages(m: ThreadMsg, q: seq<ThreadMsg>, invoked: seq<nat>)
    requires m.NullMsg? || m.OtherMsg? || (m.DispatchMsg? && (m.data.None? || m.data.value.invoker.None?))
    ensures RunSpec([m] + q, invoked) == RunSpec(q, invoked)
  {
    assert ([m] + q)[1..] == q;
  }

  /// A dispatch with data and invoker runs that invoker, once, before the
  /// messages behind it.
  lemma DispatchInvokes(i: nat, q: seq<ThreadMsg>, invoked: seq<nat>)
    ensures RunSpec([DispatchMsg(Some(DelegateMsg(Some(i))))] + q, invoked) == RunSpec(q, invoked + [i])
  {
    assert ([DispatchMsg(Some(DelegateMsg(Some(i))))] + q)[1..] == q;
  }

  /// Every invoker run came from a dispatch message in the queue, and the
  /// invokers already run are kept.
  lemma {:induction false} InvokedCameFromQueue(q: seq<ThreadMsg>, invoked: seq<nat>)
    ensures var r := RunSpec(q, invoked);
      |invoked| <= |r.invoked| <= |invoked| + |q| && r.invoked[..|invoked|] == invoked &&
      forall k :: |invoked| <= k < |r.invoked| ==> exists j :: 0 <= j < |q| && InvokerOf(q[j]) == Some(r.invoked[k])
  {
    if |q| > 0 && !q[0].ExitMsg? {
      var i := InvokerOf(q[0]);
      var inv1 := if i.Some? then invoked + [i.value] else invoked;
      InvokedCameFromQueue(q[1..], inv1);
      var r := RunSpec(q, invoked);
      assert r == RunSpec(q[1..], inv1);
      assert r.invoked[..|invoked|] == inv1[..|invoked|];
      forall k | |invoked| <= k < |r.invoked|
        ensures exists j :: 0 <= j < |q| && InvokerOf(q[j]) == Some(r.invoked[k])
      {
        if k < |inv1| {
          assert r.invoked[k] == inv1[k];
          assert InvokerOf(q[0]) == Some(r.invoked[k]);
        } else {
          var j :| 0 <= j < |q[1..]| && InvokerOf(q[1..][j]) == Some(r.invoked[k]);
          assert InvokerOf(q[j + 1]) == Some(r.invoked[k]);
        }
      }
    }
  }

  /// An exit message ends `Run`: what is queued after it stays in the queue.
  lemma {:induction false} ExitStops(a: seq<ThreadMsg>, b: seq<ThreadMsg>, invoked: seq<nat>)
    requires forall k :: 0 <= k < |a| ==> !a[k].ExitMsg?
    ensures RunSpec(a + [ExitMsg] + b, invoked).rest == b
    ensures RunSpec(a + [ExitMsg] + b, invoked).exited
  {
    if |a| == 0 {
      assert a + [ExitMsg] + b == [ExitMsg] + b;
      assert ([ExitMsg] + b)[1..] == b;
    } else {
      assert (a + [ExitMsg] + b)[0] == a[0];
      assert (a + [ExitMsg] + b)[1..] == a[1..] + [ExitMsg] + b;
      var i := InvokerOf(a[0]);
      ExitStops(a[1..], b, if i.Some? then invoked + [i.value] else invoked);
    }
  }

  class Thread {
    /// `m_queueSize`.
    const queueSize: nat
    /// `m_priority`, and the priority the task itself runs at.
    var priority: int
    var taskPriority: int
    /// `m_queue != nullptr`, and the messages in it, front first.
    var hasQueue: bool
    var queue: seq<ThreadMsg>
    /// `m_thread != nullptr`, and how many tasks `CreateThread` has started.
    var hasThread: bool
    var tasksStarted: nat
    /// `m_exitSem != nullptr`, and whether that binary semaphore is given.
    var hasExitSem: bool
    var exitGiven: bool
    /// `m_stackBuffer` (an identity when set) and `m_stackSize` in words.
    var stackBuffer: Option<nat>
    var stackSize: nat
    /// Whether the last task was created on the static stack, and its stack in words.
    var usedStatic: bool
    var taskStackWords: nat
    /// Invokers run on the task.
    var invoked: seq<nat>
    /// A `configASSERT` fired.
    var faulted: bool

    ghost predicate Valid()
      reads this
    {
      queueSize > 0 && |queue| <= queueSize && (!hasQueue ==> queue == [])
    }

    /// `Thread(threadName, maxQueueSize)` for `configMAX_PRIORITIES` levels.
    constructor (maxQueueSize: nat, maxPriorities: int)
      ensures Valid()
      ensures queueSize == QueueSizeFor(maxQueueSize) && priority == DefaultPriority(maxPriorities)
      ensures !hasQueue && !hasThread && !hasExitSem && stackBuffer.None? && stackSize == 1024
      ensures tasksStarted == 0 && invoked == [] && !faulted && !exitGiven
    {
      queueSize := QueueSizeFor(maxQueueSize);
      priority := DefaultPriority(maxPriorities);
      taskPriority := DefaultPriority(maxPriorities);
      hasQueue, queue, hasThread, tasksStarted := false, [], false, 0;
      hasExitSem, exitGiven := false, false;
      stackBuffer, stackSize := None, 1024;
      usedStatic, taskStackWords, invoked, faulted := false, 0, [], false;
    }

    /// `SetStackMem(stackBuffer, stackSizeInWords)`: ignored for a null
    /// buffer or a zero size.
    method SetStackMem(buffer: Option<nat>, words: nat)
      modifies this`stackBuffer, this`stackSize
      ensures buffer.Some? && words > 0 ==> stackBuffer == buffer && stackSize == words
      ensures buffer.None? || words == 0 ==> stackBuffer == old(stackBuffer) && stackSize == old(stackSize)
    {
      if buffer.Some? && words > 0 {
        stackBuffer, stackSize := buffer, words;
      }
    }

    /// `CreateThread()`: `semOk`, `queueOk` and `taskOk` are what
    /// xSemaphoreCreateBinary, xQueueCreate and xTaskCreate deliver. There is
    /// no create-once guard, so every successful call starts another task.
    method CreateThread(semOk: bool, queueOk: bool, taskOk: bool) returns (ok: bool)
      requires Valid()
      modifies this
      ensures Valid() && priority == old(priority)
      ensures invoked == old(invoked) && stackBuffer == old(stackBuffer) && stackSize == old(stackSize)
      ensures hasExitSem == (old(hasExitSem) || semOk) && exitGiven == old(exitGiven)
      ensures faulted == (old(faulted) || (!old(hasExitSem) && !semOk))
      ensures ok == ((old(hasExitSem) || semOk) && (old(hasQueue) || queueOk) && (stackBuffer.Some? || taskOk))
      ensures hasQueue == ((old(hasExitSem) || semOk) && (old(hasQueue) || queueOk)) || old(hasQueue)
      ensures queue == (if old(hasQueue) then old(queue) else [])
      ensures ok ==> hasThread && tasksStarted == old(tasksStarted) + 1 && taskPriority == priority
      ensures ok ==> usedStatic == stackBuffer.Some? && taskStackWords == (if stackBuffer.Some? then stackSize else DYNAMIC_STACK_SIZE)
      ensures !ok ==> hasThread == old(hasThread) && tasksStarted == old(tasksStarted) && taskPriority == old(taskPriority)
    {
      if !hasExitSem {
        hasExitSem := semOk;
        if !semOk {
          faulted := true;
          return false;
        }
      }
      if !hasQueue {
        if !queueOk { return false; }
        hasQueue, queue := true, [];
      }
      if stackBuffer.Some? {
        usedStatic, taskStackWords := true, stackSize;
      } else {
        if !taskOk { return false; }
        usedStatic, taskStackWords := false, DYNAMIC_STACK_SIZE;
      }
      hasThread, tasksStarted, taskPriority := true, tasksStarted + 1, priority;
      ok := true;
    }

    /// `SetThreadPriority(priority)`: stored, and applied to a running task.
    method SetThreadPriority(p: int)
      modifies this`priority, this`taskPriority
      ensures priority == p
      ensures taskPriority == (if hasThread then p else old(taskPriority))
    {
      priority := p;
      if hasThread { taskPriority := p; }
    }

    /// `DispatchDelegate(msg)`: nothing without a queue; otherwise the message
    /// is queued when the bounded send succeeds (`sendOk`, and room in the
    /// queue) and dropped when it does not.
    method DispatchDelegate(msg: Option<DelegateMsg>, sendOk: bool)
      requires Valid()
      modifies this`queue
      ensures Valid()
      ensures queue == old(queue) + (if hasQueue && sendOk && |old(queue)| < queueSize then [DispatchMsg(msg)] else [])
    {
      if !hasQueue { return; }
      if sendOk && |queue| < queueSize {
        queue := queue + [DispatchMsg(msg)];
      }
    }

    /// `Run()`: the task's loop over its queue.
    method Run() returns (exited: bool)
      modifies this`queue, this`invoked, this`exitGiven
      ensures var r := RunSpec(old(queue), old(invoked));
        invoked == r.invoked && queue == r.rest && exited == r.exited
      ensures exitGiven == (old(exitGiven) || (exited && hasExitSem))
      ensures |queue| <= |old(queue)|
    {
      ghost var goal := RunSpec(queue, invoked);
      while true
        invariant RunSpec(queue, invoked) == goal
        invariant exitGiven == old(exitGiven)
        invariant |queue| <= |old(queue)|
        decreases |queue|
      {
        if |queue| == 0 { return false; }
        var msg := queue[0];
        queue := queue[1..];
        match msg {
          case NullMsg =>
          case DispatchMsg(data) =>
            if data.Some? && data.value.invoker.Some? {
              invoked := invoked + [data.value.invoker.value];
            }
          case ExitMsg =>
            if hasExitSem { exitGiven := true; }
            return true;
          case OtherMsg(_) =>
        }
      }
    }

    /// `ExitThread()` called from another task (`onOwnThread` false) or from
    /// the thread's own task; `sendOk` is the outcome of the bounded send of
    /// the exit message. Waiting for the semaphore runs the task's loop over
    /// the queue; `returned` is false where that wait never ends (the
    /// semaphore is never given). Afterwards queue and task are gone, so a
    /// second call does nothing.
    method ExitThread(sendOk: bool, onOwnThread: bool) returns (returned: bool)
      requires Valid()
      modifies this
      ensures Valid() && hasExitSem == old(hasExitSem)
      ensures !old(hasQueue) ==> returned && queue == old(queue) && hasThread == old(hasThread) && invoked == old(invoked)
      ensures old(hasQueue) && returned ==> !hasQueue && queue == [] && !hasThread
      ensures old(hasQueue) && (onOwnThread || !hasExitSem) ==> returned && invoked == old(invoked)
      ensures old(hasQueue) && !onOwnThread && hasExitSem && old(hasThread) ==>
        var q := old(queue) + (if sendOk && |old(queue)| < queueSize then [ExitMsg] else []);
        invoked == RunSpec(q, old(invoked)).invoked &&
        returned == (old(exitGiven) || RunSpec(q, old(invoked)).exited)
      ensures old(hasQueue) && !onOwnThread && hasExitSem && !old(hasThread) ==> returned == old(exitGiven)
    {
      if !hasQueue { return true; }
      if sendOk && |queue| < queueSize {
        queue := queue + [ExitMsg];
      }
      if !onOwnThread && hasExitSem {
        if hasThread {
          ghost var q := queue;
          assert q == old(queue) + (if sendOk && |old(queue)| < queueSize then [ExitMsg] else []);
          var _ := Run();
        }
        if !exitGiven { return false; }
        exitGiven := false;
      }
      hasQueue, queue, hasThread := false, [], false;
      returned := true;
    }
  }

  /// When the exit message fits in the queue, ExitThread from another task
  /// returns, having run every invoker queued before it.
  method ExitAfterDispatch(t: Thread, i: nat) returns (returned: bool)
    requires t.Valid() && t.hasQueue && t.hasThread && t.hasExitSem && !t.exitGiven
    requires t.queue == [] && t.queueSize >= 2
    modifies t
    ensures returned && !t.hasQueue && !t.hasThread
    ensures t.invoked == old(t.invoked) + [i]
  {
    t.DispatchDelegate(Some(DelegateMsg(Some(i))), true);
    assert t.queue == [DispatchMsg(Some(DelegateMsg(Some(i))))];
    ghost var inv0 := t.invoked;
    returned := t.ExitThread(true, false);
    ghost var q := [DispatchMsg(Some(DelegateMsg(Some(i))))] + [ExitMsg];
    DispatchInvokes(i, [ExitMsg], inv0);
    assert q == [DispatchMsg(Some(DelegateMsg(Some(i))))] + [ExitMsg];
    assert RunSpec([ExitMsg], inv0 + [i]) == RunResult(inv0 + [i], [], true);
  }
}
