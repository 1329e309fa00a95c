/** The ThreadX `Thread`: a thread and a queue held in control blocks (zero
    id while not created), queue memory and stack allocated in words, and an
    exit semaphore. Allocation and kernel-call outcomes are parameters. */
module ThreadXThread {
  import opened Wire

  /// `DEFAULT_QUEUE_SIZE`.
  const DEFAULT_QUEUE_SIZE: nat := 20
  /// The priority a thread is built with.
  const DEFAULT_PRIORITY: nat := 10
  /// `STACK_SIZE`, in bytes.
  const STACK_SIZE: nat := 2048

  /// `(bytes + unit - 1) / unit`: the words of `unit` bytes needed to hold `bytes`.
  function CeilDiv(bytes: nat, unit: nat): nat
    requires unit > 0
  {
    (bytes + unit - 1) / unit
  }

  /// The rounded-up size holds `bytes`, and wastes less than one word.
  lemma CeilDivBounds(bytes: nat, unit: nat)
    requires unit > 0
    ensures CeilDiv(bytes, unit) * unit >= bytes
    ensures CeilDiv(bytes, unit) * unit < bytes + unit
  {
    var q, r := (bytes + unit - 1) / unit, (bytes + unit - 1) % unit;
    assert bytes + unit - 1 == q * unit + r;
  }

  /// It is the least number of words that holds `bytes`.
  lemma CeilDivLeast(bytes: nat, unit: nat, w: nat)
    requires unit > 0 && w * unit >= bytes
    ensures CeilDiv(bytes, unit) <= w
  {
    CeilDivBounds(bytes, unit);
    var c := CeilDiv(bytes, unit);
    if c > w {
      assert c >= w + 1;
      assert c * unit >= (w + 1) * unit by {
        MulMono(w + 1, c, unit);
      }
      assert false;
    }
  }

  lemma MulMono(a: nat, b: nat, k: nat)
    requires a <= b
    ensures a * k <= b * k
  {
  }

  /// With 8-byte pointers and 4-byte `ULONG`s a message takes two words and
  /// the stack 512; with 4-byte pointers, one word.
  lemma CommonSizes()
    ensures CeilDiv(8, 4) == 2 && CeilDiv(4, 4) == 1 && CeilDiv(8, 8) == 1
    ensures CeilDiv(STACK_SIZE, 4) == 512 && CeilDiv(STACK_SIZE, 8) == 256
  {
  }

  /// The queue depth a thread is built with.
  function QueueSizeFor(maxQueueSize: nat): (n: nat)
    ensures n > 0
    ensures maxQueueSize != 0 ==> n == maxQueueSize
    ensures maxQueueSize == 0 ==> n == DEFAULT_QUEUE_SIZE
  {
    if maxQueueSize == 0 then DEFAULT_QUEUE_SIZE else maxQueueSize
  }

  /// A queued message: a dispatch (the delegate message, which may be
  /// null) or the exit request.
  datatype ThreadMsg = DispatchMsg(data: Option<nat>) | ExitMsg

  /// The context a call runs in, as `tx_thread_identify()` tells it: the
  /// thread itself, an interrupt (no thread), or another thread.
  datatype Caller = OwnThread | Isr | OtherThread

  class Thread {
    /// `m_queueSize`.
    const queueSize: nat
    /// `m_priority`, and the priority the created thread runs at.
    var priority: nat
    var livePriority: nat
    /// `m_thread.tx_thread_id != 0`, and how many threads have been created.
    var threadCreated: bool
    var threadsCreated: nat
    /// `m_queue.tx_queue_id != 0`, and the messages in the queue, front first.
    var queueCreated: bool
    var queue: seq<ThreadMsg>
    /// The sizes the last creation used: a message and the queue memory in
    /// words, the stack in words.
    var msgSizeWords: nat
    var queueMemSizeWords: nat
    var stackSizeWords: nat
    /// `m_exitSem.tx_semaphore_id != 0`.
    var hasExitSem: bool

    ghost predicate Valid()
      reads this
    {
      queueSize > 0 && |queue| <= queueSize && (!queueCreated ==> queue == [])
    }

    /// `Thread(threadName, maxQueueSize)`; `semOk` is what tx_semaphore_create reports.
    constructor (maxQueueSize: nat, semOk: bool)
      ensures Valid()
      ensures queueSize == QueueSizeFor(maxQueueSize) && priority == DEFAULT_PRIORITY
      ensures !threadCreated && !queueCreated && threadsCreated == 0 && hasExitSem == semOk
    {
      queueSize := QueueSizeFor(maxQueueSize);
      priority, livePriority := DEFAULT_PRIORITY, DEFAULT_PRIORITY;
      threadCreated, threadsCreated, queueCreated, queue := false, 0, false, [];
      msgSizeWords, queueMemSizeWords, stackSizeWords := 0, 0, 0;
      hasExitSem := semOk;
    }

    /// `CreateThread()` with `sizeof(ThreadMsg*)` = `ptrBytes` and
    /// `sizeof(ULONG)` = `ulongBytes`. The outcomes are those of the queue
    /// memory allocation, tx_queue_create, the stack allocation and
    /// tx_thread_create. A failed one makes ASSERT_TRUE spin forever, so the
    /// call does not return (`returned` false); when it returns it returns
    /// true. Nothing is created when the thread control block is in use.
    method CreateThread(ptrBytes: nat, ulongBytes: nat, memOk: bool, queueOk: bool, stackOk: bool, threadOk: bool)
      returns (returned: bool, r: bool)
      requires ulongBytes > 0 && Valid()
      modifies this
      ensures Valid() && priority == old(priority) && hasExitSem == old(hasExitSem)
      ensures returned ==> r
      ensures old(threadCreated) ==> returned && threadCreated && threadsCreated == old(threadsCreated)
      ensures old(threadCreated) ==> queueCreated == old(queueCreated) && queue == old(queue)
      ensures !old(threadCreated) ==> returned == (memOk && queueOk && stackOk && threadOk)
      ensures !old(threadCreated) && returned ==>
        threadCreated && queueCreated && queue == [] && threadsCreated == old(threadsCreated) + 1 &&
        livePriority == priority && msgSizeWords == CeilDiv(ptrBytes, ulongBytes) &&
        queueMemSizeWords == queueSize * msgSizeWords && stackSizeWords == CeilDiv(STACK_SIZE, ulongBytes)
    {
      r := true;
      if !threadCreated {
        msgSizeWords := CeilDiv(ptrBytes, ulongBytes);
        queueMemSizeWords := queueSize * msgSizeWords;
        if !memOk { return false, r; }
        if !queueOk { return false, r; }
        queueCreated, queue := true, [];
        stackSizeWords := CeilDiv(STACK_SIZE, ulongBytes);
        if !stackOk { return false, r; }
        if !threadOk { return false, r; }
        threadCreated, threadsCreated, livePriority := true, threadsCreated + 1, priority;
      }
      returned := true;
    }

    /// `SetThreadPriority(priority)`: stored, and changed live on a created thread.
    method SetThreadPriority(p: nat)
      modifies this`priority, this`livePriority
      ensures priority == p
      ensures livePriority == (if threadCreated then p else old(livePriority))
    {
      priority := p;
      if threadCreated { livePriority := p; }
    }

    /// `GetThreadPriority()`: the stored priority, set or default.
    method GetThreadPriority() returns (p: nat)
      ensures p == priority
    {
      p := priority;
    }

    /// `DispatchDelegate(msg)`: nothing before the queue exists or when the
    /// message cannot be allocated; otherwise queued when the bounded send
    /// succeeds (`sendOk`, and room in the queue).
    method DispatchDelegate(msg: Option<nat>, allocOk: bool, sendOk: bool)
      requires Valid()
      modifies this`queue
      ensures Valid()
      ensures queue == old(queue) + (if queueCreated && allocOk && sendOk && |old(queue)| < queueSize then [DispatchMsg(msg)] else [])
    {
      if !queueCreated { return; }
      if !allocOk { return; }
      if sendOk && |queue| < queueSize {
        queue := queue + [DispatchMsg(msg)];
      }
    }

    /// `ExitThread()`: only with a created queue. The exit message is sent
    /// when it can be allocated and the bounded send succeeds; the call waits
    /// on the exit semaphore only from another thread (not from the thread
    /// itself, nor from an interrupt). Both control blocks end up zeroed, so
    /// the thread can be created again.
    method ExitThread(allocOk: bool, sendOk: bool, caller: Caller) returns (sentExit: bool, waited: bool)
      requires Valid()
      modifies this
      ensures Valid() && priority == old(priority) && hasExitSem == old(hasExitSem) && threadsCreated == old(threadsCreated)
      ensures !old(queueCreated) ==> !sentExit && !waited && threadCreated == old(threadCreated) && !queueCreated && queue == []
      ensures old(queueCreated) ==> !threadCreated && !queueCreated && queue == []
      ensures sentExit == (old(queueCreated) && allocOk && sendOk && |old(queue)| < queueSize)
      ensures waited == (old(queueCreated) && caller.OtherThread?)
    {
      sentExit, waited := false, false;
      if !queueCreated { return; }
      if allocOk && sendOk && |queue| < queueSize {
        queue := queue + [ExitMsg];
        sentExit := true;
      }
      if caller.OtherThread? {
        waited := true;
      }
      threadCreated, queueCreated, queue := false, false, [];
    }

    /// `~Thread()`: ExitThread, then the exit semaphore is deleted.
    method Destroy(allocOk: bool, sendOk: bool, caller: Caller)
      requires Valid()
      modifies this
      ensures Valid() && !queueCreated && !hasExitSem
      ensures old(queueCreated) ==> !threadCreated
    {
      var _, _ := ExitThread(allocOk, sendOk, caller);
      if hasExitSem { hasExitSem := false; }
    }
  }

  /// After ExitThread a thread can be created again, with fresh sizes.
  method RecreateAfterExit(t: Thread, ptrBytes: nat, ulongBytes: nat) returns (returned: bool)
    requires ulongBytes > 0 && t.Valid() && t.threadCreated && t.queueCreated
    modifies t
    ensures returned && t.threadCreated && t.queueCreated && t.threadsCreated == old(t.threadsCreated) + 1
  {
    var _, _ := t.ExitThread(true, true, OtherThread);
    var r;
    returned, r := t.CreateThread(ptrBytes, ulongBytes, true, true, true, true);
  }
}
