/** The Logger subsystem: LogData keeps the lines written and appends them
    to the log file on Flush; Logger serialises Write, timer and delegate
    requests through one FIFO queue handled by its worker loop. */
module Logging {

  /// Every stored line followed by a newline, in list order: what one
  /// successful Flush appends to the file.
  function Lines(msgs: seq<string>): string
  {
    if |msgs| == 0 then "" else msgs[0] + "\n" + Lines(msgs[1..])
  }

  lemma {:induction false} LinesSnoc(msgs: seq<string>, m: string)
    ensures Lines(msgs + [m]) == Lines(msgs) + m + "\n"
  {
    if |msgs| == 0 {
      assert msgs + [m] == [m];
      assert Lines([m][1..]) == "";
    } else {
      assert (msgs + [m])[1..] == msgs[1..] + [m];
      LinesSnoc(msgs[1..], m);
    }
  }

  /// LogData: `m_msgData` and the file `LogData.txt`, which `fileOk` says
  /// can be opened.
  class LogData {
    var msgData: seq<string>
    var file: string
    const fileOk: bool

    constructor (fileOk: bool, file: string)
      ensures msgData == [] && this.file == file && this.fileOk == fileOk
    {
      msgData := [];
      this.file := file;
      this.fileOk := fileOk;
    }

    /// `Write(msg)`: appends, earlier entries unchanged.
    method Write(msg: string)
      modifies this`msgData
      ensures msgData == old(msgData) + [msg]
    {
      msgData := msgData + [msg];
    }

    /// `Flush()`: appends every stored line to the file, keeping the list.
    method Flush() returns (ok: bool)
      modifies this`file
      ensures ok == fileOk
      ensures file == old(file) + (if fileOk then Lines(msgData) else "")
    {
      if !fileOk { return false; }
      var i := 0;
      while i < |msgData|
        invariant 0 <= i <= |msgData|
        invariant file == old(file) + Lines(msgData[..i])
      {
        LinesSnoc(msgData[..i], msgData[i]);
        assert msgData[..i + 1] == msgData[..i] + [msgData[i]];
        file := file + msgData[i] + "\n";
        i := i + 1;
      }
      assert msgData[..i] == msgData;
      return true;
    }
  }

  /// Two flushes with no write between them append the whole list twice:
  /// Flush does not clear what it wrote.
  method FlushTwice(d: LogData) returns (first: bool, second: bool)
    modifies d
    ensures first == second == d.fileOk
    ensures d.msgData == old(d.msgData)
    ensures d.fileOk ==> d.file == old(d.file) + Lines(d.msgData) + Lines(d.msgData)
  {
    first := d.Flush();
    second := d.Flush();
  }

  /// The worker-queue messages: `MSG_WRITE` with its text, `MSG_EXIT_THREAD`,
  /// `MSG_TIMER` and `MSG_DISPATCH_DELEGATE` with the invoker to run.
  datatype Msg = WriteMsg(text: string) | ExitMsg | TimerMsg | DispatchMsg(invoker: nat)

  /// What messages change: LogData's list and file, the status strings the
  /// callback has been given, and the invokers run on the logger thread.
  datatype LogState = LogState(msgData: seq<string>, file: string, callbacks: seq<string>, invoked: seq<nat>)

  /// The result of the worker loop: the state after the messages it handled,
  /// the messages left in the queue, and whether it returned on an exit message.
  datatype RunResult = RunResult(state: LogState, rest: seq<Msg>, exited: bool)

  /// The status string reported, when a callback is set.
  function Report(hasCb: bool, status: string): seq<string>
  {
    if hasCb then [status] else []
  }

  /// Handling of one message other than exit.
  function Handle(m: Msg, st: LogState, fileOk: bool, hasCb: bool): LogState
    requires !m.ExitMsg?
  {
    match m
    case WriteMsg(t) =>
      st.(msgData := st.msgData + [t], callbacks := st.callbacks + Report(hasCb, "Write success!"))
    case TimerMsg =>
      if fileOk then st.(file := st.file + Lines(st.msgData), callbacks := st.callbacks + Report(hasCb, "Flush success!"))
      else st.(callbacks := st.callbacks + Report(hasCb, "Flush failure!"))
    case DispatchMsg(i) => st.(invoked := st.invoked + [i])
  }

  /// `Process()` on queue `q`: messages in FIFO order, one at a time, until
  /// an exit message (or, in this model, until the queue is empty, where the
  /// source waits for more).
  function Run(q: seq<Msg>, st: LogState, fileOk: bool, hasCb: bool): RunResult
    decreases |q|
  {
    if |q| == 0 then RunResult(st, [], false)
    else if q[0].ExitMsg? then RunResult(st, q[1..], true)
    else Run(q[1..], Handle(q[0], st, fileOk, hasCb), fileOk, hasCb)
  }

  /// FIFO: handling `a` then `b` is handling `a` and then handling `b`
  /// from where `a` left off, when `a` holds no exit message.
  lemma {:induction false} RunAppend(a: seq<Msg>, b: seq<Msg>, st: LogState, fileOk: bool, hasCb: bool)
    requires forall i :: 0 <= i < |a| ==> !a[i].ExitMsg?
    ensures Run(a + b, st, fileOk, hasCb) == Run(b, Run(a, st, fileOk, hasCb).state, fileOk, hasCb)
  {
    if |a| == 0 {
      assert a + b == b;
    } else {
      assert (a + b)[0] == a[0];
      assert (a + b)[1..] == a[1..] + b;
      RunAppend(a[1..], b, Handle(a[0], st, fileOk, hasCb), fileOk, hasCb);
    }
  }

  /// An exit message ends the loop: what is queued after it is never handled.
  lemma ExitStops(a: seq<Msg>, b: seq<Msg>, st: LogState, fileOk: bool, hasCb: bool)
    requires forall i :: 0 <= i < |a| ==> !a[i].ExitMsg?
    ensures Run(a + [ExitMsg] + b, st, fileOk, hasCb) == RunResult(Run(a, st, fileOk, hasCb).state, b, true)
  {
    RunAppend(a, [ExitMsg] + b, st, fileOk, hasCb);
    assert a + [ExitMsg] + b == a + ([ExitMsg] + b);
    assert ([ExitMsg] + b)[1..] == b;
    RunEmptyAtEnd(a, st, fileOk, hasCb);
  }

  lemma {:induction false} RunEmptyAtEnd(a: seq<Msg>, st: LogState, fileOk: bool, hasCb: bool)
    requires forall i :: 0 <= i < |a| ==> !a[i].ExitMsg?
    ensures Run(a, st, fileOk, hasCb).rest == [] && !Run(a, st, fileOk, hasCb).exited
  {
    if |a| > 0 {
      RunEmptyAtEnd(a[1..], Handle(a[0], st, fileOk, hasCb), fileOk, hasCb);
    }
  }

  /// A write followed by a timer tick, with a callback set and a file that
  /// opens, reports "Write success!" then "Flush success!" and appends the
  /// written line to the file.
  lemma WriteThenTimer(t: string, st: LogState)
    ensures var r := Run([WriteMsg(t), TimerMsg], st, true, true);
      r.state.callbacks == st.callbacks + ["Write success!", "Flush success!"] &&
      r.state.file == st.file + Lines(st.msgData + [t])
  {
    var s1 := Handle(WriteMsg(t), st, true, true);
    var s2 := Handle(TimerMsg, s1, true, true);
    assert [WriteMsg(t), TimerMsg][1..] == [TimerMsg];
    assert Run([WriteMsg(t), TimerMsg], st, true, true) == Run([TimerMsg], s1, true, true);
    assert Run([TimerMsg], s1, true, true) == Run([], s2, true, true);
    assert s2.callbacks == st.callbacks + ["Write success!"] + ["Flush success!"];
  }

  /// Without a callback nothing is reported, whatever is handled.
  lemma {:induction false} NoCallbackNoReports(q: seq<Msg>, st: LogState, fileOk: bool)
    ensures Run(q, st, fileOk, false).state.callbacks == st.callbacks
  {
    if |q| > 0 && !q[0].ExitMsg? {
      NoCallbackNoReports(q[1..], Handle(q[0], st, fileOk, false), fileOk);
    }
  }

  class Logger {
    const logData: LogData
    /// `m_queue`, front first.
    var queue: seq<Msg>
    /// `m_thread != nullptr`.
    var hasThread: bool
    /// `m_pLoggerStatusCb != nullptr`.
    var hasCallback: bool
    var callbacks: seq<string>
    var invoked: seq<nat>
    var timerExit: bool

    function State(): LogState
      reads this, logData
    {
      LogState(logData.msgData, logData.file, callbacks, invoked)
    }

    /// `Logger()`: creates the worker thread.
    constructor (fileOk: bool, file: string)
      ensures hasThread && !hasCallback && queue == [] && !timerExit
      ensures State() == LogState([], file, [], []) && logData.fileOk == fileOk && fresh(logData)
    {
      logData := new LogData(fileOk, file);
      queue, hasThread, hasCallback := [], true, false;
      callbacks, invoked, timerExit := [], [], false;
    }

    method SetCallback(present: bool)
      modifies this`hasCallback
      ensures hasCallback == present
    {
      hasCallback := present;
    }

    /// `Write(msg)`: one write message at the back of the queue.
    method Write(msg: string)
      requires hasThread
      modifies this`queue
      ensures queue == old(queue) + [WriteMsg(msg)]
    {
      queue := queue + [WriteMsg(msg)];
    }

    /// `DispatchDelegate(msg)`.
    method DispatchDelegate(invoker: nat)
      requires hasThread
      modifies this`queue
      ensures queue == old(queue) + [DispatchMsg(invoker)]
    {
      queue := queue + [DispatchMsg(invoker)];
    }

    /// One pass of `TimerThread`'s loop: a timer message at the back of the queue.
    method TimerTick()
      modifies this`queue
      ensures queue == old(queue) + [TimerMsg]
    {
      queue := queue + [TimerMsg];
    }

    /// `ExitThread()`: with a thread, queues an exit message and joins the
    /// worker, which handles everything before it; a second call does nothing.
    method ExitThread()
      modifies this, logData
      ensures !hasThread && hasCallback == old(hasCallback)
      ensures !old(hasThread) ==> queue == old(queue) && State() == old(State())
      ensures old(hasThread) ==>
        var r := Run(old(queue) + [ExitMsg], old(State()), logData.fileOk, hasCallback);
        State() == r.state && queue == r.rest
    {
      if !hasThread { return; }
      queue := queue + [ExitMsg];
      var _ := Process();
      hasThread := false;
    }

    /// `Process()`: the worker loop.
    method Process() returns (exited: bool)
      modifies this, logData
      ensures hasThread == old(hasThread) && hasCallback == old(hasCallback)
      ensures var r := Run(old(queue), old(State()), logData.fileOk, hasCallback);
        State() == r.state && queue == r.rest && exited == r.exited
    {
      timerExit := false;
      ghost var goal := Run(queue, State(), logData.fileOk, hasCallback);
      while true
        invariant hasThread == old(hasThread) && hasCallback == old(hasCallback)
        invariant Run(queue, State(), logData.fileOk, hasCallback) == goal
        decreases |queue|
      {
        if |queue| == 0 { return false; }
        var msg := queue[0];
        queue := queue[1..];
        if msg.ExitMsg? {
          timerExit := true;
          return true;
        }
        HandleOne(msg);
      }
    }

    /// The body of one pass of `Process()` for a message other than exit.
    method HandleOne(msg: Msg)
      requires !msg.ExitMsg?
      modifies this`callbacks, this`invoked, logData
      ensures State() == Handle(msg, old(State()), logData.fileOk, hasCallback)
    {
      match msg {
        case WriteMsg(t) =>
          logData.Write(t);
          if hasCallback { callbacks := callbacks + ["Write success!"]; }
        case TimerMsg =>
          var success := logData.Flush();
          if success {
            if hasCallback { callbacks := callbacks + ["Flush success!"]; }
          } else {
            if hasCallback { callbacks := callbacks + ["Flush failure!"]; }
          }
        case DispatchMsg(i) =>
          invoked := invoked + [i];
      }
    }
  }
}
