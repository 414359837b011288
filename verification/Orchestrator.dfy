/** The run of all parsers: goroutines in nested wait groups, one bounded channel, a closer and a drain
    loop, as a state machine over the steps of every interleaving. */
module Orchestrator {
  import opened Bits

  const CAPACITY: nat := 256

  /** A progress report, and whether its sender waits for room (select with a default does not). */
  datatype Message = Message(count: int, done: bool, err: Option<string>, waits: bool)

  // ---- The result ------------------------------------------------------------------------------

  /** Artifacts of the reports that are final and carry no error. */
  function Total(ms: seq<Message>): int {
    if ms == [] then 0
    else
      var m := ms[|ms| - 1];
      Total(ms[..|ms| - 1]) + (if m.err.None? && m.done then m.count else 0)
  }

  function Errors(ms: seq<Message>): seq<string> {
    if ms == [] then []
    else
      var m := ms[|ms| - 1];
      Errors(ms[..|ms| - 1]) + (if m.err.Some? then [m.err.value] else [])
  }

  // ---- States ----------------------------------------------------------------------------------

  datatype Stage = Idle | Running | Exited

  /** A goroutine: the wait group it belongs to and the reports it has still to send. Group 0 is the
      orchestrator's own, group i + 1 the one goroutine i waits for before it returns. */
  datatype Task = Task(group: nat, stage: Stage, todo: seq<Message>)

  /** enqueued and dropped record every report that entered the channel or met a full one. */
  datatype Channel = Channel(buf: seq<Message>, closed: bool, panicked: bool, enqueued: seq<Message>, dropped: seq<Message>)

  datatype State = State(
    tasks: seq<Task>, wait: seq<int>, ch: Channel, closerStarted: bool, finished: bool,
    received: seq<Message>, total: int, errors: seq<string>)

  /** Goroutine i starts only goroutines that come after it. */
  predicate WellFormed(tasks: seq<Task>) {
    forall i :: 0 <= i < |tasks| ==> tasks[i].group <= i
  }

  function Start(tasks: seq<Task>): State {
    State(tasks, seq(|tasks| + 1, _ => 0), Channel([], false, false, [], []), false, false, [], 0, [])
  }

  predicate Initial(tasks: seq<Task>) {
    WellFormed(tasks) && forall i :: 0 <= i < |tasks| ==> tasks[i].stage == Idle
  }

  // ---- Steps -----------------------------------------------------------------------------------

  datatype Step =
    | Spawn(i: nat)   // Add(1) on the group, then go
    | Send(i: nat)    // goroutine i offers its next report
    | Exit(i: nat)    // Wait on its own group has returned; Done on the group it belongs to
    | StartCloser
    | Close           // Wait on group 0 has returned
    | Receive
    | Finish          // the channel is closed and empty

  /** A send on a closed channel panics, whether or not it would wait; a full channel drops what does not wait. */
  function Offer(ch: Channel, m: Message): Channel {
    if ch.closed then ch.(panicked := true)
    else if |ch.buf| < CAPACITY then ch.(buf := ch.buf + [m], enqueued := ch.enqueued + [m])
    else ch.(dropped := ch.dropped + [m])
  }

  /** Goroutines are started in order within their group. */
  predicate NextInGroup(tasks: seq<Task>, i: nat)
    requires i < |tasks|
  {
    tasks[i].stage == Idle && forall k :: 0 <= k < i && tasks[k].group == tasks[i].group ==> tasks[k].stage != Idle
  }

  predicate GroupStarted(tasks: seq<Task>, g: nat) {
    forall k :: 0 <= k < |tasks| && tasks[k].group == g ==> tasks[k].stage != Idle
  }

  predicate Enabled(s: State, step: Step)
    requires |s.wait| == |s.tasks| + 1 && WellFormed(s.tasks)
  {
    match step
    case Spawn(i) =>
      && i < |s.tasks| && NextInGroup(s.tasks, i)
      && var g := s.tasks[i].group;
         if g == 0 then !s.closerStarted
         else s.tasks[g - 1].stage == Running && s.tasks[g - 1].todo == []
    case Send(i) =>
      && i < |s.tasks| && s.tasks[i].stage == Running && s.tasks[i].todo != []
      && (s.tasks[i].todo[0].waits ==> s.ch.closed || |s.ch.buf| < CAPACITY)
    case Exit(i) =>
      && i < |s.tasks| && s.tasks[i].stage == Running && s.tasks[i].todo == []
      && GroupStarted(s.tasks, i + 1) && s.wait[i + 1] == 0
    case StartCloser => !s.closerStarted && GroupStarted(s.tasks, 0)
    case Close => s.closerStarted && s.wait[0] == 0 && !s.ch.closed
    case Receive => s.closerStarted && s.ch.buf != []
    case Finish => s.closerStarted && s.ch.closed && s.ch.buf == [] && !s.finished
  }

  function Apply(s: State, step: Step): (t: State)
    requires |s.wait| == |s.tasks| + 1 && WellFormed(s.tasks) && Enabled(s, step)
    ensures |t.wait| == |t.tasks| + 1 && WellFormed(t.tasks) && |t.tasks| == |s.tasks|
  {
    match step
    case Spawn(i) =>
      var g := s.tasks[i].group;
      s.(tasks := s.tasks[i := s.tasks[i].(stage := Running)], wait := s.wait[g := s.wait[g] + 1])
    case Send(i) =>
      var task := s.tasks[i];
      s.(tasks := s.tasks[i := task.(todo := task.todo[1..])], ch := Offer(s.ch, task.todo[0]))
    case Exit(i) =>
      var g := s.tasks[i].group;
      s.(tasks := s.tasks[i := s.tasks[i].(stage := Exited)], wait := s.wait[g := s.wait[g] - 1])
    case StartCloser => s.(closerStarted := true)
    case Close => s.(ch := s.ch.(closed := true))
    case Receive =>
      var m := s.ch.buf[0];
      s.(ch := s.ch.(buf := s.ch.buf[1..]), received := s.received + [m],
         errors := if m.err.Some? then s.errors + [m.err.value] else s.errors,
         total := if m.err.None? && m.done then s.total + m.count else s.total)
    case Finish => s.(finished := true)
  }

  // ---- What every step keeps -------------------------------------------------------------------

  function RunningIn(tasks: seq<Task>, g: nat): nat {
    if tasks == [] then 0
    else
      var last := tasks[|tasks| - 1];
      RunningIn(tasks[..|tasks| - 1], g) + (if last.group == g && last.stage == Running then 1 else 0)
  }

  lemma {:induction false} RunningInUpdate(tasks: seq<Task>, i: nat, t: Task, g: nat)
    requires i < |tasks| && t.group == tasks[i].group
    ensures RunningIn(tasks[i := t], g) == RunningIn(tasks, g)
          + (if t.group == g && t.stage == Running then 1 else 0)
          - (if t.group == g && tasks[i].stage == Running then 1 else 0)
  {
    var n := |tasks| - 1;
    if i == n {
      assert tasks[i := t][..n] == tasks[..n];
    } else {
      assert tasks[i := t][..n] == tasks[..n][i := t];
      RunningInUpdate(tasks[..n], i, t, g);
    }
  }

  lemma {:induction false} NoneRunning(tasks: seq<Task>, g: nat)
    ensures RunningIn(tasks, g) == 0 <==> forall k :: 0 <= k < |tasks| && tasks[k].group == g ==> tasks[k].stage != Running
  {
    if tasks != [] {
      NoneRunning(tasks[..|tasks| - 1], g);
      forall k | 0 <= k < |tasks| - 1 ensures tasks[..|tasks| - 1][k] == tasks[k] {
      }
    }
  }

  /** All the reports still to be sent. */
  function Pending(tasks: seq<Task>): multiset<Message> {
    if tasks == [] then multiset{} else Pending(tasks[..|tasks| - 1]) + multiset(tasks[|tasks| - 1].todo)
  }

  /** Changing a task changes what is pending by what its own reports changed. */
  lemma {:induction false} PendingUpdate(tasks: seq<Task>, i: nat, t: Task, sent: multiset<Message>)
    requires i < |tasks| && multiset(tasks[i].todo) == multiset(t.todo) + sent
    ensures Pending(tasks) == Pending(tasks[i := t]) + sent
  {
    hide Pending;
    var n := |tasks| - 1;
    var front := tasks[..n];
    PendingLast(tasks);
    PendingLast(tasks[i := t]);
    if i == n {
      assert tasks[i := t][..n] == front;
      Regroup(Pending(front), multiset(t.todo), sent);
    } else {
      assert tasks[i := t][..n] == front[i := t] && tasks[i := t][n] == tasks[n];
      PendingUpdate(front, i, t, sent);
      Swap(Pending(front[i := t]), sent, multiset(tasks[n].todo));
    }
  }

  lemma PendingLast(tasks: seq<Task>)
    requires tasks != []
    ensures Pending(tasks) == Pending(tasks[..|tasks| - 1]) + multiset(tasks[|tasks| - 1].todo)
  {
  }

  lemma Regroup(a: multiset<Message>, b: multiset<Message>, c: multiset<Message>)
    ensures a + (b + c) == a + b + c
  {
  }

  lemma Swap(a: multiset<Message>, b: multiset<Message>, c: multiset<Message>)
    ensures a + b + c == a + c + b
  {
  }

  predicate CountsMatch(tasks: seq<Task>, wait: seq<int>) {
    |wait| == |tasks| + 1 && forall g :: 0 <= g < |wait| ==> wait[g] == RunningIn(tasks, g)
  }

  /** Nobody outlives the goroutine that waits for it, and nobody is started by one that has not begun. */
  predicate Nested(tasks: seq<Task>)
    requires WellFormed(tasks)
  {
    && (forall i :: 0 <= i < |tasks| && tasks[i].stage == Exited ==> tasks[i].todo == [])
    && (forall i :: 0 <= i < |tasks| && tasks[i].group > 0 ==>
          var parent := tasks[tasks[i].group - 1].stage;
          (parent == Idle ==> tasks[i].stage == Idle) && (parent == Exited ==> tasks[i].stage == Exited))
  }

  predicate Accounted(s: State) {
    && s.received + s.ch.buf == s.ch.enqueued
    && s.total == Total(s.received)
    && s.errors == Errors(s.received)
  }

  predicate AllExited(tasks: seq<Task>) {
    forall i :: 0 <= i < |tasks| ==> tasks[i].stage == Exited
  }

  predicate Closing(s: State) {
    && !s.ch.panicked
    && |s.ch.buf| <= CAPACITY
    && (s.closerStarted ==> GroupStarted(s.tasks, 0))
    && (s.ch.closed ==> s.closerStarted && AllExited(s.tasks))
    && (s.finished ==> s.ch.closed && s.ch.buf == [])
  }

  /** Every report is still pending, in the channel's history, or dropped; only a sender that does not wait loses any. */
  predicate Conserved(s: State, all: multiset<Message>) {
    && Pending(s.tasks) + multiset(s.ch.enqueued) + multiset(s.ch.dropped) == all
    && forall m :: m in s.ch.dropped ==> !m.waits
  }

  predicate Inv(s: State, all: multiset<Message>) {
    && |s.wait| == |s.tasks| + 1 && WellFormed(s.tasks)
    && CountsMatch(s.tasks, s.wait) && Nested(s.tasks) && Accounted(s) && Closing(s) && Conserved(s, all)
  }

  lemma {:induction false} InitialNoneRunning(tasks: seq<Task>, g: nat)
    requires forall i :: 0 <= i < |tasks| ==> tasks[i].stage == Idle
    ensures RunningIn(tasks, g) == 0
  {
    NoneRunning(tasks, g);
  }

  lemma StartKeeps(tasks: seq<Task>)
    requires Initial(tasks)
    ensures Inv(Start(tasks), Pending(tasks))
  {
    forall g | 0 <= g < |tasks| + 1 ensures RunningIn(tasks, g) == 0 {
      InitialNoneRunning(tasks, g);
    }
  }

  lemma CountsAfter(tasks: seq<Task>, wait: seq<int>, i: nat, t: Task)
    requires WellFormed(tasks) && CountsMatch(tasks, wait) && i < |tasks| && t.group == tasks[i].group
    ensures CountsMatch(tasks[i := t], wait[t.group := wait[t.group]
              + (if t.stage == Running then 1 else 0) - (if tasks[i].stage == Running then 1 else 0)])
  {
    hide RunningIn;
    forall g | 0 <= g < |wait| ensures RunningIn(tasks[i := t], g) == RunningIn(tasks, g)
          + (if t.group == g && t.stage == Running then 1 else 0)
          - (if t.group == g && tasks[i].stage == Running then 1 else 0) {
      RunningInUpdate(tasks, i, t, g);
    }
  }

  /** Once every goroutine of group 0 has returned, so has every other. */
  lemma {:induction false} OutermostLast(tasks: seq<Task>, n: nat)
    requires WellFormed(tasks) && Nested(tasks) && n <= |tasks|
    requires forall k :: 0 <= k < |tasks| && tasks[k].group == 0 ==> tasks[k].stage == Exited
    ensures forall k :: 0 <= k < n ==> tasks[k].stage == Exited
  {
    if n > 0 {
      OutermostLast(tasks, n - 1);
      var g := tasks[n - 1].group;
      assert g > 0 ==> tasks[g - 1].stage == Exited;
    }
  }

  lemma SpawnKeeps(s: State, i: nat, all: multiset<Message>)
    requires Inv(s, all) && Enabled(s, Spawn(i))
    ensures Inv(Apply(s, Spawn(i)), all)
  {
    hide RunningIn, Pending;
    var t := s.tasks[i].(stage := Running);
    CountsAfter(s.tasks, s.wait, i, t);
    PendingUpdate(s.tasks, i, t, multiset{});
  }

  lemma SendKeeps(s: State, i: nat, all: multiset<Message>)
    requires Inv(s, all) && Enabled(s, Send(i))
    ensures Inv(Apply(s, Send(i)), all)
  {
    hide RunningIn, Pending, Total, Errors;
    var task := s.tasks[i];
    var m, t := task.todo[0], task.(todo := task.todo[1..]);
    assert task.todo == [m] + t.todo;
    CountsAfter(s.tasks, s.wait, i, t);
    assert s.wait[t.group := s.wait[t.group]] == s.wait;
    PendingUpdate(s.tasks, i, t, multiset{m});
    Moved(Pending(s.tasks[i := t]), multiset(s.ch.enqueued), multiset(s.ch.dropped), m);
    assert s.received + (s.ch.buf + [m]) == s.ch.enqueued + [m];
  }

  lemma Moved(rest: multiset<Message>, enqueued: multiset<Message>, dropped: multiset<Message>, m: Message)
    ensures rest + multiset{m} + enqueued + dropped == rest + (enqueued + multiset{m}) + dropped
    ensures rest + multiset{m} + enqueued + dropped == rest + enqueued + (dropped + multiset{m})
  {
  }

  lemma ExitKeeps(s: State, i: nat, all: multiset<Message>)
    requires Inv(s, all) && Enabled(s, Exit(i))
    ensures Inv(Apply(s, Exit(i)), all)
  {
    hide RunningIn, Pending, Nested, CountsMatch;
    var t := s.tasks[i].(stage := Exited);
    CountsAfter(s.tasks, s.wait, i, t);
    PendingUpdate(s.tasks, i, t, multiset{});
    GroupExited(s.tasks, s.wait, i);
  }

  /** A goroutine whose group has been started and counts zero leaves nobody behind. */
  lemma GroupExited(tasks: seq<Task>, wait: seq<int>, i: nat)
    requires WellFormed(tasks) && CountsMatch(tasks, wait) && Nested(tasks) && i < |tasks|
    requires tasks[i].todo == [] && GroupStarted(tasks, i + 1) && wait[i + 1] == 0 && tasks[i].stage == Running
    ensures Nested(tasks[i := tasks[i].(stage := Exited)])
  {
    hide RunningIn;
    NoneRunning(tasks, i + 1);
  }

  lemma CloseKeeps(s: State, all: multiset<Message>)
    requires Inv(s, all) && Enabled(s, Close)
    ensures Inv(Apply(s, Close), all)
  {
    hide RunningIn, Pending;
    NoneRunning(s.tasks, 0);
    OutermostLast(s.tasks, |s.tasks|);
  }

  lemma ReceiveKeeps(s: State, all: multiset<Message>)
    requires Inv(s, all) && Enabled(s, Receive)
    ensures Inv(Apply(s, Receive), all)
  {
    hide RunningIn, Pending, CountsMatch, Nested, WellFormed, Accounted, AllExited, GroupStarted;
    ReceiveAccounted(s);
  }

  lemma ReceiveAccounted(s: State)
    requires |s.wait| == |s.tasks| + 1 && WellFormed(s.tasks) && Accounted(s) && Enabled(s, Receive)
    ensures Accounted(Apply(s, Receive))
  {
    hide WellFormed;
    var m := s.ch.buf[0];
    assert (s.received + [m])[..|s.received|] == s.received;
    assert s.received + [m] + s.ch.buf[1..] == s.received + s.ch.buf;
  }

  /** No step of any goroutine, of the closer or of the drain loop breaks the invariant. */
  lemma StepKeeps(s: State, step: Step, all: multiset<Message>)
    requires Inv(s, all) && Enabled(s, step)
    ensures Inv(Apply(s, step), all)
  {
    match step
    case Spawn(i) => SpawnKeeps(s, i, all);
    case Send(i) => SendKeeps(s, i, all);
    case Exit(i) => ExitKeeps(s, i, all);
    case StartCloser =>
    case Close => CloseKeeps(s, all);
    case Receive => ReceiveKeeps(s, all);
    case Finish =>
  }

  // ---- Whole runs ------------------------------------------------------------------------------

  /** The steps lead from s to t, each enabled where it is taken. */
  predicate Runs(s: State, steps: seq<Step>, t: State)
    requires |s.wait| == |s.tasks| + 1 && WellFormed(s.tasks)
    decreases |steps|
  {
    if steps == [] then s == t else Enabled(s, steps[0]) && Runs(Apply(s, steps[0]), steps[1..], t)
  }

  lemma {:induction false} RunKeeps(s: State, steps: seq<Step>, t: State, all: multiset<Message>)
    requires Inv(s, all) && Runs(s, steps, t)
    ensures Inv(t, all)
    decreases |steps|
  {
    hide Inv, Apply, Enabled;
    if steps != [] {
      KeepsShape(s, all);
      StepKeeps(s, steps[0], all);
      RunKeeps(Apply(s, steps[0]), steps[1..], t, all);
    }
  }

  lemma KeepsShape(s: State, all: multiset<Message>)
    requires Inv(s, all)
    ensures |s.wait| == |s.tasks| + 1 && WellFormed(s.tasks)
  {
  }

  /** Once the channel is closed no goroutine can send any more, nor will one ever be able to. */
  lemma NothingSentAfterClose(tasks: seq<Task>, steps: seq<Step>, t: State, i: nat)
    requires Initial(tasks) && Runs(Start(tasks), steps, t)
    ensures |t.wait| == |t.tasks| + 1 && WellFormed(t.tasks) && !t.ch.panicked
    ensures t.ch.closed ==> !Enabled(t, Send(i)) && !Enabled(t, Spawn(i)) && !Enabled(t, Close)
  {
    hide Runs, Pending;
    StartKeeps(tasks);
    RunKeeps(Start(tasks), steps, t, Pending(tasks));
  }

  /** A report is dropped exactly when its sender does not wait and the channel is full. */
  lemma DroppedIffFull(s: State, i: nat, all: multiset<Message>)
    requires Inv(s, all) && Enabled(s, Send(i))
    ensures Apply(s, Send(i)).ch.dropped == s.ch.dropped <==> |s.ch.buf| < 256
    ensures |s.ch.buf| == 256 ==> !s.tasks[i].todo[0].waits && Apply(s, Send(i)).ch.enqueued == s.ch.enqueued
  {
    hide RunningIn, Pending;
  }

  // ---- No run is stuck, none goes on for ever --------------------------------------------------

  /** The last running goroutine is one nobody keeps from moving. */
  lemma LastRunningMoves(s: State, i: nat, all: multiset<Message>) returns (step: Step)
    requires Inv(s, all) && s.ch.buf == []
    requires i < |s.tasks| && s.tasks[i].stage == Running
    requires forall k :: i < k < |s.tasks| ==> s.tasks[k].stage != Running
    ensures Enabled(s, step)
  {
    hide Pending, RunningIn;
    if s.tasks[i].todo != [] {
      return Send(i);
    }
    NoneRunning(s.tasks, i + 1);
    if GroupStarted(s.tasks, i + 1) {
      return Exit(i);
    }
    var k := FirstIdle(s.tasks, i + 1);
    step := Spawn(k);
  }

  lemma FirstIdle(tasks: seq<Task>, g: nat) returns (k: nat)
    requires !GroupStarted(tasks, g)
    ensures k < |tasks| && tasks[k].group == g && NextInGroup(tasks, k)
  {
    k := 0;
    while tasks[k].group != g || tasks[k].stage != Idle
      invariant k < |tasks|
      invariant forall j :: 0 <= j < k && tasks[j].group == g ==> tasks[j].stage != Idle
      decreases |tasks| - k
    {
      k := k + 1;
    }
  }

  lemma LastRunning(tasks: seq<Task>) returns (i: nat)
    requires exists k :: 0 <= k < |tasks| && tasks[k].stage == Running
    ensures i < |tasks| && tasks[i].stage == Running
    ensures forall k :: i < k < |tasks| ==> tasks[k].stage != Running
  {
    i := |tasks| - 1;
    while tasks[i].stage != Running
      invariant i < |tasks|
      invariant forall k :: i < k < |tasks| ==> tasks[k].stage != Running
      decreases i
    {
      i := i - 1;
    }
  }

  /** Every state that is not final has an enabled step. */
  lemma Progress(s: State, all: multiset<Message>) returns (step: Step)
    requires Inv(s, all) && !s.finished
    ensures Enabled(s, step)
  {
    hide Pending, RunningIn;
    if !s.closerStarted {
      if GroupStarted(s.tasks, 0) {
        return StartCloser;
      }
      var k := FirstIdle(s.tasks, 0);
      return Spawn(k);
    }
    if s.ch.buf != [] {
      return Receive;
    }
    if s.ch.closed {
      return Finish;
    }
    NoneRunning(s.tasks, 0);
    if s.wait[0] == 0 {
      return Close;
    }
    var i := LastRunning(s.tasks);
    step := LastRunningMoves(s, i, all);
  }

  function Work(tasks: seq<Task>): nat {
    if tasks == [] then 0 else Work(tasks[..|tasks| - 1]) + TaskWork(tasks[|tasks| - 1])
  }

  function TaskWork(t: Task): nat {
    2 * |t.todo| + match t.stage case Idle => 2 case Running => 1 case Exited => 0
  }

  function ToDo(done: bool): nat {
    if done then 0 else 1
  }

  function Measure(s: State): nat {
    Work(s.tasks) + |s.ch.buf| + ToDo(s.closerStarted) + ToDo(s.ch.closed) + ToDo(s.finished)
  }

  lemma {:induction false} WorkUpdate(tasks: seq<Task>, i: nat, t: Task)
    requires i < |tasks|
    ensures Work(tasks[i := t]) == Work(tasks) + TaskWork(t) - TaskWork(tasks[i])
  {
    var n := |tasks| - 1;
    if i == n {
      assert tasks[i := t][..n] == tasks[..n];
    } else {
      assert tasks[i := t][..n] == tasks[..n][i := t];
      WorkUpdate(tasks[..n], i, t);
    }
  }

  lemma StepShrinks(s: State, step: Step)
    requires |s.wait| == |s.tasks| + 1 && WellFormed(s.tasks) && Enabled(s, step)
    ensures Measure(Apply(s, step)) < Measure(s)
  {
    hide Work;
    match step
    case Spawn(i) => WorkUpdate(s.tasks, i, s.tasks[i].(stage := Running));
    case Send(i) => WorkUpdate(s.tasks, i, s.tasks[i].(todo := s.tasks[i].todo[1..]));
    case Exit(i) => WorkUpdate(s.tasks, i, s.tasks[i].(stage := Exited));
    case _ =>
  }

  /** A run takes no more steps than its work allows, whatever the interleaving. */
  lemma {:induction false} RunsAreFinite(s: State, steps: seq<Step>, t: State)
    requires |s.wait| == |s.tasks| + 1 && WellFormed(s.tasks) && Runs(s, steps, t)
    ensures |steps| + Measure(t) <= Measure(s)
    decreases |steps|
  {
    hide Measure, Enabled, Apply;
    if steps != [] {
      StepShrinks(s, steps[0]);
      RunsAreFinite(Apply(s, steps[0]), steps[1..], t);
    }
  }

  // ---- What the run reports --------------------------------------------------------------------

  function Reports(tasks: seq<Task>): seq<Message> {
    if tasks == [] then [] else Reports(tasks[..|tasks| - 1]) + tasks[|tasks| - 1].todo
  }

  lemma {:induction false} ReportsArePending(tasks: seq<Task>)
    ensures multiset(Reports(tasks)) == Pending(tasks)
  {
    if tasks != [] {
      ReportsArePending(tasks[..|tasks| - 1]);
    }
  }

  lemma {:induction false} TotalConcat(a: seq<Message>, b: seq<Message>)
    ensures Total(a + b) == Total(a) + Total(b)
  {
    if b == [] {
      assert a + b == a;
    } else {
      assert (a + b)[..|a + b| - 1] == a + b[..|b| - 1];
      TotalConcat(a, b[..|b| - 1]);
    }
  }

  lemma TakeOut(b: seq<Message>, k: nat)
    requires k < |b|
    ensures multiset(b) == multiset(b[..k] + b[k + 1..]) + multiset{b[k]}
    ensures Total(b) == Total(b[..k] + b[k + 1..]) + Total([b[k]])
  {
    hide Total;
    assert b == b[..k] + [b[k]] + b[k + 1..];
    TotalConcat(b[..k] + [b[k]], b[k + 1..]);
    TotalConcat(b[..k], [b[k]]);
    TotalConcat(b[..k], b[k + 1..]);
  }

  /** The total does not depend on the order of the reports. */
  lemma {:induction false} TotalOfPermutation(a: seq<Message>, b: seq<Message>)
    requires multiset(a) == multiset(b)
    ensures Total(a) == Total(b)
    decreases |a|
  {
    hide Total;
    if a == [] {
      assert |multiset(b)| == 0;
      assert b == [];
    } else {
      assert a[0] in multiset(b);
      var k: nat :| k < |b| && b[k] == a[0];
      var front, rest := a[..0] + a[1..], b[..k] + b[k + 1..];
      TakeOut(a, 0);
      TakeOut(b, k);
      CancelOne(multiset(front), multiset(rest), a[0]);
      TotalOfPermutation(front, rest);
    }
  }

  /** At the end everything enqueued was received, in that order; the reports are split into those and the
      dropped ones; and the total is that of all reports less what was dropped. */
  lemma FinalResult(tasks: seq<Task>, steps: seq<Step>, t: State)
    requires Initial(tasks) && Runs(Start(tasks), steps, t) && t.finished
    ensures AllExited(t.tasks) && !t.ch.panicked
    ensures t.total == Total(t.ch.enqueued) && t.errors == Errors(t.ch.enqueued)
    ensures multiset(t.ch.enqueued) + multiset(t.ch.dropped) == multiset(Reports(tasks))
    ensures forall m :: m in t.ch.dropped ==> !m.waits
    ensures t.total == Total(Reports(tasks)) - Total(t.ch.dropped)
  {
    hide Runs, Total, Errors, Pending, Reports;
    StartKeeps(tasks);
    RunKeeps(Start(tasks), steps, t, Pending(tasks));
    assert t.received == t.ch.enqueued;
    ReportsArePending(tasks);
    NothingPending(t.tasks);
    var sent := t.ch.enqueued + t.ch.dropped;
    assert multiset(sent) == multiset(t.ch.enqueued) + multiset(t.ch.dropped);
    TotalOfPermutation(sent, Reports(tasks));
    TotalConcat(t.ch.enqueued, t.ch.dropped);
  }

  lemma {:induction false} NothingPending(tasks: seq<Task>)
    requires forall i :: 0 <= i < |tasks| ==> tasks[i].todo == []
    ensures Pending(tasks) == multiset{}
  {
    if tasks != [] {
      NothingPending(tasks[..|tasks| - 1]);
    }
  }

  /** Reports on the way, none of them final, none of them an error. */
  predicate Interim(ms: seq<Message>) {
    forall i :: 0 <= i < |ms| ==> !ms[i].done && ms[i].err.None?
  }

  lemma {:induction false} InterimCountsNothing(ms: seq<Message>)
    requires Interim(ms)
    ensures Total(ms) == 0 && Errors(ms) == []
  {
    if ms != [] {
      InterimCountsNothing(ms[..|ms| - 1]);
    }
  }

  lemma {:induction false} ErrorsConcat(a: seq<Message>, b: seq<Message>)
    ensures Errors(a + b) == Errors(a) + Errors(b)
  {
    if b == [] {
      assert a + b == a;
    } else {
      assert (a + b)[..|a + b| - 1] == a + b[..|b| - 1];
      ErrorsConcat(a, b[..|b| - 1]);
    }
  }

  /** A parser that ends well adds the count of its last report, not those before it; one that ends in an error
      adds nothing but the error. */
  lemma ParserCountsOnce(before: seq<Message>, interim: seq<Message>, last: Message)
    requires Interim(interim) && last.done
    ensures Total(before + interim + [last]) == Total(before) + if last.err.None? then last.count else 0
    ensures Errors(before + interim + [last]) == Errors(before) + if last.err.Some? then [last.err.value] else []
  {
    InterimCountsNothing(interim);
    TotalConcat(before + interim, [last]);
    TotalConcat(before, interim);
    ErrorsConcat(before + interim, [last]);
    ErrorsConcat(before, interim);
    assert [last][..0] == [];
  }

  // ---- The drain loop --------------------------------------------------------------------------

  class RunResult {
    var totalArtifacts: int
    var errors: seq<string>

    constructor ()
      ensures totalArtifacts == 0 && errors == []
    {
      totalArtifacts, errors := 0, [];
    }

    /** The loop over everything the channel delivers until it is closed and empty. */
    method Drain(reports: seq<Message>)
      modifies this
      ensures totalArtifacts == old(totalArtifacts) + Total(reports)
      ensures errors == old(errors) + Errors(reports)
    {
      for i := 0 to |reports|
        invariant totalArtifacts == old(totalArtifacts) + Total(reports[..i])
        invariant errors == old(errors) + Errors(reports[..i])
      {
        var p := reports[i];
        assert reports[..i + 1][..i] == reports[..i];
        if p.err.Some? {
          errors := errors + [p.err.value];
        } else if p.done {
          totalArtifacts := totalArtifacts + p.count;
        }
      }
      assert reports[..|reports|] == reports;
    }
  }
}
