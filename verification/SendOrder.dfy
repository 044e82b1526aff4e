/** cooper/net/TcpConnectionImpl: how send and sendFile calls from any mix of threads reach
    the write list of one connection. Every call takes sendNumMutex_; foreign threads, and
    the loop thread while tasks are outstanding, go through the loop's function queue. */
module SendOrders {
  import opened Sequences

  type Tid = nat
  const LOOP: Tid := 0

  /** What the thread that holds sendNumMutex_ is doing. */
  datatype Mutex<M> =
    | Free
    | Sending(t: Tid, msg: M)    // has just taken it in send or sendFile
    | Counted(t: Tid, msg: M)    // has incremented sendNum_
    | Leaving(t: Tid)            // has only to release it
    | Finishing                  // a task on the loop thread, about to decrement sendNum_

  /** The send task that the loop thread is running, if any. */
  datatype Task<M> = NoTask | Fetched(msg: M) | Sent

  /** `order` is history: the messages in the order in which their calls took the mutex.
      `list` is the order in which they reach the write list. */
  datatype State<M> = State(
    mutex: Mutex<M>, sendNum: nat, queue: seq<M>, task: Task<M>, order: seq<M>, list: seq<M>)

  datatype Step<M> =
    | Call(t: Tid, msg: M)  // the mutex is taken
    | Direct                // the loop thread finds sendNum_ == 0
    | Count                 // ++sendNum_
    | Queue                 // queueInLoop
    | Release
    | Fetch                 // the loop thread dequeues the oldest task
    | RunTask               // sendInLoop, or push_back of a file node
    | LockToFinish
    | Finish                // --sendNum_ and release

  datatype Outcome<M> = Underflow | Blocked | Done(s: State<M>)

  function Init<M>(): State<M> {
    State(Free, 0, [], NoTask, [], [])
  }

  function Apply<M>(s: State<M>, step: Step<M>): Outcome<M> {
    match step {
      case Call(t, msg) =>
        // the loop thread does not call send while it is inside a send task
        if !s.mutex.Free? || (t == LOOP && !s.task.NoTask?) then Blocked
        else Done(s.(mutex := Sending(t, msg), order := s.order + [msg]))
      case Direct =>
        if !s.mutex.Sending? || s.mutex.t != LOOP || s.sendNum != 0 then Blocked
        else Done(s.(mutex := Leaving(LOOP), list := s.list + [s.mutex.msg]))
      case Count =>
        if !s.mutex.Sending? || (s.mutex.t == LOOP && s.sendNum == 0) then Blocked
        else Done(s.(mutex := Counted(s.mutex.t, s.mutex.msg), sendNum := s.sendNum + 1))
      case Queue =>
        if !s.mutex.Counted? then Blocked
        else Done(s.(mutex := Leaving(s.mutex.t), queue := s.queue + [s.mutex.msg]))
      case Release =>
        if !s.mutex.Leaving? then Blocked else Done(s.(mutex := Free))
      case Fetch =>
        if !s.task.NoTask? || s.queue == [] || LoopInSend(s) then Blocked
        else Done(s.(task := Fetched(s.queue[0]), queue := s.queue[1..]))
      case RunTask =>
        if !s.task.Fetched? then Blocked
        else Done(s.(task := Sent, list := s.list + [s.task.msg]))
      case LockToFinish =>
        if !s.task.Sent? || !s.mutex.Free? then Blocked else Done(s.(mutex := Finishing))
      case Finish =>
        if !s.mutex.Finishing? then Blocked
        else if s.sendNum == 0 then Underflow
        else Done(s.(mutex := Free, task := NoTask, sendNum := s.sendNum - 1))
    }
  }

  predicate LoopInSend<M>(s: State<M>) {
    match s.mutex
    case Free => false
    case Finishing => true
    case Sending(t, _) => t == LOOP
    case Counted(t, _) => t == LOOP
    case Leaving(t) => t == LOOP
  }

  function Run<M>(s: State<M>, steps: seq<Step<M>>): Outcome<M>
    decreases |steps|
  {
    if steps == [] then Done(s)
    else
      match Apply(s, steps[0])
      case Underflow => Underflow
      case Blocked => Run(s, steps[1..])
      case Done(s') => Run(s', steps[1..])
  }

  /** Messages that have been called for and are still on the way to the list. */
  function OnTheWay<M>(s: State<M>): seq<M> {
    (if s.task.Fetched? then [s.task.msg] else []) + s.queue +
    (match s.mutex
     case Sending(_, msg) => [msg]
     case Counted(_, msg) => [msg]
     case _ => [])
  }

  /** sendNum_ counts the queued tasks that have not yet decremented it. */
  function Outstanding<M>(s: State<M>): nat {
    |s.queue| + (if s.task.NoTask? then 0 else 1) + (if s.mutex.Counted? then 1 else 0)
  }

  ghost predicate Inv<M>(s: State<M>) {
    && s.order == s.list + OnTheWay(s)
    && s.sendNum == Outstanding(s)
    && (s.mutex.Finishing? ==> s.task.Sent?)
    && (LoopInSend(s) && !s.mutex.Finishing? ==> s.task.NoTask?)
  }

  lemma StepKeepsInv<M>(s: State<M>, step: Step<M>)
    requires Inv(s)
    ensures !Apply(s, step).Underflow?
    ensures Apply(s, step).Done? ==> Inv(Apply(s, step).s)
  {
    var r := Apply(s, step);
    if r.Done? {
      var way := OnTheWay(s);
      match step {
        case Call(_, msg) => assert OnTheWay(r.s) == way + [msg];
        case Direct => assert way == [s.mutex.msg];
        case Fetch => assert s.queue == [s.queue[0]] + s.queue[1..]; assert OnTheWay(r.s) == way;
        case RunTask => assert way == [s.task.msg] + OnTheWay(r.s);
        case _ => assert OnTheWay(r.s) == way;
      }
    }
  }

  lemma {:induction false} RunKeepsInv<M>(s: State<M>, steps: seq<Step<M>>)
    requires Inv(s)
    ensures Run(s, steps).Done? && Inv(Run(s, steps).s)
    decreases |steps|
  {
    if steps != [] {
      StepKeepsInv(s, steps[0]);
      var next := Apply(s, steps[0]);
      RunKeepsInv(if next.Done? then next.s else s, steps[1..]);
    }
  }

  /** The messages of the calls in a run, in the order in which they took the mutex. Steps that
      are not enabled do not happen. */
  function Calls<M>(s: State<M>, steps: seq<Step<M>>): seq<M>
    decreases |steps|
  {
    if steps == [] then []
    else
      match Apply(s, steps[0])
      case Done(s') => (if steps[0].Call? then [steps[0].msg] else []) + Calls(s', steps[1..])
      case _ => Calls(s, steps[1..])
  }

  lemma {:induction false} OrderIsCalls<M>(s: State<M>, steps: seq<Step<M>>)
    requires Inv(s)
    ensures Run(s, steps).Done? && Run(s, steps).s.order == s.order + Calls(s, steps)
    decreases |steps|
  {
    if steps != [] {
      StepKeepsInv(s, steps[0]);
      match Apply(s, steps[0]) {
        case Done(next) =>
          OrderIsCalls(next, steps[1..]);
          Associative(s.order, if steps[0].Call? then [steps[0].msg] else [], Calls(next, steps[1..]));
        case Blocked => OrderIsCalls(s, steps[1..]);
        case Underflow =>
      }
    }
  }

  /** For every interleaving: messages reach the write list in the order in which the calls
      took the mutex, sendNum_ never underflows and always equals the outstanding tasks,
      and once nothing is outstanding and the mutex is free every message has arrived. */
  lemma SendsKeepOrder<M>(steps: seq<Step<M>>)
    ensures Run<M>(Init(), steps).Done?
    ensures var s := Run<M>(Init(), steps).s;
            && s.order == Calls<M>(Init(), steps)
            && s.list <= s.order
            && s.sendNum == Outstanding(s)
            && (s.sendNum == 0 && s.mutex.Free? ==> s.list == s.order)
  {
    RunKeepsInv(Init<M>(), steps);
    OrderIsCalls(Init<M>(), steps);
  }

  /** A call goes straight to the list exactly if it is made on the loop thread with no task
      outstanding; every other call is counted and queued. */
  lemma DirectIff<M>(s: State<M>)
    requires Inv(s) && s.mutex.Sending?
    ensures Apply(s, Direct).Done? <==> s.mutex.t == LOOP && s.queue == [] && s.task.NoTask?
    ensures Apply(s, Direct).Done? ==> Apply(s, Direct).s.list == s.list + [s.mutex.msg]
    ensures Apply(s, Count).Done? <==> !Apply(s, Direct).Done?
  {}

  predicate Delivered<M>(s: State<M>) {
    s.mutex.Free? && s.task.NoTask? && s.queue == []
  }

  /** What remains to be done for the calls that have been made. */
  function Todo<M>(s: State<M>): nat {
    5 * |s.queue|
    + (match s.task case NoTask => 0 case Fetched(_) => 4 case Sent => 3)
    + (match s.mutex case Free => 1 case Sending(_, _) => 9 case Counted(_, _) => 8 case Leaving(_) => 2 case Finishing => 0)
  }

  /** The next step of the thread that holds the mutex, or of the loop thread. */
  lemma GoesOn<M>(s: State<M>) returns (step: Step<M>)
    requires Inv(s) && !Delivered(s)
    ensures !step.Call? && Apply(s, step).Done?
    ensures Todo(Apply(s, step).s) < Todo(s) && Apply(s, step).s.order == s.order
  {
    match s.mutex {
      case Sending(t, _) => step := if t == LOOP && s.sendNum == 0 then Direct else Count;
      case Counted(_, _) => step := Queue;
      case Leaving(_) => step := Release;
      case Finishing => step := Finish;
      case Free =>
        match s.task {
          case NoTask => step := Fetch;
          case Fetched(_) => step := RunTask;
          case Sent => step := LockToFinish;
        }
    }
  }

  /** No deadlock: from every state that the calls can lead to, the threads' own steps bring
      every message to the list, and nothing is outstanding then. */
  lemma {:induction false} EverythingArrives<M>(s: State<M>) returns (steps: seq<Step<M>>)
    requires Inv(s)
    ensures forall step :: step in steps ==> !step.Call?
    ensures var r := Run(s, steps);
            && r.Done? && Inv(r.s) && r.s.mutex.Free? && r.s.task.NoTask? && r.s.queue == []
            && r.s.sendNum == 0 && r.s.list == r.s.order == s.order
    decreases Todo(s)
  {
    if Delivered(s) {
      steps := [];
    } else {
      var step := GoesOn(s);
      StepKeepsInv(s, step);
      var rest := EverythingArrives(Apply(s, step).s);
      steps := [step] + rest;
      assert steps[1..] == rest;
    }
  }
}
