/** cooper/net/EventLoop: the function queue, the eventfd and the loop thread, step by step.
    Thread LOOP is the loop's own thread; every other thread is foreign. */
module EventLoops {
  import M = MpscQueues
  import S = Sequences

  type Tid = nat
  const LOOP: Tid := 0

  /** Where the loop thread is. `Entering` has set looping_ and has still to clear quit_;
      `Top` evaluates quit_; `Poll` is about to block or blocked;
      `Handling` runs channel handlers (wakeupRead is one of them when `wake` holds);
      `Checking` evaluates funcs_.empty(); `Draining` calls dequeue; `Calling` runs a function. */
  datatype LoopPc = Outside | Entering | Top | Poll | Handling(wake: bool) | Checking | Draining | Calling

  /** `waking` and `quitting` are the threads that have queued (or set quit_) and have still
      to write the eventfd. `called` is history: the functions called, in order. */
  datatype State<T> = State(
    q: M.Queue<T>, pc: LoopPc, counter: nat, quit: bool, waking: set<Tid>, quitting: set<Tid>, called: seq<T>)
  {
    predicate Looping() { pc != Outside }

    /** Between the head exchange of queueInLoop and its eventfd write. */
    predicate InWindow(t: Tid) { q.At(t).Exchanged? || t in waking }
  }

  datatype Step<T> =
    | Enqueue(s: M.Step<T>)      // Alloc, Exchange or Link of some thread
    | Write(t: Tid)              // wakeup()
    | SetQuit(t: Tid)
    | QuitWrite(t: Tid)
    | Start                      // loop() sets looping_
    | ClearQuit                  // loop() clears quit_
    | TestQuit
    | PollReturns(wake: bool)
    | WakeupRead
    | HandlersDone
    | TestEmpty
    | Dequeue(s: M.Step<T>)      // LoadNext, Take, Advance or Free of the loop thread
    | FuncReturns

  datatype Outcome<T> = Fault | Blocked | Done(s: State<T>)

  function Init<T>(): State<T> {
    State(M.Init(), Outside, 0, false, {}, {}, [])
  }

  /** The loop thread runs user code, which may call queueInLoop. */
  predicate UserCode(pc: LoopPc) {
    pc.Outside? || pc.Handling? || pc.Checking? || pc.Draining? || pc.Calling?
  }

  function Lift<T>(s: State<T>, r: M.Outcome<T>, f: M.Queue<T> -> State<T>): Outcome<T> {
    match r
    case Fault => Fault
    case Blocked => Blocked
    case Done(q) => Done(f(q))
  }

  function Apply<T>(s: State<T>, step: Step<T>): Outcome<T> {
    match step {
      case Enqueue(m) =>
        if !(m.Alloc? || m.Exchange? || m.Link?) then Blocked
        else if m.t == LOOP && !UserCode(s.pc) then Blocked
        else if m.Alloc? && (m.t in s.waking || m.t in s.quitting) then Blocked
        else
          // a foreign thread, or a loop that is not running, owes a wakeup after linking
          var owes := m.Link? && (m.t != LOOP || !s.Looping());
          Lift(s, M.Apply(s.q, m), (q: M.Queue<T>) => s.(q := q, waking := if owes then s.waking + {m.t} else s.waking))
      case Write(t) =>
        if t !in s.waking then Blocked
        else Done(s.(counter := s.counter + 1, waking := s.waking - {t}))
      case SetQuit(t) =>
        if !s.q.At(t).Idle? || t in s.waking || t in s.quitting || (t == LOOP && !UserCode(s.pc)) then Blocked
        else Done(s.(quit := true, quitting := if t == LOOP then s.quitting else s.quitting + {t}))
      case QuitWrite(t) =>
        if t !in s.quitting then Blocked
        else Done(s.(counter := s.counter + 1, quitting := s.quitting - {t}))
      case Start =>
        if !s.pc.Outside? || !LoopFree(s) then Blocked
        else Done(s.(pc := Entering))
      case ClearQuit =>
        if !s.pc.Entering? then Blocked
        else Done(s.(pc := Top, quit := false))
      case TestQuit =>
        if !s.pc.Top? then Blocked
        else Done(s.(pc := if s.quit then Outside else Poll))
      case PollReturns(wake) =>
        if !s.pc.Poll? || (wake && s.counter == 0) then Blocked
        else Done(s.(pc := Handling(wake)))
      case WakeupRead =>
        if !s.pc.Handling? || !s.pc.wake then Blocked
        else Done(s.(pc := Handling(false), counter := 0))
      case HandlersDone =>
        if !s.pc.Handling? || s.pc.wake || !LoopFree(s) then Blocked
        else Done(s.(pc := Checking))
      case TestEmpty =>
        if !s.pc.Checking? || !LoopFree(s) then Blocked
        else if s.q.tail !in s.q.heap then Fault
        else Done(s.(pc := if s.q.heap[s.q.tail].next.None? then Top else Draining))
      case Dequeue(m) =>
        if !s.pc.Draining? || !(m.LoadNext? || m.Take? || m.Advance? || m.Free?) then Blocked
        else
          // a failed dequeue goes back to testing empty(); a completed one calls the function
          Lift(s, M.Apply(s.q, m), (q: M.Queue<T>) => s.(q := q,
              called := if m.Free? && q.out != [] then s.called + [q.out[|q.out| - 1]] else s.called,
              pc := if m.LoadNext? && q.consumer.Ready? then Checking else if m.Free? then Calling else Draining))
      case FuncReturns =>
        if !s.pc.Calling? || !LoopFree(s) then Blocked
        else Done(s.(pc := Draining))
    }
  }

  /** The loop thread is not inside an enqueue or a wakeup of its own. */
  predicate LoopFree<T>(s: State<T>) {
    s.q.At(LOOP).Idle? && LOOP !in s.waking
  }

  function Run<T>(s: State<T>, steps: seq<Step<T>>): Outcome<T>
    decreases |steps|
  {
    if steps == [] then Done(s)
    else
      match Apply(s, steps[0])
      case Fault => Fault
      case Blocked => Run(s, steps[1..])
      case Done(s') => Run(s', steps[1..])
  }

  /** A function that is queued while the loop is not going to look for it has a wakeup
      pending or on its way. */
  ghost predicate WakeupComing<T>(s: State<T>) {
    s.q.out == s.q.order || s.counter > 0 || exists t :: s.InWindow(t)
  }

  ghost predicate QuitComing<T>(s: State<T>) {
    !s.quit || s.counter > 0 || s.quitting != {}
  }

  /** Everything taken from the queue has been called, except a function whose dequeue is
      not over yet. */
  ghost predicate CalledInv<T>(s: State<T>) {
    if s.q.consumer.Taken? || s.q.consumer.Advanced? then s.q.out != [] && s.called == s.q.out[..|s.q.out| - 1]
    else s.called == s.q.out
  }

  ghost predicate Inv<T>(s: State<T>) {
    && M.Inv(s.q) && CalledInv(s)
    && (s.pc.Outside? || s.pc.Entering? || s.pc.Top? || s.pc.Poll? ==> s.q.consumer.Ready? && WakeupComing(s))
    && (s.pc.Entering? || s.pc.Top? || s.pc.Poll? ==> LoopFree(s))
    && (s.pc.Poll? ==> QuitComing(s))
    && (s.Looping() ==> LOOP !in s.waking)
    && (!s.pc.Draining? ==> s.q.consumer.Ready?)
    && LOOP !in s.quitting
  }

  lemma StepKeepsInv<T>(s: State<T>, step: Step<T>)
    requires Inv(s)
    ensures !Apply(s, step).Fault?
    ensures Apply(s, step).Done? ==> Inv(Apply(s, step).s)
  {
    match step {
      case Enqueue(m) => EnqueueKeepsInv(s, m);
      case Dequeue(m) => DequeueKeepsInv(s, m);
      case TestEmpty => TestEmptyKeepsInv(s);
      case _ => ControlKeepsInv(s, step);
    }
  }

  /** Steps that leave the function queue alone. */
  lemma ControlKeepsInv<T>(s: State<T>, step: Step<T>)
    requires Inv(s) && !step.Enqueue? && !step.Dequeue? && !step.TestEmpty?
    ensures var r := Apply(s, step);
            !r.Fault? && (r.Done? ==> r.s.q == s.q && Inv(r.s))
  {
    var r := Apply(s, step);
    if r.Done? && r.s.counter == s.counter && r.s.waking == s.waking { SameWindow(s, r.s); }
  }

  lemma DequeueKeepsInv<T>(s: State<T>, m: M.Step<T>)
    requires Inv(s)
    ensures var r := Apply(s, Dequeue(m));
            !r.Fault? && (r.Done? ==> Inv(r.s))
  {
    M.StepKeepsInv(s.q, m);
    var r := Apply(s, Dequeue(m));
    if r.Done? { DequeueKeepsCalled(s, m); }
  }

  lemma DequeueKeepsCalled<T>(s: State<T>, m: M.Step<T>)
    requires Inv(s) && Apply(s, Dequeue(m)).Done?
    ensures CalledInv(Apply(s, Dequeue(m)).s)
  {
    var q, q' := s.q, Apply(s, Dequeue(m)).s.q;
    if m.Take? {
      assert q'.out[..|q'.out| - 1] == q.out;
    } else if m.Free? {
      assert s.called + [q.out[|q.out| - 1]] == q.out;
    }
  }

  lemma SameWindow<T>(s: State<T>, s': State<T>)
    requires s.q == s'.q && s.waking == s'.waking && s.counter == s'.counter
    ensures WakeupComing(s) ==> WakeupComing(s')
  {
    if t :| s.InWindow(t) { assert s'.InWindow(t); }
  }

  /** What a step of enqueue changes. */
  lemma EnqueueChanges<T>(q: M.Queue<T>, m: M.Step<T>)
    requires (m.Alloc? || m.Exchange? || m.Link?) && M.Apply(q, m).Done?
    ensures var q' := M.Apply(q, m).q;
            && q'.consumer == q.consumer && q'.out == q.out
            && (forall t :: t != m.t ==> q'.At(t) == q.At(t))
            && (m.Exchange? ==> q'.At(m.t).Exchanged?)
            && (m.Alloc? ==> q.At(m.t).Idle?)
            && (m.Exchange? ==> q.At(m.t).Allocated?)
            && (!m.Exchange? ==> q'.order == q.order)
  {}

  /** A step of enqueue that owes a wakeup leaves one coming. */
  lemma EnqueueKeepsWakeup<T>(s: State<T>, m: M.Step<T>)
    requires WakeupComing(s) && Apply(s, Enqueue(m)).Done? && (m.t != LOOP || !s.Looping())
    ensures WakeupComing(Apply(s, Enqueue(m)).s)
  {
    EnqueueChanges(s.q, m);
    var s' := Apply(s, Enqueue(m)).s;
    if m.Exchange? || m.Link? {
      assert s'.InWindow(m.t);
    } else if t :| s.InWindow(t) {
      assert s'.InWindow(t);
    }
  }

  /** A step of enqueue changes the queue and perhaps `waking`, and nothing else. */
  lemma EnqueueStep<T>(s: State<T>, m: M.Step<T>)
    requires Inv(s)
    ensures var r := Apply(s, Enqueue(m));
            && !r.Fault?
            && (r.Done? ==>
                  && (m.Alloc? || m.Exchange? || m.Link?) && M.Apply(s.q, m).Done? && M.Inv(M.Apply(s.q, m).q)
                  && r.s == s.(q := M.Apply(s.q, m).q, waking := r.s.waking)
                  && (r.s.waking == s.waking || (r.s.waking == s.waking + {m.t} && (m.t != LOOP || !s.Looping())))
                  && (m.t == LOOP ==> UserCode(s.pc)))
  {
    M.StepKeepsInv(s.q, m);
  }

  lemma EnqueueKeepsInv<T>(s: State<T>, m: M.Step<T>)
    requires Inv(s)
    ensures var r := Apply(s, Enqueue(m));
            !r.Fault? && (r.Done? ==> Inv(r.s))
  {
    EnqueueStep(s, m);
    var r := Apply(s, Enqueue(m));
    if r.Done? {
      EnqueueChanges(s.q, m);
      if WakeupComing(s) && (m.t != LOOP || !s.Looping()) { EnqueueKeepsWakeup(s, m); }
    }
  }

  /** empty() is the last look at the queue before polling: if a value is hidden from it, a
      foreign thread has exchanged the head and has still to link and to wake the loop. */
  lemma TestEmptyKeepsInv<T>(s: State<T>)
    requires Inv(s)
    ensures var r := Apply(s, TestEmpty);
            !r.Fault? && (r.Done? ==> Inv(r.s))
  {
    var r := Apply(s, TestEmpty);
    if !r.Blocked? {
      M.DequeueFailsIff(s.q);
      if r.s.pc.Top? && s.q.out != s.q.order {
        assert r.s.InWindow(s.q.who[|s.q.out|]);
      }
    }
  }

  /** The test against the history: the loop goes back to its top if and only if every queued
      function has been dequeued, or the thread of the oldest one left has still to link it. */
  lemma TestEmptyIff<T>(s: State<T>)
    requires Inv(s) && s.pc.Checking? && LoopFree(s)
    ensures Apply(s, TestEmpty).Done?
    ensures var s' := Apply(s, TestEmpty).s;
            && (s'.pc.Top? <==>
                  || s.q.out == s.q.order
                  || s.q.At(s.q.who[|s.q.out|]) == M.Exchanged(s.q.chain[1], s.q.tail, |s.q.out|))
            && (!s'.pc.Top? ==> s'.pc.Draining?)
            && s' == s.(pc := s'.pc)
  {
    M.DequeueFailsIff(s.q);
  }

  lemma {:induction false} RunKeepsInv<T>(s: State<T>, steps: seq<Step<T>>)
    requires Inv(s)
    ensures Run(s, steps).Done? && Inv(Run(s, steps).s)
    decreases |steps|
  {
    if steps != [] {
      StepKeepsInv(s, steps[0]);
      var next := Apply(s, steps[0]);
      RunKeepsInv(if next.Done? then next.s else s, steps[1..]);
    }
  }

  /** No lost wakeup: whatever the threads do, whenever the loop sits in poll with the
      eventfd at 0, every queued function has been called or a foreign thread is between its
      head exchange and its eventfd write; and likewise for a quit. */
  lemma NoLostWakeup<T>(steps: seq<Step<T>>)
    ensures Run<T>(Init(), steps).Done?
    ensures var s := Run<T>(Init(), steps).s;
            s.pc.Poll? && s.counter == 0 ==>
              && (s.q.out == s.q.order || exists t :: t != LOOP && s.InWindow(t))
              && (s.quit ==> exists t :: t != LOOP && t in s.quitting)
  {
    M.InitInv<T>();
    RunKeepsInv(Init<T>(), steps);
    var s := Run<T>(Init(), steps).s;
    if s.pc.Poll? && s.counter == 0 {
      if t :| s.InWindow(t) { assert t != LOOP; }
      if s.quit { var t :| t in s.quitting; assert t != LOOP; }
    }
  }

  /** The functions given to queueInLoop, in the order of their head exchanges, as the steps
      of a run say it: `given` holds the latest function of each thread. */
  function Queued<T>(s: State<T>, steps: seq<Step<T>>, given: map<Tid, T>): seq<T>
    decreases |steps|
  {
    if steps == [] then []
    else
      match Apply(s, steps[0])
      case Done(s') => QueuedBy(steps[0], given) + Queued(s', steps[1..], GivenAfter(steps[0], given))
      case _ => Queued(s, steps[1..], given)
  }

  function GivenAfter<T>(step: Step<T>, given: map<Tid, T>): map<Tid, T> {
    if step.Enqueue? then M.GivenAfter(step.s, given) else given
  }

  function QueuedBy<T>(step: Step<T>, given: map<Tid, T>): seq<T> {
    if step.Enqueue? then M.SentBy(step.s, given) else []
  }

  lemma StepQueuesGiven<T>(s: State<T>, step: Step<T>, given: map<Tid, T>)
    requires Inv(s) && M.HoldsGiven(s.q, given) && Apply(s, step).Done?
    ensures M.HoldsGiven(Apply(s, step).s.q, GivenAfter(step, given))
    ensures Apply(s, step).s.q.order == s.q.order + QueuedBy(step, given)
  {
    if step.Enqueue? || step.Dequeue? {
      M.StepSendsGiven(s.q, step.s, given);
    } else if !step.TestEmpty? {
      ControlKeepsInv(s, step);
    }
  }

  lemma {:induction false} OrderIsWhatWasQueued<T>(s: State<T>, steps: seq<Step<T>>, given: map<Tid, T>)
    requires Inv(s) && M.HoldsGiven(s.q, given)
    ensures Run(s, steps).Done? && Run(s, steps).s.q.order == s.q.order + Queued(s, steps, given)
    decreases |steps|
  {
    if steps != [] {
      StepKeepsInv(s, steps[0]);
      match Apply(s, steps[0]) {
        case Done(next) =>
          StepQueuesGiven(s, steps[0], given);
          OrderIsWhatWasQueued(next, steps[1..], GivenAfter(steps[0], given));
          S.Associative(s.q.order, QueuedBy(steps[0], given), Queued(next, steps[1..], GivenAfter(steps[0], given)));
        case Blocked => OrderIsWhatWasQueued(s, steps[1..], given);
        case Fault =>
      }
    }
  }

  /** The functions called are those given to queueInLoop, in the order of their head
      exchanges, each at most once; when the loop sits in poll everything dequeued has been
      called. */
  lemma CalledInOrder<T>(steps: seq<Step<T>>)
    ensures Run<T>(Init(), steps).Done?
    ensures var s := Run<T>(Init(), steps).s;
            && s.called <= s.q.out <= s.q.order == Queued<T>(Init(), steps, map[])
            && (s.pc.Poll? ==> s.called == s.q.out)
  {
    M.InitInv<T>();
    RunKeepsInv(Init<T>(), steps);
    OrderIsWhatWasQueued(Init<T>(), steps, map[]);
  }

  /** The eventfd writes since the loop last read it, starting from `n`. */
  function Writes<T>(s: State<T>, steps: seq<Step<T>>, n: nat): nat
    decreases |steps|
  {
    if steps == [] then n
    else
      match Apply(s, steps[0])
      case Done(s') => Writes(s', steps[1..], WritesAfter(steps[0], n))
      case _ => Writes(s, steps[1..], n)
  }

  function WritesAfter<T>(step: Step<T>, n: nat): nat {
    if step.WakeupRead? then 0 else if step.Write? || step.QuitWrite? then n + 1 else n
  }

  /** A loop that was told of a wakeup has not read the eventfd since. */
  ghost predicate WakeIsReal<T>(s: State<T>) {
    s.pc.Handling? && s.pc.wake ==> s.counter > 0
  }

  lemma StepCounts<T>(s: State<T>, step: Step<T>)
    requires Apply(s, step).Done?
    ensures Apply(s, step).s.counter == WritesAfter(step, s.counter)
    ensures WakeIsReal(s) ==> WakeIsReal(Apply(s, step).s)
  {}

  /** Over every run the eventfd holds the number of writes since it was last read, and a
      wakeup is handled only when there was one. */
  lemma {:induction false} CounterIsWrites<T>(s: State<T>, steps: seq<Step<T>>)
    requires Inv(s) && WakeIsReal(s)
    ensures Run(s, steps).Done?
    ensures Run(s, steps).s.counter == Writes(s, steps, s.counter) && WakeIsReal(Run(s, steps).s)
    decreases |steps|
  {
    if steps != [] {
      StepKeepsInv(s, steps[0]);
      var next := Apply(s, steps[0]);
      if next.Done? { StepCounts(s, steps[0]); }
      CounterIsWrites(if next.Done? then next.s else s, steps[1..]);
    }
  }

  /** A reported wakeup keeps the loop handling it until the eventfd has been read. */
  lemma WakeIsRead<T>(s: State<T>, step: Step<T>)
    requires s.pc == Handling(true) && Apply(s, step).Done?
    ensures var s' := Apply(s, step).s;
            s'.pc == Handling(true) || (s'.pc == Handling(false) && s'.counter == 0)
  {}

  /** Whether quit() has set the flag since loop() last cleared it; before the first step
      `asked` says. Steps that are not enabled do not happen. */
  predicate Asked<T>(s: State<T>, steps: seq<Step<T>>, asked: bool)
    decreases |steps|
  {
    if steps == [] then asked
    else
      match Apply(s, steps[0])
      case Done(s') => Asked(s', steps[1..], steps[0].SetQuit? || (asked && !steps[0].ClearQuit?))
      case _ => Asked(s, steps[1..], asked)
  }

  lemma QuitStep<T>(s: State<T>, step: Step<T>)
    requires Apply(s, step).Done?
    ensures Apply(s, step).s.quit <==> step.SetQuit? || (s.quit && !step.ClearQuit?)
  {}

  /** Over every run the flag says exactly whether quit() came after loop() last cleared it. */
  lemma {:induction false} QuitIsLatestRequest<T>(s: State<T>, steps: seq<Step<T>>)
    requires Inv(s)
    ensures Run(s, steps).Done? && (Run(s, steps).s.quit <==> Asked(s, steps, s.quit))
    decreases |steps|
  {
    if steps != [] {
      StepKeepsInv(s, steps[0]);
      var next := Apply(s, steps[0]);
      if next.Done? { QuitStep(s, steps[0]); }
      QuitIsLatestRequest(if next.Done? then next.s else s, steps[1..]);
    }
  }

  /** Whenever the loop evaluates quit_, it ends if and only if quit() was called since
      loop() cleared the flag. */
  lemma LoopEndsIffAsked<T>(steps: seq<Step<T>>)
    ensures Run<T>(Init(), steps).Done?
    ensures var s := Run<T>(Init(), steps).s;
            s.pc.Top? ==>
              && Apply(s, TestQuit).Done?
              && (Apply(s, TestQuit).s.pc.Outside? <==> Asked<T>(Init(), steps, false))
  {
    M.InitInv<T>();
    QuitIsLatestRequest(Init<T>(), steps);
  }

  lemma RunStep<T>(s: State<T>, step: Step<T>, rest: seq<Step<T>>)
    requires Apply(s, step).Done?
    ensures Run(s, [step] + rest) == Run(Apply(s, step).s, rest)
  {
    assert ([step] + rest)[0] == step && ([step] + rest)[1..] == rest;
  }

  /** The loop thread enters the loop and evaluates the flag. */
  lemma RunTest<T>(s: State<T>)
    requires s.pc.Entering?
    ensures Run(s, [ClearQuit, TestQuit]) == Done(s.(pc := Poll, quit := false))
  {
    var last: seq<Step<T>> := [TestQuit];
    RunStep(s, ClearQuit, last);
    RunStep(s.(pc := Top, quit := false), TestQuit, []);
    assert [ClearQuit] + last == [ClearQuit, TestQuit] && last + [] == last;
  }

  /** A quit() that comes before loop() is lost: the loop goes on to poll. */
  lemma QuitBeforeLoopIsLost<T>()
    ensures var r := Run<T>(Init(), [SetQuit(1), QuitWrite(1), Start] + [ClearQuit, TestQuit]);
            r.Done? && r.s.pc.Poll? && !r.s.quit
  {
    var tail: seq<Step<T>> := [ClearQuit, TestQuit];
    var s0 := Init<T>();
    var s1 := Apply(s0, SetQuit(1)).s;
    var s2 := Apply(s1, QuitWrite(1)).s;
    RunStep(s0, SetQuit(1), [QuitWrite(1), Start] + tail);
    RunStep(s1, QuitWrite(1), [Start] + tail);
    RunStep(s2, Start, tail);
    RunTest(Apply(s2, Start).s);
    assert [SetQuit(1)] + ([QuitWrite(1), Start] + tail) == [SetQuit(1), QuitWrite(1), Start] + tail;
    assert [QuitWrite(1)] + ([Start] + tail) == [QuitWrite(1), Start] + tail;
  }

  /** So is one that comes after loop() has set looping_ and before it clears the flag. */
  lemma QuitWhileEnteringIsLost<T>()
    ensures var r := Run<T>(Init(), [Start, SetQuit(1), QuitWrite(1)] + [ClearQuit, TestQuit]);
            r.Done? && r.s.pc.Poll? && !r.s.quit
    ensures Apply<T>(Init(), Start).Done? && Apply<T>(Init(), Start).s.Looping()
  {
    var tail: seq<Step<T>> := [ClearQuit, TestQuit];
    var s0 := Init<T>();
    var s1 := Apply(s0, Start).s;
    var s2 := Apply(s1, SetQuit(1)).s;
    RunStep(s0, Start, [SetQuit(1), QuitWrite(1)] + tail);
    RunStep(s1, SetQuit(1), [QuitWrite(1)] + tail);
    RunStep(s2, QuitWrite(1), tail);
    RunTest(Apply(s2, QuitWrite(1)).s);
    assert [Start] + ([SetQuit(1), QuitWrite(1)] + tail) == [Start, SetQuit(1), QuitWrite(1)] + tail;
    assert [SetQuit(1)] + ([QuitWrite(1)] + tail) == [SetQuit(1), QuitWrite(1)] + tail;
  }
}
