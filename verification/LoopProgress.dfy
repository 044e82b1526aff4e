/** cooper/net/EventLoop: whole calls of queueInLoop and quit, and the loop thread getting
    through everything that is queued. */
module LoopProgress {
  import M = MpscQueues
  import opened EventLoops

  /** Steps of the loop's own thread; calling loop() again is one. */
  predicate OfLoop<T>(step: Step<T>) {
    match step
    case Enqueue(m) => (m.Alloc? || m.Exchange? || m.Link?) && m.t == LOOP
    case Write(t) => t == LOOP
    case SetQuit(t) => t == LOOP
    case QuitWrite(t) => t == LOOP
    case _ => true
  }

  ghost predicate NoneExchanged<T>(s: State<T>) {
    forall t :: !s.q.At(t).Exchanged?
  }

  lemma RunTwice<T>(s: State<T>, first: seq<Step<T>>, then_: seq<Step<T>>)
    requires Run(s, first).Done?
    ensures Run(s, first + then_) == Run(Run(s, first).s, then_)
    decreases |first|
  {
    if first == [] {
      assert first + then_ == then_;
    } else {
      assert (first + then_)[1..] == first[1..] + then_;
      var next := Apply(s, first[0]);
      RunTwice(if next.Done? then next.s else s, first[1..], then_);
    }
  }

  lemma RunOne<T>(s: State<T>, x: Step<T>)
    requires Apply(s, x).Done?
    ensures Run(s, [x]) == Apply(s, x)
  {
    RunStep(s, x, []);
    assert [x] == [x] + [];
  }

  lemma RunTwo<T>(s: State<T>, x: Step<T>, y: Step<T>)
    requires Apply(s, x).Done? && Apply(Apply(s, x).s, y).Done?
    ensures Run(s, [x, y]) == Apply(Apply(s, x).s, y)
  {
    RunStep(s, x, [y]);
    RunOne(Apply(s, x).s, y);
    assert [x, y] == [x] + [y];
  }

  /** The end that a drain comes to. */
  ghost predicate Drained<T>(s: State<T>) {
    s.pc.Top? && s.called == s.q.order
  }

  /** The loop thread is in no call of queueInLoop, and every exchanged node is linked. */
  ghost predicate Steady<T>(s: State<T>) {
    Inv(s) && LoopFree(s) && NoneExchanged(s)
  }

  ghost predicate Running<T>(s: State<T>) {
    Steady(s) && (s.pc.Checking? || s.pc.Draining? || s.pc.Calling?)
  }

  /** How far the loop is from doRunInLoopFuncs, and how much it has to do in it. */
  function Ahead<T>(s: State<T>): nat {
    match s.pc
    case Top => if s.quit then 7 else 4
    case Outside => 6
    case Entering => 5
    case Poll => 3
    case Handling(wake) => if wake then 2 else 1
    case _ => 0
  }

  ghost function Left<T>(s: State<T>): nat
    requires Inv(s)
  {
    8 * (|s.q.order| - |s.q.out|) +
    match s.pc
    case Checking => if s.q.out == s.q.order then 1 else 4
    case Draining => (match s.q.consumer case Ready => 3 case Loaded(_) => 2 case Taken(_) => 7 case Advanced(_) => 6)
    case Calling => 5
    case _ => 0
  }

  ghost predicate Nearer<T>(s: State<T>, s': State<T>) {
    && Steady(s) && Steady(s') && s'.q.order == s.q.order
    && (Drained(s') || Ahead(s') < Ahead(s) || (Ahead(s') == Ahead(s) && Left(s') < Left(s)))
  }

  lemma CheckingGoesOn<T>(s: State<T>)
    requires Running(s) && s.pc.Checking?
    ensures Apply(s, TestEmpty).Done? && Nearer(s, Apply(s, TestEmpty).s)
  {
    StepKeepsInv(s, TestEmpty);
    TestEmptyIff(s);
  }

  lemma CallingGoesOn<T>(s: State<T>)
    requires Running(s) && s.pc.Calling?
    ensures Apply(s, FuncReturns).Done? && Nearer(s, Apply(s, FuncReturns).s)
  {
    StepKeepsInv(s, FuncReturns);
  }

  lemma SameProducers<T>(s: State<T>, s': State<T>)
    requires s'.q.producers == s.q.producers
    ensures NoneExchanged(s) ==> NoneExchanged(s')
    ensures LoopFree(s) && s'.waking == s.waking ==> LoopFree(s')
  {
    assert forall t :: s'.q.At(t) == s.q.At(t);
  }

  lemma LoadGoesOn<T>(s: State<T>)
    requires Running(s) && s.pc.Draining? && s.q.consumer.Ready?
    ensures Apply(s, Dequeue(M.LoadNext)).Done? && Nearer(s, Apply(s, Dequeue(M.LoadNext)).s)
  {
    StepKeepsInv(s, Dequeue(M.LoadNext));
    M.LoadSeesNext(s.q);
    M.DequeueFailsIff(s.q);
    SameProducers(s, Apply(s, Dequeue(M.LoadNext)).s);
  }

  lemma TakeStep<T>(s: State<T>)
    requires Running(s) && s.pc.Draining? && s.q.consumer.Loaded?
    ensures M.Apply(s.q, M.Take).Done?
    ensures var r := Apply(s, Dequeue(M.Take));
            r.Done? && r.s.q == M.Apply(s.q, M.Take).q && r.s.pc.Draining? && r.s.waking == s.waking
  {
    M.TakeMovesValue(s.q);
  }

  lemma TakeGoesOn<T>(s: State<T>)
    requires Running(s) && s.pc.Draining? && s.q.consumer.Loaded?
    ensures Apply(s, Dequeue(M.Take)).Done? && Nearer(s, Apply(s, Dequeue(M.Take)).s)
  {
    TakeStep(s);
    var s' := Apply(s, Dequeue(M.Take)).s;
    assert Inv(s') by { StepKeepsInv(s, Dequeue(M.Take)); }
    M.TakeMovesValue(s.q);
    SameProducers(s, s');
  }

  lemma AdvanceGoesOn<T>(s: State<T>)
    requires Running(s) && s.pc.Draining? && s.q.consumer.Taken?
    ensures Apply(s, Dequeue(M.Advance)).Done? && Nearer(s, Apply(s, Dequeue(M.Advance)).s)
  {
    StepKeepsInv(s, Dequeue(M.Advance));
    M.AdvanceDropsTail(s.q);
    SameProducers(s, Apply(s, Dequeue(M.Advance)).s);
  }

  lemma FreeGoesOn<T>(s: State<T>)
    requires Running(s) && s.pc.Draining? && s.q.consumer.Advanced?
    ensures Apply(s, Dequeue(M.Free)).Done? && Nearer(s, Apply(s, Dequeue(M.Free)).s)
  {
    StepKeepsInv(s, Dequeue(M.Free));
    M.FreeEndsDequeue(s.q);
    SameProducers(s, Apply(s, Dequeue(M.Free)).s);
  }

  /** The steps of the loop outside doRunInLoopFuncs. */
  lemma ControlGoesOn<T>(s: State<T>, step: Step<T>)
    requires Steady(s)
    requires match s.pc
             case Top => step == TestQuit
             case Outside => step == Start
             case Entering => step == ClearQuit
             case Poll => step == PollReturns(false)
             case Handling(wake) => step == if wake then WakeupRead else HandlersDone
             case _ => false
    ensures Apply(s, step).Done? && Nearer(s, Apply(s, step).s)
    ensures var s' := Apply(s, step).s;
            s'.pc.Outside? || (s'.pc.Top? && s'.quit) ==> s.pc.Top? && s.quit
  {
    ControlKeepsInv(s, step);
    SameProducers(s, Apply(s, step).s);
  }

  lemma DequeueGoesOn<T>(s: State<T>) returns (m: M.Step<T>)
    requires Running(s) && s.pc.Draining?
    ensures Apply(s, Dequeue(m)).Done? && Nearer(s, Apply(s, Dequeue(m)).s)
  {
    match s.q.consumer {
      case Ready => m := M.LoadNext; LoadGoesOn(s);
      case Loaded(_) => m := M.Take; TakeGoesOn(s);
      case Taken(_) => m := M.Advance; AdvanceGoesOn(s);
      case Advanced(_) => m := M.Free; FreeGoesOn(s);
    }
  }

  lemma GoesOn<T>(s: State<T>) returns (step: Step<T>)
    requires Steady(s)
    ensures OfLoop(step) && (step.Start? ==> s.pc.Outside?)
    ensures Apply(s, step).Done? && Nearer(s, Apply(s, step).s)
    ensures var s' := Apply(s, step).s;
            s'.pc.Outside? || (s'.pc.Top? && s'.quit) ==> Drained(s') || (s.pc.Top? && s.quit)
  {
    match s.pc {
      case Checking => step := TestEmpty; CheckingGoesOn(s);
      case Calling => step := FuncReturns; CallingGoesOn(s);
      case Draining => var m := DequeueGoesOn(s); step := Dequeue(m);
      case Top => step := TestQuit; ControlGoesOn(s, step);
      case Outside => step := Start; ControlGoesOn(s, step);
      case Entering => step := ClearQuit; ControlGoesOn(s, step);
      case Poll => step := PollReturns(false); ControlGoesOn(s, step);
      case Handling(wake) => step := if wake then WakeupRead else HandlersDone; ControlGoesOn(s, step);
    }
  }

  ghost predicate EndsDrained<T>(s: State<T>, steps: seq<Step<T>>) {
    var r := Run(s, steps);
    r.Done? && Drained(r.s) && r.s.q.order == s.q.order
  }

  lemma {:induction false} SteadyDrains<T>(s: State<T>) returns (steps: seq<Step<T>>)
    requires Steady(s)
    ensures EndsDrained(s, steps)
    ensures forall step :: step in steps ==> OfLoop(step)
    ensures Start in steps ==> s.pc.Outside? || (s.pc.Top? && s.quit)
    decreases Ahead(s), Left(s)
  {
    if Drained(s) {
      steps := [];
    } else {
      var step := GoesOn(s);
      var s' := Apply(s, step).s;
      var rest := [];
      if !Drained(s') { rest := SteadyDrains(s'); }
      RunStep(s, step, rest);
      steps := [step] + rest;
    }
  }

  /** From every state of a running loop in which the exchanged nodes are linked, some finite
      run of the loop's own thread calls everything that is queued and is back at the top of
      the loop; loop() is called again only if it was about to return. A function that the
      loop thread is just queueing is called as well. */
  lemma LoopDrains<T>(s: State<T>) returns (steps: seq<Step<T>>)
    requires Inv(s) && s.Looping() && NoneExchanged(s)
    ensures forall step :: step in steps ==> OfLoop(step)
    ensures Start in steps ==> s.pc.Top? && s.quit
    ensures Run(s, steps).Done?
    ensures var e := Run(s, steps).s;
            && e.pc.Top? && e.called == e.q.order && s.q.order <= e.q.order
            && |e.q.order| == |s.q.order| + (if s.q.At(LOOP).Idle? then 0 else 1)
  {
    if s.q.At(LOOP).Idle? {
      steps := SteadyDrains(s);
    } else {
      var own := FinishOwn(s);
      var rest := SteadyDrains(Run(s, own).s);
      RunTwice(s, own, rest);
      steps := own + rest;
    }
  }

  lemma OwnLinks<T>(s: State<T>)
    requires Inv(s) && s.Looping() && NoneExchanged(s) && !s.q.At(LOOP).Idle?
    ensures Apply(s, Enqueue(M.Exchange(LOOP))).Done?
    ensures var r := Apply(Apply(s, Enqueue(M.Exchange(LOOP))).s, Enqueue(M.Link(LOOP)));
            && r.Done? && Steady(r.s) && r.s.pc == s.pc
            && s.q.order <= r.s.q.order && |r.s.q.order| == |s.q.order| + 1
  {
    ExchangeStep(s, LOOP);
    LinkStep(Apply(s, Enqueue(M.Exchange(LOOP))).s, LOOP);
  }

  lemma FinishOwn<T>(s: State<T>) returns (steps: seq<Step<T>>)
    requires Inv(s) && s.Looping() && NoneExchanged(s) && !s.q.At(LOOP).Idle?
    ensures Start !in steps && forall step :: step in steps ==> OfLoop(step)
    ensures Run(s, steps).Done? && Steady(Run(s, steps).s)
    ensures var s' := Run(s, steps).s;
            s'.pc == s.pc && s.q.order <= s'.q.order && |s'.q.order| == |s.q.order| + 1
  {
    OwnLinks(s);
    steps := [Enqueue(M.Exchange(LOOP)), Enqueue(M.Link(LOOP))];
    RunTwo(s, steps[0], steps[1]);
  }

  lemma AllocStep<T>(s: State<T>, t: Tid, f: T, a: M.Addr)
    requires Inv(s) && s.q.At(t).Idle? && t !in s.waking && t !in s.quitting && a !in s.q.heap
    requires t == LOOP ==> UserCode(s.pc)
    ensures var r := Apply(s, Enqueue(M.Alloc(t, f, a)));
            && r.Done? && Inv(r.s) && r.s == s.(q := r.s.q)
            && r.s.q.At(t) == M.Allocated(a) && a in r.s.q.heap && r.s.q.heap[a].data == M.Live(f)
            && r.s.q.order == s.q.order && r.s.q.out == s.q.out
            && forall u :: u != t ==> r.s.q.At(u) == s.q.At(u)
  {
    M.AllocHoldsValue(s.q, t, f, a);
    EnqueueKeepsInv(s, M.Alloc(t, f, a));
  }

  lemma ExchangeStep<T>(s: State<T>, t: Tid)
    requires Inv(s) && s.q.At(t).Allocated? && (t == LOOP ==> UserCode(s.pc))
    ensures s.q.At(t).node in s.q.heap && s.q.heap[s.q.At(t).node].data.Live?
    ensures var r := Apply(s, Enqueue(M.Exchange(t)));
            && r.Done? && Inv(r.s) && r.s == s.(q := r.s.q)
            && r.s.q.At(t).Exchanged?
            && r.s.q.order == s.q.order + [s.q.heap[s.q.At(t).node].data.value] && r.s.q.out == s.q.out
            && forall u :: u != t ==> r.s.q.At(u) == s.q.At(u)
  {
    M.ExchangeAppendsValue(s.q, t);
    EnqueueKeepsInv(s, M.Exchange(t));
  }

  lemma LinkStep<T>(s: State<T>, t: Tid)
    requires Inv(s) && s.q.At(t).Exchanged? && (t == LOOP ==> UserCode(s.pc))
    ensures var r := Apply(s, Enqueue(M.Link(t)));
            && r.Done? && Inv(r.s)
            && r.s == s.(q := r.s.q, waking := if t != LOOP || !s.Looping() then s.waking + {t} else s.waking)
            && r.s.q.At(t).Idle? && r.s.q.order == s.q.order && r.s.q.out == s.q.out
            && forall u :: u != t ==> r.s.q.At(u) == s.q.At(u)
  {
    M.LinkEndsEnqueue(s.q, t);
    EnqueueKeepsInv(s, M.Link(t));
  }

  /** One call of queueInLoop that nothing interrupts: the wakeup is written by every thread but
      the loop's own in a running loop. */
  function QueueInLoop<T>(s: State<T>, t: Tid, f: T, a: M.Addr): seq<Step<T>> {
    [Enqueue(M.Alloc(t, f, a)), Enqueue(M.Exchange(t)), Enqueue(M.Link(t))] +
    if t == LOOP && s.Looping() then [] else [Write(t)]
  }

  lemma RunPair<T>(s: State<T>, first: seq<Step<T>>, second: seq<Step<T>>, rest: seq<Step<T>>, s2: State<T>, s3: State<T>)
    requires Run(s, first) == Done(s2) && Run(s2, second) == Done(s3)
    ensures Run(s, first + (second + rest)) == Run(s3, rest)
  {
    RunTwice(s, first, second + rest);
    RunTwice(s2, second, rest);
  }

  lemma SplitThree<T>(x: T, y: T, z: T, rest: seq<T>)
    ensures [x, y, z] + rest == [x, y] + ([z] + rest)
  {}

  lemma RunThree<T>(s: State<T>, x: Step<T>, y: Step<T>, z: Step<T>, rest: seq<Step<T>>, s2: State<T>, s3: State<T>)
    requires Run(s, [x, y]) == Done(s2) && Run(s2, [z]) == Done(s3)
    ensures Run(s, [x, y, z] + rest) == Run(s3, rest)
  {
    RunPair(s, [x, y], [z], rest, s2, s3);
    SplitThree(x, y, z, rest);
  }

  ghost predicate Appended<T>(s: State<T>, s': State<T>, f: T) {
    && Inv(s') && s'.q.order == s.q.order + [f] && s'.q.out == s.q.out
    && (forall u :: s'.q.At(u) == s.q.At(u))
  }

  lemma ExchangeAppends<T>(s: State<T>, t: Tid, f: T, a: M.Addr) returns (s2: State<T>)
    requires Inv(s) && s.q.At(t).Idle? && t !in s.waking && t !in s.quitting && a !in s.q.heap
    requires t == LOOP ==> UserCode(s.pc)
    ensures Run(s, [Enqueue(M.Alloc(t, f, a)), Enqueue(M.Exchange(t))]) == Done(s2)
    ensures Inv(s2) && s2 == s.(q := s2.q) && s2.q.At(t).Exchanged?
    ensures s2.q.order == s.q.order + [f] && s2.q.out == s.q.out && forall u :: u != t ==> s2.q.At(u) == s.q.At(u)
  {
    AllocStep(s, t, f, a);
    var s1 := Apply(s, Enqueue(M.Alloc(t, f, a))).s;
    ExchangeStep(s1, t);
    s2 := Apply(s1, Enqueue(M.Exchange(t))).s;
    RunTwo(s, Enqueue(M.Alloc(t, f, a)), Enqueue(M.Exchange(t)));
  }

  lemma EnqueueInLoopAppends<T>(s: State<T>, t: Tid, f: T, a: M.Addr, rest: seq<Step<T>>) returns (s3: State<T>)
    requires Inv(s) && s.q.At(t).Idle? && t !in s.waking && t !in s.quitting && a !in s.q.heap
    requires t == LOOP ==> UserCode(s.pc)
    ensures Run(s, [Enqueue(M.Alloc(t, f, a)), Enqueue(M.Exchange(t)), Enqueue(M.Link(t))] + rest) == Run(s3, rest)
    ensures Appended(s, s3, f)
    ensures s3 == s.(q := s3.q, waking := if t != LOOP || !s.Looping() then s.waking + {t} else s.waking)
  {
    var s2 := ExchangeAppends(s, t, f, a);
    LinkStep(s2, t);
    s3 := Apply(s2, Enqueue(M.Link(t))).s;
    RunOne(s2, Enqueue(M.Link(t)));
    RunThree(s, Enqueue(M.Alloc(t, f, a)), Enqueue(M.Exchange(t)), Enqueue(M.Link(t)), rest, s2, s3);
  }

  lemma WriteEnds<T>(s: State<T>, t: Tid)
    requires Inv(s) && t in s.waking
    ensures Run(s, [Write(t)]) == Done(s.(counter := s.counter + 1, waking := s.waking - {t}))
    ensures Inv(Run(s, [Write(t)]).s)
  {
    ControlKeepsInv(s, Write(t));
    RunOne(s, Write(t));
  }

  /** It puts the function last in the queue, and the eventfd goes up by one unless the caller
      is the running loop itself. */
  lemma QueueInLoopAppends<T>(s: State<T>, t: Tid, f: T, a: M.Addr)
    requires Inv(s) && s.q.At(t).Idle? && t !in s.waking && t !in s.quitting && a !in s.q.heap
    requires t == LOOP ==> !s.pc.Entering? && !s.pc.Top? && !s.pc.Poll?
    ensures var r := Run(s, QueueInLoop(s, t, f, a));
            && r.Done? && Appended(s, r.s, f)
            && r.s == s.(q := r.s.q, counter := if t == LOOP && s.Looping() then s.counter else s.counter + 1)
  {
    if t == LOOP && s.Looping() {
      var _ := EnqueueInLoopAppends(s, t, f, a, []);
    } else {
      var s3 := EnqueueInLoopAppends(s, t, f, a, [Write(t)]);
      WriteEnds(s3, t);
      assert s.waking + {t} - {t} == s.waking;
    }
  }

  /** So a function that is queued while the loop runs is called: by a run that ends with
      everything queued so far called, this function last. */
  lemma QueuedIsCalled<T>(s: State<T>, t: Tid, f: T, a: M.Addr) returns (steps: seq<Step<T>>)
    requires Inv(s) && s.Looping() && NoneExchanged(s) && s.q.At(LOOP).Idle?
    requires s.q.At(t).Idle? && t !in s.waking && t !in s.quitting && a !in s.q.heap
    requires t == LOOP ==> !s.pc.Entering? && !s.pc.Top? && !s.pc.Poll?
    ensures forall step :: step in steps ==> OfLoop(step)
    ensures var r := Run(s, QueueInLoop(s, t, f, a) + steps);
            && r.Done? && r.s.pc.Top? && r.s.called == r.s.q.order == s.q.order + [f]
  {
    QueueInLoopAppends(s, t, f, a);
    steps := LoopDrains(Run(s, QueueInLoop(s, t, f, a)).s);
    RunTwice(s, QueueInLoop(s, t, f, a), steps);
  }

  /** A thread that has queued a function or asked the loop to quit can always finish its
      wakeup, whatever the loop does meanwhile. */
  lemma WakeupFinishes<T>(s: State<T>, t: Tid)
    requires Inv(s) && t != LOOP && s.q.At(t).Exchanged?
    ensures var r := Run(s, [Enqueue(M.Link(t)), Write(t)]);
            && r.Done? && !r.s.InWindow(t) && r.s.counter == s.counter + 1
            && r.s.q.order == s.q.order && r.s.pc == s.pc
  {
    LinkStep(s, t);
    RunTwo(s, Enqueue(M.Link(t)), Write(t));
  }

  /** quit(): the flag is set, and from another thread the eventfd goes up by one. */
  lemma QuitWakes<T>(s: State<T>, t: Tid)
    requires s.q.At(t).Idle? && t !in s.waking && t !in s.quitting
    requires t == LOOP ==> !s.pc.Entering? && !s.pc.Top? && !s.pc.Poll?
    ensures t == LOOP ==> Apply(s, SetQuit(t)) == Done(s.(quit := true))
    ensures t != LOOP ==> Run(s, [SetQuit(t), QuitWrite(t)]) == Done(s.(quit := true, counter := s.counter + 1))
  {
    if t != LOOP {
      RunTwo(s, SetQuit(t), QuitWrite(t));
      assert s.quitting + {t} - {t} == s.quitting;
    }
  }

  /** In poll a written eventfd is reported, and takes the loop to its functions. */
  lemma WakeupLeadsToFuncs<T>(s: State<T>)
    requires Inv(s) && s.pc.Poll? && s.counter > 0
    ensures Run(s, [PollReturns(true), WakeupRead, HandlersDone]) == Done(s.(pc := Checking, counter := 0))
  {
    var s1 := s.(pc := Handling(true));
    RunOne(s, PollReturns(true));
    RunTwo(s1, WakeupRead, HandlersDone);
    RunTwice(s, [PollReturns(true)], [WakeupRead, HandlersDone]);
    AppendTwo<Step<T>>(PollReturns(true), WakeupRead, HandlersDone);
  }

  lemma AppendTwo<T>(x: T, y: T, z: T)
    ensures [x] + [y, z] == [x, y, z]
  {}
}
