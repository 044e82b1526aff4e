/** cooper/net/TcpConnectionImpl: sends from any mix of threads all the way to the wire. */
module SendPaths {
  import opened TcpConnections
  import S = SendOrders

  /** A step of a sending thread or of the loop thread's send tasks, the channel becoming
      writable, or a shutdown; `io` is what the kernel answers if it is asked. */
  datatype Event = Sender(step: S.Step<Op>, io: Io) | OnWritable(io: Io) | OnShutdown

  predicate Message(op: Op) {
    op.Send? || (op.SendFile? && op.length > 0)
  }

  ghost predicate AllMessages(ops: seq<Op>) {
    forall i :: 0 <= i < |ops| ==> Message(ops[i])
  }

  predicate Legal(e: Event) {
    match e
    case Sender(step, io) => !io.Failed? && (step.Call? ==> Message(step.msg))
    case OnWritable(io) => !io.Failed?
    case OnShutdown => true
  }

  function SenderSteps(events: seq<Event>): seq<S.Step<Op>> {
    if events == [] then []
    else SenderSteps(events[..|events| - 1])
         + if events[|events| - 1].Sender? then [events[|events| - 1].step] else []
  }

  function Next(s: S.State<Op>, step: S.Step<Op>): S.State<Op> {
    match S.Apply(s, step)
    case Done(s') => s'
    case _ => s
  }

  lemma {:induction false} RunAppend(s: S.State<Op>, steps: seq<S.Step<Op>>, step: S.Step<Op>)
    requires S.Inv(s)
    ensures S.Run(s, steps).Done? && S.Run(s, steps + [step]) == S.Outcome.Done(Next(S.Run(s, steps).s, step))
    decreases |steps|
  {
    S.RunKeepsInv(s, steps);
    if steps == [] {
      S.StepKeepsInv(s, step);
      assert (steps + [step])[1..] == [];
    } else {
      S.StepKeepsInv(s, steps[0]);
      assert (steps + [step])[1..] == steps[1..] + [step];
      RunAppend(Next(s, steps[0]), steps[1..], step);
    }
  }

  /** A step puts at most one message on the list, and only one that was called for. */
  lemma ListGrows(s: S.State<Op>, step: S.Step<Op>)
    requires S.Inv(s) && AllMessages(s.order) && (step.Call? ==> Message(step.msg))
    ensures var s' := Next(s, step);
            && S.Inv(s') && AllMessages(s'.order)
            && (s'.list == s.list || (|s'.list| == |s.list| + 1 && s'.list[..|s.list|] == s.list && Message(s'.list[|s.list|])))
  {
    S.StepKeepsInv(s, step);
    var s' := Next(s, step);
    if s'.list != s.list { assert s'.list[|s.list|] == s'.order[|s.list|]; }
  }

  lemma PayloadAppend(list: seq<Op>, open: seq<bool>, op: Op, now: bool)
    requires |open| == |list|
    ensures Payload(list + [op], open + [now]) == Payload(list, open) + Given(op, now)
  {
    assert (list + [op])[..|list|] == list && (open + [now])[..|open|] == open;
  }

  /** For every interleaving of the threads, with shutdowns and write callbacks at any moments
      and any kernel answers but errors: the bytes on the wire followed by those still pending
      are the payloads in the order in which the calls took the mutex; nothing is left out
      once nothing is outstanding. `open[i]` says whether the connection was still open when
      message i arrived. */
  method RunThreads(c: TcpConnection, events: seq<Event>) returns (s: S.State<Op>, open: seq<bool>)
    requires c.Valid() && c.status.Connected? && !c.closeOnEmpty && c.accepted == []
    requires forall i :: 0 <= i < |events| ==> Legal(events[i])
    modifies c
    ensures S.Run(S.Init(), SenderSteps(events)) == S.Outcome.Done(s)
    ensures s.order == S.Calls(S.Init(), SenderSteps(events))
    ensures c.Valid() && |open| == |s.list| && c.wire + Pending(c.writeBufferList) == Payload(s.list, open)
    ensures s.list <= s.order && (s.sendNum == 0 && s.mutex.Free? ==> s.list == s.order)
    ensures OnShutdown !in events ==> AllOpen(open)
  {
    s, open := S.Init(), [];
    for n := 0 to |events|
      invariant Reached(events[..n], s)
      invariant Joined(c, s, open, ShutDown(events[..n]))
    {
      assert events[..n + 1] == events[..n] + [events[n]];
      SenderStep(events[..n], events[n], s);
      s, open := Turn(c, events[n], s, open, ShutDown(events[..n]));
    }
    assert events[..|events|] == events;
    S.SendsKeepOrder(SenderSteps(events));
  }

  ghost predicate Reached(events: seq<Event>, s: S.State<Op>) {
    S.Run(S.Init(), SenderSteps(events)) == S.Outcome.Done(s)
  }

  predicate ShutDown(events: seq<Event>) {
    OnShutdown in events
  }

  lemma SenderStep(before: seq<Event>, e: Event, s: S.State<Op>)
    requires Reached(before, s)
    ensures Reached(before + [e], After(s, e))
    ensures ShutDown(before + [e]) <==> ShutDown(before) || e == OnShutdown
  {
    assert (before + [e])[..|before|] == before;
    if e.Sender? {
      RunAppend(S.Init(), SenderSteps(before), e.step);
    } else {
      assert SenderSteps(before) + [] == SenderSteps(before);
    }
  }

  function After(s: S.State<Op>, e: Event): S.State<Op> {
    if e.Sender? then Next(s, e.step) else s
  }

  /** What has arrived on the list has been given to the connection. */
  ghost predicate Joined(c: TcpConnection, s: S.State<Op>, open: seq<bool>, closed: bool)
    reads c
  {
    && S.Inv(s) && AllMessages(s.order)
    && c.Valid() && |open| == |s.list| && c.accepted == Payload(s.list, open) && MayHaveClosed(c, closed)
    && (!closed ==> AllOpen(open))
  }

  ghost predicate AllOpen(open: seq<bool>) {
    forall i :: 0 <= i < |open| ==> open[i]
  }

  method Turn(c: TcpConnection, e: Event, s: S.State<Op>, open: seq<bool>, ghost closed: bool)
    returns (s': S.State<Op>, open': seq<bool>)
    requires Joined(c, s, open, closed) && Legal(e)
    modifies c
    ensures s' == After(s, e) && Joined(c, s', open', closed || e == OnShutdown)
  {
    s', open' := s, open;
    match e {
      case Sender(step, io) =>
        ListGrows(s, step);
        s' := Next(s, step);
        if |s'.list| > |s.list| {
          assert s'.list == s.list + [s'.list[|s.list|]];
          open' := Arrive(c, s.list, s'.list[|s.list|], open, io, closed);
        }
      case OnWritable(io) =>
        Step(c, Writable, io, closed);
      case OnShutdown =>
        Step(c, HalfClose, WouldBlock, closed);
    }
  }

  /** The message that a step has put on the list goes to the connection. */
  method Arrive(c: TcpConnection, ghost list: seq<Op>, op: Op, open: seq<bool>, io: Io, ghost closed: bool)
    returns (open': seq<bool>)
    requires c.Valid() && !io.Failed? && Message(op) && MayHaveClosed(c, closed)
    requires |open| == |list| && c.accepted == Payload(list, open) && (!closed ==> AllOpen(open))
    modifies c
    ensures c.Valid() && MayHaveClosed(c, closed)
    ensures |open'| == |list| + 1 && c.accepted == Payload(list + [op], open') && (!closed ==> AllOpen(open'))
  {
    PayloadAppend(list, open, op, c.status.Connected?);
    open' := open + [c.status.Connected?];
    Step(c, op, io, closed);
  }
}
