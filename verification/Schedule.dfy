/** Runs of one wheel between ticks: insertions and ticks in any order. This is how
    TcpConnectionImpl::enableKickingOff and extendLife use it. */
module Schedules {
  import opened Powers
  import opened Deadlines
  import opened Calendars

  datatype Op = Insert(delay: nat, id: nat) | Advance

  function Ticks(ops: seq<Op>): nat {
    if ops == [] then 0
    else Ticks(ops[..|ops| - 1]) + if ops[|ops| - 1].Advance? then 1 else 0
  }

  /** When an insertion of `delay` made between ticks at counter `t` is due. */
  ghost function Dues(b: nat, w: nat): (nat, nat) -> nat
    requires b >= 2 && w >= 1
  {
    (t, delay) => Deadline(b, w, w, t, delay)
  }

  /** The calendar events that TimingWheel.InsertEntry and TimingWheel.Tick stand for. */
  function Events(dues: (nat, nat) -> nat, ops: seq<Op>): seq<Event> {
    if ops == [] then []
    else
      var prefix := ops[..|ops| - 1];
      match ops[|ops| - 1]
      case Advance => Events(dues, prefix) + [Tick]
      case Insert(delay, id) =>
        if delay == 0 then Events(dues, prefix)
        else Events(dues, prefix) + [Add(id, dues(Ticks(prefix), delay))]
  }

  /** The tick of the latest insertion of `id`. */
  function LastInsert(ops: seq<Op>, id: nat): int {
    if ops == [] then -1
    else
      var prefix := ops[..|ops| - 1];
      match ops[|ops| - 1]
      case Insert(_, id') => if id' == id then Ticks(prefix) else LastInsert(prefix, id)
      case Advance => LastInsert(prefix, id)
  }

  /** Every insertion of `id` uses the delay `idle`, and each one after the first is made
      no later than the tick at which the previous one would run out. */
  ghost predicate Refreshed(ops: seq<Op>, id: nat, idle: nat) {
    ops != [] ==>
      var prefix := ops[..|ops| - 1];
      && Refreshed(prefix, id, idle)
      && match ops[|ops| - 1]
         case Advance => true
         case Insert(delay, id') =>
           id' == id ==> delay == idle && (LastInsert(prefix, id) >= 0 ==> Ticks(prefix) <= LastInsert(prefix, id) + idle)
  }

  /** The delays that the constructor's sizing covers. */
  predicate Covered(b: nat, w: nat, delay: nat)
    requires b >= 2 && w >= 1
  {
    if w == 1 then delay < b else delay <= Pow(b, w)
  }

  /** TcpServer and AppTcpServer make one bucket more than the timeout when that is below 500,
      and 100 buckets otherwise; the wheels that the constructor then makes cover it. */
  lemma ServerWheelsCover(timeout: nat, b: nat, w: nat)
    requires timeout >= 1 && w >= 1 && b == if timeout < 500 then timeout + 1 else 100
    requires Pow(b, w) >= timeout
    ensures b >= 2 && Covered(b, w, timeout)
  {
    if w == 1 { assert Pow(b, 1) == b * Pow(b, 0); }
  }

  /** After `ops`, the latest deadline of `id` is that of its latest insertion. */
  ghost predicate OnTrack(dues: (nat, nat) -> nat, ops: seq<Op>, id: nat, idle: nat) {
    var events := Events(dues, ops);
    && Legal(0, events, id)
    && Run(0, events).now == Ticks(ops)
    && LastDue(events, id) == (if LastInsert(ops, id) < 0 then 0 else LastInsert(ops, id) + idle + 1)
  }

  lemma {:induction false} RefreshedIsLegal(dues: (nat, nat) -> nat, ops: seq<Op>, id: nat, idle: nat)
    requires forall t: nat, delay: nat :: dues(t, delay) > t
    requires forall t: nat :: dues(t, idle) == t + idle + 1
    requires idle >= 1 && Refreshed(ops, id, idle)
    ensures OnTrack(dues, ops, id, idle)
  {
    if ops != [] {
      var prefix, last := ops[..|ops| - 1], ops[|ops| - 1];
      RefreshedIsLegal(dues, prefix, id, idle);
      assert ops == prefix + [last];
      match last {
        case Advance => AdvanceOnTrack(dues, prefix, id, idle);
        case Insert(delay, id') => InsertOnTrack(dues, prefix, delay, id', id, idle);
      }
    }
  }

  lemma AdvanceOnTrack(dues: (nat, nat) -> nat, prefix: seq<Op>, id: nat, idle: nat)
    requires OnTrack(dues, prefix, id, idle)
    ensures OnTrack(dues, prefix + [Advance], id, idle)
  {
    TickStep(Events(dues, prefix), id);
    assert (prefix + [Advance])[..|prefix|] == prefix;
  }

  lemma InsertOnTrack(dues: (nat, nat) -> nat, prefix: seq<Op>, delay: nat, id': nat, id: nat, idle: nat)
    requires OnTrack(dues, prefix, id, idle) && idle >= 1
    requires dues(Ticks(prefix), delay) > Ticks(prefix) && dues(Ticks(prefix), idle) == Ticks(prefix) + idle + 1
    requires id' == id ==> delay == idle && (LastInsert(prefix, id) >= 0 ==> Ticks(prefix) <= LastInsert(prefix, id) + idle)
    ensures OnTrack(dues, prefix + [Insert(delay, id')], id, idle)
  {
    InsertUnfolds(dues, prefix, delay, id', id);
    LastInsertInPast(prefix, id);
    if delay > 0 {
      AddStep(Events(dues, prefix), id, id', dues(Ticks(prefix), delay));
    }
  }

  lemma InsertUnfolds(dues: (nat, nat) -> nat, prefix: seq<Op>, delay: nat, id': nat, id: nat)
    ensures var ops := prefix + [Insert(delay, id')];
            && Ticks(ops) == Ticks(prefix)
            && LastInsert(ops, id) == (if id' == id then Ticks(prefix) else LastInsert(prefix, id))
            && Events(dues, ops) == if delay == 0 then Events(dues, prefix)
                                    else Events(dues, prefix) + [Add(id', dues(Ticks(prefix), delay))]
  {
    assert (prefix + [Insert(delay, id')])[..|prefix|] == prefix;
  }

  lemma CoveredDeadline(b: nat, w: nat, t: nat, delay: nat)
    requires b >= 2 && w >= 1
    ensures Deadline(b, w, w, t, delay) > t
    ensures Covered(b, w, delay) ==> Deadline(b, w, w, t, delay) == t + delay + 1
  {
    DeadlineIsInTheFuture(b, w, w, t, delay);
    CapacityIsWithinHorizon(b, w, t, delay);
    InsertBetweenTicks(b, w, t, delay);
  }

  lemma TickStep(before: seq<Event>, id: nat)
    requires Legal(0, before, id)
    ensures var events := before + [Tick];
            && Legal(0, events, id) && LastDue(events, id) == LastDue(before, id)
            && Run(0, events).now == Run(0, before).now + 1
  {
    assert (before + [Tick])[..|before|] == before;
  }

  lemma AddStep(before: seq<Event>, id: nat, id': nat, due: nat)
    requires Legal(0, before, id) && due > Run(0, before).now
    requires id' == id && LastDue(before, id) > 0 ==> LastDue(before, id) > Run(0, before).now
    ensures var events := before + [Add(id', due)];
            && Legal(0, events, id) && Run(0, events).now == Run(0, before).now
            && LastDue(events, id) == if id' == id then Max(LastDue(before, id), due) else LastDue(before, id)
  {
    assert (before + [Add(id', due)])[..|before|] == before;
    EntryLifetime(0, before, id);
  }

  lemma {:induction false} LastInsertInPast(ops: seq<Op>, id: nat)
    ensures LastInsert(ops, id) <= Ticks(ops)
  {
    if ops != [] { LastInsertInPast(ops[..|ops| - 1], id); }
  }

  /** Whatever else is inserted meanwhile, an entry that is refreshed in time is
      destroyed exactly once: idle + 1 ticks after its last insertion. */
  lemma IdleEntryExpires(b: nat, w: nat, ops: seq<Op>, id: nat, idle: nat)
    requires b >= 2 && w >= 1 && Covered(b, w, idle) && idle >= 1
    requires Refreshed(ops, id, idle) && LastInsert(ops, id) >= 0
    ensures var log := Run(0, Events(Dues(b, w), ops)).log;
            && |log| == Ticks(ops)
            && forall k :: 0 <= k < |log| ==> (id in log[k] <==> k + 1 == LastInsert(ops, id) + idle + 1)
  {
    var dues := Dues(b, w);
    forall t: nat, delay: nat ensures dues(t, delay) > t { CoveredDeadline(b, w, t, delay); }
    forall t: nat ensures dues(t, idle) == t + idle + 1 { CoveredDeadline(b, w, t, idle); }
    RefreshedIsLegal(dues, ops, id, idle);
    EntryLifetime(0, Events(dues, ops), id);
  }
}
