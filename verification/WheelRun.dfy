/** Runs of the wheel itself, with entries whose destructors insert again: whatever happens,
    the entries that each tick destroys are those of the calendar. */
module WheelRuns {
  import opened Powers
  import opened Sequences
  import opened Calendars
  import opened TimingWheels
  import opened WheelViews
  import S = Schedules

  /** An insertion between ticks, or a tick with what the destructors do at it. */
  datatype Turn = Insert(delay: nat, id: nat) | Advance(destructors: Destructors)

  /** The references of a set as insertions, in some order. */
  ghost function AddsOf(refs: set<Ref>): seq<Event>
    decreases |refs|
  {
    if refs == {} then []
    else
      var r :| r in refs;
      AddsOf(refs - {r}) + [Add(r.id, r.due)]
  }

  lemma {:induction false} AddAll(events: seq<Event>, refs: set<Ref>)
    ensures Run(0, events + AddsOf(refs)) == Run(0, events).(pending := Run(0, events).pending + refs)
    decreases |refs|
  {
    if refs == {} {
      assert events + AddsOf(refs) == events;
    } else {
      var adds := AddsOf(refs);
      var last := adds[|adds| - 1];
      var r := Ref(last.id, last.due);
      assert r in refs && adds[..|adds| - 1] == AddsOf(refs - {r});
      AddAll(events, refs - {r});
      assert (events + adds)[..|events + adds| - 1] == events + AddsOf(refs - {r});
      assert refs - {r} + {r} == refs;
    }
  }

  /** The calendar events that a run stands for. */
  ghost function Events(b: nat, w: nat, turns: seq<Turn>): seq<Event>
    requires b >= 2 && w >= 1
  {
    if turns == [] then []
    else
      var before := Events(b, w, turns[..|turns| - 1]);
      before + TurnEvents(b, w, Run(0, before), turns[|turns| - 1])
  }

  ghost function TurnEvents(b: nat, w: nat, c: Calendar, turn: Turn): seq<Event>
    requires b >= 2 && w >= 1
  {
    match turn
    case Insert(delay, id) => if delay == 0 then [] else [Add(id, S.Dues(b, w)(c.now, delay))]
    case Advance(destructors) => [Event.Tick] + AddsOf(Again(b, w, c, destructors))
  }

  /** What the entries that expire at the next tick insert while wheel 0 is emptied. */
  ghost function Again(b: nat, w: nat, c: Calendar, destructors: Destructors): set<Ref>
    requires b >= 2 && w >= 1
  {
    Reinserted(DuesDuringTick(b, w, c.now + 1), Expiring(c.pending, c.now + 1), destructors)
  }

  ghost function After(b: nat, w: nat, turns: seq<Turn>): Calendar
    requires b >= 2 && w >= 1
  {
    Run(0, Events(b, w, turns))
  }

  /** At every tick destructors insert entries that are new to the wheel. */
  ghost predicate AlwaysFresh(b: nat, w: nat, turns: seq<Turn>)
    requires b >= 2 && w >= 1
  {
    turns != [] ==>
      var prefix, last := turns[..|turns| - 1], turns[|turns| - 1];
      AlwaysFresh(b, w, prefix) && (last.Advance? ==> Fresh(After(b, w, prefix).pending, last.destructors))
  }

  /** What one turn does to the calendar. */
  ghost function OneTurn(b: nat, w: nat, c: Calendar, turn: Turn): Calendar
    requires b >= 2 && w >= 1
  {
    match turn
    case Insert(delay, id) =>
      if delay == 0 then c else c.(pending := c.pending + {Ref(id, S.Dues(b, w)(c.now, delay))})
    case Advance(destructors) =>
      Calendar(c.now + 1, Remaining(c.pending, c.now + 1) + Again(b, w, c, destructors),
               c.log + [Expiring(c.pending, c.now + 1)])
  }

  lemma RunAppend(before: seq<Event>, e: Event)
    ensures Run(0, before + [e]) == Step(Run(0, before), e)
  {
    assert (before + [e])[..|before|] == before;
  }

  lemma TickAndAdds(before: seq<Event>, again: set<Ref>)
    ensures var c := Run(0, before);
            Run(0, before + ([Event.Tick] + AddsOf(again)))
            == Calendar(c.now + 1, Remaining(c.pending, c.now + 1) + again, c.log + [Expiring(c.pending, c.now + 1)])
  {
    var c := Run(0, before);
    var ticked := before + [Event.Tick];
    assert Run(0, ticked) == Step(c, Event.Tick) by { RunAppend(before, Event.Tick); }
    assert Run(0, ticked + AddsOf(again)) == Run(0, ticked).(pending := Run(0, ticked).pending + again) by {
      AddAll(ticked, again);
    }
    Associative(before, [Event.Tick], AddsOf(again));
  }

  lemma AfterStep(b: nat, w: nat, prefix: seq<Turn>, last: Turn)
    requires b >= 2 && w >= 1
    ensures After(b, w, prefix + [last]) == OneTurn(b, w, After(b, w, prefix), last)
  {
    EventsStep(b, w, prefix, last);
    TurnStep(b, w, Events(b, w, prefix), last);
  }

  /** The events of one turn do to the calendar what the turn does. */
  lemma TurnStep(b: nat, w: nat, before: seq<Event>, turn: Turn)
    requires b >= 2 && w >= 1
    ensures var c := Run(0, before);
            Run(0, before + TurnEvents(b, w, c, turn)) == OneTurn(b, w, c, turn)
  {
    match turn {
      case Insert(delay, id) => InsertStep(b, w, before, delay, id);
      case Advance(destructors) => TickAndAdds(before, Again(b, w, Run(0, before), destructors));
    }
  }

  lemma InsertStep(b: nat, w: nat, before: seq<Event>, delay: nat, id: nat)
    requires b >= 2 && w >= 1
    ensures var c := Run(0, before);
            Run(0, before + TurnEvents(b, w, c, Insert(delay, id))) == OneTurn(b, w, c, Insert(delay, id))
  {
    var c := Run(0, before);
    if delay == 0 {
      assert before + [] == before;
    } else {
      RunAppend(before, Add(id, S.Dues(b, w)(c.now, delay)));
    }
  }

  lemma EventsStep(b: nat, w: nat, prefix: seq<Turn>, last: Turn)
    requires b >= 2 && w >= 1
    ensures Events(b, w, prefix + [last])
            == Events(b, w, prefix) + TurnEvents(b, w, After(b, w, prefix), last)
  {
    assert (prefix + [last])[..|prefix|] == prefix;
  }

  lemma {:induction false} FreshSoFar(b: nat, w: nat, turns: seq<Turn>, n: nat)
    requires b >= 2 && w >= 1 && AlwaysFresh(b, w, turns) && n < |turns|
    ensures turns[n].Advance? ==> Fresh(After(b, w, turns[..n]).pending, turns[n].destructors)
  {
    if n < |turns| - 1 {
      var prefix := turns[..|turns| - 1];
      FreshSoFar(b, w, prefix, n);
      assert prefix[..n] == turns[..n];
    }
  }

  /** A new wheel lives through `turns`; `log[k]` is what its (k+1)-th tick destroyed. */
  method RunWheel(wheel: TimingWheel, turns: seq<Turn>) returns (log: seq<set<nat>>)
    requires wheel.Valid() && wheel.ticksCounter == 0 && wheel.Pending() == {}
    requires AlwaysFresh(wheel.bucketsNumPerWheel, wheel.wheelsNum, turns)
    modifies wheel
    ensures wheel.Valid()
    ensures var c := After(wheel.bucketsNumPerWheel, wheel.wheelsNum, turns);
            wheel.ticksCounter == c.now && wheel.Pending() == c.pending && log == c.log
  {
    log := [];
    ghost var b, w := wheel.bucketsNumPerWheel, wheel.wheelsNum;
    ShowsPending(wheel, {});
    for n := 0 to |turns|
      invariant Agrees(wheel, log, After(b, w, turns[..n]))
    {
      assert turns[..n + 1] == turns[..n] + [turns[n]];
      AfterStep(b, w, turns[..n], turns[n]);
      FreshSoFar(b, w, turns, n);
      log := TakeTurn(wheel, turns[n], log, After(b, w, turns[..n]));
    }
    assert turns[..|turns|] == turns;
    ShowsPending(wheel, After(b, w, turns).pending);
  }

  /** The wheel and what it has destroyed are those of the calendar. */
  ghost predicate Agrees(wheel: TimingWheel, log: seq<set<nat>>, c: Calendar)
    reads wheel
  {
    Shows(wheel, c.pending) && wheel.ticksCounter == c.now && log == c.log
  }

  method TakeTurn(wheel: TimingWheel, turn: Turn, log: seq<set<nat>>, ghost c: Calendar) returns (log': seq<set<nat>>)
    requires Agrees(wheel, log, c)
    requires turn.Advance? ==> Fresh(c.pending, turn.destructors)
    modifies wheel
    ensures Agrees(wheel, log', OneTurn(wheel.bucketsNumPerWheel, wheel.wheelsNum, c, turn))
  {
    log' := log;
    match turn {
      case Insert(delay, id) =>
        ghost var _ := InsertBetween(wheel, delay, id, c.pending);
      case Advance(destructors) =>
        var destroyed, _ := TickWheel(wheel, destructors, c.pending);
        log' := log + [destroyed];
    }
  }

  function QuietTurn(op: S.Op): Turn {
    match op
    case Insert(delay, id) => Insert(delay, id)
    case Advance => Advance(Quiet())
  }

  function QuietTurns(ops: seq<S.Op>): seq<Turn> {
    if ops == [] then [] else QuietTurns(ops[..|ops| - 1]) + [QuietTurn(ops[|ops| - 1])]
  }

  lemma QuietIsFresh(pending: set<Ref>, dues: nat -> nat, ids: set<nat>)
    ensures Fresh(pending, Quiet())
    ensures Reinserted(dues, ids, Quiet()) == {}
  {}

  /** The run is the schedule of insertions and ticks. */
  ghost predicate IsSchedule(b: nat, w: nat, turns: seq<Turn>, ops: seq<S.Op>)
    requires b >= 2 && w >= 1
  {
    && AlwaysFresh(b, w, turns)
    && Events(b, w, turns) == S.Events(S.Dues(b, w), ops)
    && After(b, w, turns).now == S.Ticks(ops)
  }

  /** As it is with such entries. */
  lemma {:induction false} QuietRun(b: nat, w: nat, ops: seq<S.Op>)
    requires b >= 2 && w >= 1
    ensures IsSchedule(b, w, QuietTurns(ops), ops)
  {
    if ops != [] {
      var prefix, last := ops[..|ops| - 1], ops[|ops| - 1];
      QuietRun(b, w, prefix);
      assert ops == prefix + [last];
      match last {
        case Insert(delay, id) => QuietInsert(b, w, QuietTurns(prefix), prefix, delay, id);
        case Advance => QuietTick(b, w, QuietTurns(prefix), prefix);
      }
    }
  }

  lemma QuietInsert(b: nat, w: nat, turns: seq<Turn>, ops: seq<S.Op>, delay: nat, id: nat)
    requires b >= 2 && w >= 1 && IsSchedule(b, w, turns, ops)
    ensures IsSchedule(b, w, turns + [Insert(delay, id)], ops + [S.Insert(delay, id)])
  {
    assert (turns + [Insert(delay, id)])[..|turns|] == turns;
    assert Events(b, w, turns + [Insert(delay, id)]) == S.Events(S.Dues(b, w), ops + [S.Insert(delay, id)]) by {
      EventsStep(b, w, turns, Insert(delay, id));
      S.InsertUnfolds(S.Dues(b, w), ops, delay, id, id);
    }
    assert After(b, w, turns + [Insert(delay, id)]).now == After(b, w, turns).now by {
      AfterStep(b, w, turns, Insert(delay, id));
    }
    assert S.Ticks(ops + [S.Insert(delay, id)]) == S.Ticks(ops) by {
      S.InsertUnfolds(S.Dues(b, w), ops, delay, id, id);
    }
  }

  lemma QuietTick(b: nat, w: nat, turns: seq<Turn>, ops: seq<S.Op>)
    requires b >= 2 && w >= 1 && IsSchedule(b, w, turns, ops)
    ensures IsSchedule(b, w, turns + [Advance(Quiet())], ops + [S.Advance])
  {
    var c := After(b, w, turns);
    QuietIsFresh(c.pending, DuesDuringTick(b, w, c.now + 1), Expiring(c.pending, c.now + 1));
    EventsStep(b, w, turns, Advance(Quiet()));
    AfterStep(b, w, turns, Advance(Quiet()));
    assert (turns + [Advance(Quiet())])[..|turns|] == turns;
    assert (ops + [S.Advance])[..|ops|] == ops;
    assert AddsOf({}) == [];
  }

  /** A wheel made for `maxTimeout` destroys, tick by tick, what the schedule says. */
  method RunSchedule(maxTimeout: nat, b: nat, ops: seq<S.Op>) returns (wheel: TimingWheel, log: seq<set<nat>>)
    requires maxTimeout > 1 && b > 1
    ensures wheel.Valid() && wheel.bucketsNumPerWheel == b && wheel.ticksCounter == S.Ticks(ops)
    ensures Pow(b, wheel.wheelsNum) >= maxTimeout
    ensures log == Run(0, S.Events(S.Dues(b, wheel.wheelsNum), ops)).log
  {
    wheel := new TimingWheel(maxTimeout, b);
    QuietRun(b, wheel.wheelsNum, ops);
    log := RunWheel(wheel, QuietTurns(ops));
  }
}
