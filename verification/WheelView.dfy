/** A wheel seen through the members of its calendar only, for code that runs on top of it. */
module WheelViews {
  import opened Options
  import opened Deadlines
  import opened Calendars
  import opened TimingWheels

  ghost predicate Stores(wheel: TimingWheel, r: Ref)
    requires wheel.Valid()
    reads wheel
  {
    r in wheel.Pending()
  }

  /** `pending` is the calendar of the wheel, known by its members. */
  ghost predicate Shows(wheel: TimingWheel, pending: set<Ref>)
    reads wheel
  {
    wheel.Valid() && forall r {:trigger Stores(wheel, r)} :: r in pending <==> Stores(wheel, r)
  }

  lemma ShowsPending(wheel: TimingWheel, pending: set<Ref>)
    requires wheel.Valid()
    ensures Shows(wheel, pending) <==> pending == wheel.Pending()
  {
    if Shows(wheel, pending) {
      forall r ensures r in pending <==> r in wheel.Pending() {
        assert r in pending <==> Stores(wheel, r);
      }
    }
  }

  method TickWheel(wheel: TimingWheel, destructors: Destructors, ghost pending: set<Ref>)
    returns (destroyed: set<nat>, ghost pending': set<Ref>)
    requires Shows(wheel, pending) && Fresh(pending, destructors)
    modifies wheel
    ensures Shows(wheel, pending') && wheel.ticksCounter == old(wheel.ticksCounter) + 1
    ensures destroyed == Expiring(pending, wheel.ticksCounter)
    ensures pending' == Remaining(pending, wheel.ticksCounter)
                        + Reinserted(DuesDuringTick(wheel.bucketsNumPerWheel, wheel.wheelsNum, wheel.ticksCounter),
                                     destroyed, destructors)
  {
    ShowsPending(wheel, pending);
    destroyed := wheel.Tick(destructors);
    pending' := wheel.Pending();
    ShowsPending(wheel, pending');
  }

  method InsertBetween(wheel: TimingWheel, delay: nat, entry: nat, ghost pending: set<Ref>) returns (ghost pending': set<Ref>)
    requires Shows(wheel, pending)
    modifies wheel
    ensures Shows(wheel, pending') && wheel.ticksCounter == old(wheel.ticksCounter)
    ensures pending' == pending + if delay == 0 then {}
              else {Ref(entry, Deadline(wheel.bucketsNumPerWheel, wheel.wheelsNum, wheel.wheelsNum, wheel.ticksCounter, delay))}
  {
    ShowsPending(wheel, pending);
    wheel.InsertEntry(delay, Some(entry), wheel.wheelsNum);
    pending' := wheel.Pending();
    ShowsPending(wheel, pending');
  }
}
