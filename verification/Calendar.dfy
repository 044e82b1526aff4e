/** What a timing wheel means to its users: a set of references, each with the tick at
    which it is dropped. An entry is destroyed when its last reference is dropped. */
module Calendars {

  datatype Ref = Ref(id: nat, due: nat)

  function Remaining(pending: set<Ref>, now: nat): set<Ref> {
    set r | r in pending && r.due != now
  }

  /** The entries whose last reference is dropped at `now`. */
  ghost function Expiring(pending: set<Ref>, now: nat): set<nat> {
    set r | r in pending && r.due == now && !Referenced(Remaining(pending, now), r.id) :: r.id
  }

  ghost predicate Referenced(pending: set<Ref>, id: nat) {
    exists r :: r in pending && r.id == id
  }

  datatype Event = Add(id: nat, due: nat) | Tick

  /** `log[k]` is the set of entries destroyed at the (k+1)-th tick of the run. */
  datatype Calendar = Calendar(now: nat, pending: set<Ref>, log: seq<set<nat>>)

  ghost function Step(c: Calendar, e: Event): Calendar {
    match e
    case Add(id, due) => c.(pending := c.pending + {Ref(id, due)})
    case Tick => Calendar(c.now + 1, Remaining(c.pending, c.now + 1),
                          c.log + [Expiring(c.pending, c.now + 1)])
  }

  ghost function Run(start: nat, events: seq<Event>): Calendar {
    if events == [] then Calendar(start, {}, [])
    else Step(Run(start, events[..|events| - 1]), events[|events| - 1])
  }

  /** The latest deadline that `id` has been given; 0 if none. */
  function LastDue(events: seq<Event>, id: nat): nat {
    if events == [] then 0
    else
      var before := LastDue(events[..|events| - 1], id);
      match events[|events| - 1]
      case Add(id', due) => if id' == id && before < due then due else before
      case Tick => before
  }

  /** Deadlines lie in the future, and `id` is inserted again only while it is alive
      (a weak pointer to it must still lock). */
  ghost predicate Legal(start: nat, events: seq<Event>, id: nat) {
    events != [] ==>
      var prefix := events[..|events| - 1];
      var c := Run(start, prefix);
      && Legal(start, prefix, id)
      && match events[|events| - 1]
         case Tick => true
         case Add(id', due) =>
           due > c.now && (id' == id && LastDue(prefix, id) > 0 ==> Referenced(c.pending, id))
  }

  /** Over every run, an entry lives until the latest of its deadlines and is destroyed
      exactly once, at that tick, however often and in whatever order it was inserted. */
  lemma {:induction false} EntryLifetime(start: nat, events: seq<Event>, id: nat)
    requires Legal(start, events, id)
    ensures var c := Run(start, events);
            var last := LastDue(events, id);
            && c.now == start + |c.log|
            && (Referenced(c.pending, id) <==> last > c.now)
            && (last > c.now ==> Ref(id, last) in c.pending)
            && (forall r :: r in c.pending ==> r.due > c.now)
            && (forall r :: r in c.pending && r.id == id ==> r.due <= last)
            && (forall k :: 0 <= k < |c.log| ==> (id in c.log[k] <==> start + k + 1 == last))
  {
    if events != [] {
      var prefix := events[..|events| - 1];
      EntryLifetime(start, prefix, id);
      var c, c' := Run(start, prefix), Run(start, events);
      match events[|events| - 1] {
        case Add(id', due) =>
          assert Ref(id', due) in c'.pending;
        case Tick =>
          var last := LastDue(prefix, id);
          if last > c.now + 1 {
            assert Ref(id, last) in Remaining(c.pending, c.now + 1);
          } else if last == c.now + 1 {
            assert Ref(id, last) in c.pending;
          }
      }
    }
  }
}
