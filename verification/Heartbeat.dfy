/** cooper/net/AppTcpServer: the PING/PONG heartbeat of one connection, on the timing wheel
    of the connection's loop. */
module Heartbeats {
  import opened Powers
  import opened Deadlines
  import opened Calendars
  import opened TimingWheels
  import opened WheelViews
  import opened Options
  import S = Schedules
  import T = TcpConnections

  type Status = T.ConnStatus

  /** A PingPongEntry sends a PING when it is destroyed, a KickoffEntry closes the connection. */
  datatype Kind = PingPong | Kickoff

  /** What happens to the connection between ticks, and the ticks themselves. */
  datatype Occurrence = Advance | Pong | HalfClose | Close

  /** When the first PING is due, when the one after a PING is, and how long a PING waits. */
  datatype Rhythm = Rhythm(first: nat, next: nat -> nat, limit: nat -> nat) {
    /** A PING is given up before the next one is due. */
    ghost predicate Ordered() {
      forall t: nat :: t < limit(t) < next(t)
    }
  }

  /** The heartbeat as its peer sees it: when the next PING is due, when the connection will
      be given up, the ticks of the PINGs sent, and the tick at which it was given up. */
  datatype Beat = Beat(now: nat, status: Status, pingDue: Option<nat>, kickDue: Option<nat>,
                       pings: seq<nat>, gaveUp: Option<nat>)

  function StepTick(r: Rhythm, s: Beat): Beat {
    var t := s.now + 1;
    if s.kickDue == Some(t) then Beat(t, T.Disconnected, None, None, s.pings, Some(t))
    else if s.pingDue == Some(t) then
      if s.status == T.Connected then
        Beat(t, T.Connected, Some(r.next(t)), Some(r.limit(t)), s.pings + [t], s.gaveUp)
      else s.(now := t, pingDue := None)
    else s.(now := t)
  }

  function StepBeat(r: Rhythm, s: Beat, o: Occurrence): Beat {
    match o
    case Advance => StepTick(r, s)
    case Pong => s.(kickDue := None)
    case HalfClose => if s.status == T.Connected then s.(status := T.Disconnecting) else s
    case Close => s.(status := T.Disconnected, pingDue := None, kickDue := None)
  }

  /** A connection established at tick `start`. */
  function RunBeat(r: Rhythm, start: nat, events: seq<Occurrence>): Beat {
    if events == [] then Beat(start, T.Connected, Some(r.first), None, [], None)
    else StepBeat(r, RunBeat(r, start, events[..|events| - 1]), events[|events| - 1])
  }

  function Now(start: nat, events: seq<Occurrence>): nat {
    if events == [] then start
    else Now(start, events[..|events| - 1]) + if events[|events| - 1] == Advance then 1 else 0
  }

  predicate HappensAt(start: nat, events: seq<Occurrence>, i: nat, o: Occurrence, from: nat, to: nat)
    requires i < |events|
  {
    events[i] == o && from <= Now(start, events[..i]) < to
  }

  /** `o` happened after tick `from` and before tick `to`. */
  predicate Between(start: nat, events: seq<Occurrence>, o: Occurrence, from: nat, to: nat) {
    exists i :: 0 <= i < |events| && HappensAt(start, events, i, o, from, to)
  }

  lemma BetweenStep(start: nat, prefix: seq<Occurrence>, last: Occurrence, o: Occurrence, from: nat, to: nat)
    ensures Between(start, prefix + [last], o, from, to)
            <==> Between(start, prefix, o, from, to) || (last == o && from <= Now(start, prefix) < to)
  {
    var events := prefix + [last];
    forall i | 0 <= i < |prefix|
      ensures HappensAt(start, events, i, o, from, to) <==> HappensAt(start, prefix, i, o, from, to)
    {
      assert events[..i] == prefix[..i];
    }
    assert events[..|prefix|] == prefix;
    assert HappensAt(start, events, |prefix|, o, from, to) <==> last == o && from <= Now(start, prefix) < to;
  }

  lemma {:induction false} NowIsNow(r: Rhythm, start: nat, events: seq<Occurrence>)
    ensures RunBeat(r, start, events).now == Now(start, events) >= start
  {
    if events != [] { NowIsNow(r, start, events[..|events| - 1]); }
  }

  /** The PINGs sent so far follow the rhythm. */
  ghost predicate InRhythm(r: Rhythm, pings: seq<nat>) {
    && (pings != [] ==> pings[0] == r.first)
    && forall k :: 0 <= k < |pings| - 1 ==> Follows(r, pings, k)
  }

  ghost predicate Follows(r: Rhythm, pings: seq<nat>, k: nat)
    requires k + 1 < |pings|
  {
    pings[k + 1] == r.next(pings[k])
  }

  function NextPing(r: Rhythm, pings: seq<nat>): nat {
    if pings == [] then r.first else r.next(pings[|pings| - 1])
  }

  lemma InRhythmAppend(r: Rhythm, pings: seq<nat>)
    requires InRhythm(r, pings)
    ensures InRhythm(r, pings + [NextPing(r, pings)])
  {
    var more := pings + [NextPing(r, pings)];
    forall k | 0 <= k < |more| - 1 ensures Follows(r, more, k) {
      if k + 1 < |pings| { assert Follows(r, pings, k); }
    }
  }

  /** PINGs have gone out in rhythm, and the next one is due while the connection is live. */
  ghost predicate Regular(r: Rhythm, s: Beat) {
    && InRhythm(r, s.pings)
    && (forall k :: 0 <= k < |s.pings| ==> s.pings[k] <= s.now)
    && (s.pingDue.Some? ==> s.pingDue.value == NextPing(r, s.pings) > s.now)
    && (s.status == T.Connected ==> s.pingDue.Some?)
  }

  lemma StepStaysRegular(r: Rhythm, s: Beat, o: Occurrence)
    requires Regular(r, s) && s.now + 1 < r.next(s.now + 1)
    ensures Regular(r, StepBeat(r, s, o))
  {
    InRhythmAppend(r, s.pings);
  }

  /** Over every run PINGs go out in rhythm, without a gap while the connection is live. */
  lemma {:induction false} PingsAreRegular(r: Rhythm, start: nat, events: seq<Occurrence>)
    requires r.Ordered() && r.first > start
    ensures Regular(r, RunBeat(r, start, events))
  {
    if events != [] {
      var prefix := events[..|events| - 1];
      PingsAreRegular(r, start, prefix);
      var s := RunBeat(r, start, prefix);
      assert s.now + 1 < r.limit(s.now + 1) < r.next(s.now + 1);
      StepStaysRegular(r, s, events[|events| - 1]);
    }
  }

  /** If a kickoff is armed, it is that of the last PING; a connection that has been given up
      has neither entry armed. */
  ghost predicate Settled(r: Rhythm, s: Beat) {
    && (s.kickDue.Some? ==> s.pings != [] && s.kickDue.value == r.limit(s.pings[|s.pings| - 1]) > s.now)
    && (s.status == T.Disconnected ==> s.kickDue.None? && s.pingDue.None?)
    && (s.gaveUp.Some? ==> s.status == T.Disconnected && s.gaveUp.value <= s.now)
    && (s.kickDue.Some? && s.pingDue.Some? ==> s.kickDue.value < s.pingDue.value)
  }

  lemma StepSettles(r: Rhythm, s: Beat, o: Occurrence)
    requires Settled(r, s) && s.now + 1 < r.limit(s.now + 1) < r.next(s.now + 1)
    ensures Settled(r, StepBeat(r, s, o))
  {}

  /** At every moment: an armed kickoff belongs to the last PING and comes before the next. */
  lemma {:induction false} KickoffBelongsToLastPing(r: Rhythm, start: nat, events: seq<Occurrence>)
    requires r.Ordered()
    ensures Settled(r, RunBeat(r, start, events))
  {
    if events != [] {
      var prefix := events[..|events| - 1];
      KickoffBelongsToLastPing(r, start, prefix);
      StepSettles(r, RunBeat(r, start, prefix), events[|events| - 1]);
    }
  }

  /** The last PING has had no PONG and no close before its deadline. */
  ghost predicate Unanswered(r: Rhythm, start: nat, events: seq<Occurrence>, p: nat) {
    !Between(start, events, Pong, p, r.limit(p)) && !Between(start, events, Close, p, r.limit(p))
  }

  lemma UnansweredStep(r: Rhythm, start: nat, prefix: seq<Occurrence>, o: Occurrence, p: nat)
    ensures Unanswered(r, start, prefix + [o], p)
            <==> Unanswered(r, start, prefix, p) && !((o == Pong || o == Close) && p <= Now(start, prefix) < r.limit(p))
  {
    BetweenStep(start, prefix, o, Pong, p, r.limit(p));
    BetweenStep(start, prefix, o, Close, p, r.limit(p));
  }

  /** The last PING's kickoff is armed as long as `open` says, until its deadline. */
  ghost predicate ArmedWhile(r: Rhythm, s: Beat, open: bool) {
    s.pings != [] && s.now < r.limit(s.pings[|s.pings| - 1]) ==> (s.kickDue.Some? <==> open)
  }

  ghost predicate LastUnanswered(r: Rhythm, start: nat, events: seq<Occurrence>, pings: seq<nat>) {
    pings != [] && Unanswered(r, start, events, pings[|pings| - 1])
  }

  /** While the deadline of the last PING has not passed, its kickoff is armed exactly as long
      as it is unanswered. */
  lemma {:induction false} ArmedIffUnanswered(r: Rhythm, start: nat, events: seq<Occurrence>)
    requires r.Ordered() && r.first > start
    ensures var s := RunBeat(r, start, events);
            ArmedWhile(r, s, LastUnanswered(r, start, events, s.pings))
  {
    if events != [] {
      var prefix, o := events[..|events| - 1], events[|events| - 1];
      assert events == prefix + [o];
      var s := RunBeat(r, start, prefix);
      var open := LastUnanswered(r, start, prefix, s.pings);
      assert ArmedWhile(r, s, open) by { ArmedIffUnanswered(r, start, prefix); }
      assert Settled(r, s) by { KickoffBelongsToLastPing(r, start, prefix); }
      assert Regular(r, s) by { PingsAreRegular(r, start, prefix); }
      assert s.now == Now(start, prefix) by { NowIsNow(r, start, prefix); }
      ArmedNext(r, s, o, open);
      StillUnanswered(r, start, prefix, o, s);
    }
  }

  /** Whether a PING is still unanswered after one more occurrence. */
  predicate OpenAfter(r: Rhythm, s: Beat, o: Occurrence, open: bool) {
    var s' := StepBeat(r, s, o);
    if |s'.pings| > |s.pings| then true
    else open && s.pings != []
         && !((o == Pong || o == Close) && s.pings[|s.pings| - 1] <= s.now < r.limit(s.pings[|s.pings| - 1]))
  }

  lemma ArmedNext(r: Rhythm, s: Beat, o: Occurrence, open: bool)
    requires Settled(r, s) && ArmedWhile(r, s, open) && (s.pings != [] ==> s.pings[|s.pings| - 1] <= s.now)
    ensures ArmedWhile(r, StepBeat(r, s, o), OpenAfter(r, s, o, open))
  {}

  lemma PingsAfter(r: Rhythm, s: Beat, o: Occurrence)
    ensures StepBeat(r, s, o).pings == s.pings || StepBeat(r, s, o).pings == s.pings + [s.now + 1]
  {}

  lemma StillUnanswered(r: Rhythm, start: nat, prefix: seq<Occurrence>, o: Occurrence, s: Beat)
    requires s.now == Now(start, prefix)
    ensures LastUnanswered(r, start, prefix + [o], StepBeat(r, s, o).pings)
            <==> OpenAfter(r, s, o, LastUnanswered(r, start, prefix, s.pings))
  {
    PingsAfter(r, s, o);
    if StepBeat(r, s, o).pings == s.pings + [s.now + 1] {
      JustSent(r, start, prefix, o, s.now + 1);
    } else {
      SameLastPing(r, start, prefix, o, s.pings);
    }
  }

  lemma SameLastPing(r: Rhythm, start: nat, prefix: seq<Occurrence>, o: Occurrence, pings: seq<nat>)
    ensures LastUnanswered(r, start, prefix + [o], pings)
            <==> LastUnanswered(r, start, prefix, pings)
                 && !((o == Pong || o == Close)
                      && pings[|pings| - 1] <= Now(start, prefix) < r.limit(pings[|pings| - 1]))
  {
    if pings != [] { UnansweredStep(r, start, prefix, o, pings[|pings| - 1]); }
  }

  lemma JustSent(r: Rhythm, start: nat, prefix: seq<Occurrence>, o: Occurrence, t: nat)
    requires t == Now(start, prefix) + 1
    ensures Unanswered(r, start, prefix + [o], t)
  {
    NothingYet(start, prefix, Pong, t, r.limit(t));
    NothingYet(start, prefix, Close, t, r.limit(t));
    UnansweredStep(r, start, prefix, o, t);
  }

  lemma {:induction false} NothingYet(start: nat, events: seq<Occurrence>, o: Occurrence, from: nat, to: nat)
    requires Now(start, events) < from
    ensures !Between(start, events, o, from, to)
  {
    if events != [] {
      var prefix, last := events[..|events| - 1], events[|events| - 1];
      assert events == prefix + [last];
      NothingYet(start, prefix, o, from, to);
      BetweenStep(start, prefix, last, o, from, to);
    }
  }

  /** Over every run: the connection is live exactly as long as nobody has half-closed or closed
      it and it has not been given up, and lost exactly by a close or by giving it up. */
  lemma {:induction false} StatusIff(r: Rhythm, start: nat, events: seq<Occurrence>)
    ensures var s := RunBeat(r, start, events);
            && (s.status == T.Connected <==> HalfClose !in events && Close !in events && s.gaveUp.None?)
            && (s.status == T.Disconnected <==> Close in events || s.gaveUp.Some?)
            && s.status != T.Connecting
  {
    if events != [] {
      var prefix, o := events[..|events| - 1], events[|events| - 1];
      StatusIff(r, start, prefix);
      assert events == prefix + [o];
    }
  }

  /** The tick at which the k-th PING is due. */
  function DueAt(r: Rhythm, k: nat): nat {
    if k == 0 then r.first else r.next(DueAt(r, k - 1))
  }

  lemma {:induction false} DueAtGrows(r: Rhythm, i: nat, j: nat)
    requires r.Ordered() && i < j
    ensures DueAt(r, i) < DueAt(r, j)
  {
    var t := DueAt(r, j - 1);
    assert t < r.limit(t) < r.next(t);
    if i < j - 1 { DueAtGrows(r, i, j - 1); }
  }

  lemma {:induction false} SentWhenDue(r: Rhythm, pings: seq<nat>, k: nat)
    requires InRhythm(r, pings) && k <= |pings|
    ensures k < |pings| ==> pings[k] == DueAt(r, k)
    ensures NextPing(r, pings[..k]) == DueAt(r, k)
  {
    if k > 0 {
      SentWhenDue(r, pings, k - 1);
      if k < |pings| { assert Follows(r, pings, k - 1); }
    }
  }

  /** A half-close, a close or the connection's giving up came before tick `p`. */
  predicate StoppedBefore(start: nat, events: seq<Occurrence>, gaveUp: Option<nat>, p: nat) {
    || Between(start, events, HalfClose, start, p)
    || Between(start, events, Close, start, p)
    || (gaveUp.Some? && gaveUp.value < p)
  }

  lemma StoppedStep(start: nat, prefix: seq<Occurrence>, o: Occurrence, gaveUp: Option<nat>, gaveUp': Option<nat>, p: nat)
    requires start <= Now(start, prefix)
    ensures StoppedBefore(start, prefix + [o], gaveUp', p)
            <==> || StoppedBefore(start, prefix, None, p)
                 || (gaveUp'.Some? && gaveUp'.value < p)
                 || ((o == HalfClose || o == Close) && Now(start, prefix) < p)
    ensures StoppedBefore(start, prefix, gaveUp, p)
            <==> StoppedBefore(start, prefix, None, p) || (gaveUp.Some? && gaveUp.value < p)
  {
    BetweenStep(start, prefix, o, HalfClose, start, p);
    BetweenStep(start, prefix, o, Close, start, p);
  }

  /** Before a tick that has not come yet, everything that happened happened. */
  lemma {:induction false} AllBefore(start: nat, events: seq<Occurrence>, o: Occurrence, p: nat)
    requires Now(start, events) < p
    ensures Between(start, events, o, start, p) <==> o in events
    ensures start <= Now(start, events)
  {
    if events != [] {
      var prefix, last := events[..|events| - 1], events[|events| - 1];
      assert events == prefix + [last];
      AllBefore(start, prefix, o, p);
      BetweenStep(start, prefix, last, o, start, p);
    }
  }

  lemma NextIsDue(r: Rhythm, s: Beat)
    requires Regular(r, s)
    ensures s.pingDue.Some? ==> s.pingDue.value == DueAt(r, |s.pings|)
  {
    SentWhenDue(r, s.pings, |s.pings|);
    assert s.pings[..|s.pings|] == s.pings;
  }

  /** A PING whose tick has not come is the next one, or due after the next one. */
  lemma NotYetDue(r: Rhythm, s: Beat, k: nat)
    requires r.Ordered() && Regular(r, s) && DueAt(r, k) > s.now
    ensures |s.pings| <= k && DueAt(r, |s.pings|) <= DueAt(r, k)
    ensures DueAt(r, |s.pings|) == DueAt(r, k) ==> k == |s.pings|
  {
    if k < |s.pings| { SentWhenDue(r, s.pings, k); }
    if |s.pings| < k { DueAtGrows(r, |s.pings|, k); }
  }

  predicate GaveUpBefore(s: Beat, p: nat) {
    s.gaveUp.Some? && s.gaveUp.value < p
  }

  /** One step of it; `ended` says that a half-close or a close came before the tick. */
  lemma PingStep(r: Rhythm, s: Beat, o: Occurrence, k: nat, ended: bool)
    requires r.Ordered() && Regular(r, s) && Settled(r, s)
    requires var p := DueAt(r, k);
             && (k < |s.pings| <==> p <= s.now && !ended && !GaveUpBefore(s, p))
             && (p > s.now ==> (s.status == T.Connected <==> !ended && s.gaveUp.None?))
    ensures var s', p := StepBeat(r, s, o), DueAt(r, k);
            k < |s'.pings| <==>
              p <= s'.now && !(ended || ((o == HalfClose || o == Close) && s.now < p)) && !GaveUpBefore(s', p)
  {
    NextIsDue(r, s);
    if DueAt(r, k) > s.now { NotYetDue(r, s, k); }
  }

  /** Over every run: the k-th PING goes out, at its tick, exactly when that tick has come and
      the connection was not half-closed, closed or given up before it. */
  lemma {:induction false} PingGoesOutIff(r: Rhythm, start: nat, events: seq<Occurrence>, k: nat)
    requires r.Ordered() && r.first > start
    ensures var s := RunBeat(r, start, events);
            && (k < |s.pings| <==> DueAt(r, k) <= s.now && !StoppedBefore(start, events, s.gaveUp, DueAt(r, k)))
            && (k < |s.pings| ==> s.pings[k] == DueAt(r, k))
  {
    var s := RunBeat(r, start, events);
    PingsAreRegular(r, start, events);
    if k < |s.pings| { SentWhenDue(r, s.pings, k); }
    FirstIsFirst(r, k);
    if events != [] {
      var prefix, o := events[..|events| - 1], events[|events| - 1];
      assert events == prefix + [o];
      PingGoesOutIff(r, start, prefix, k);
      PingNext(r, start, prefix, o, k);
    }
  }

  lemma PingNext(r: Rhythm, start: nat, prefix: seq<Occurrence>, o: Occurrence, k: nat)
    requires r.Ordered() && r.first > start
    requires var s := RunBeat(r, start, prefix);
             k < |s.pings| <==> DueAt(r, k) <= s.now && !StoppedBefore(start, prefix, s.gaveUp, DueAt(r, k))
    ensures var s' := StepBeat(r, RunBeat(r, start, prefix), o);
            k < |s'.pings| <==> DueAt(r, k) <= s'.now && !StoppedBefore(start, prefix + [o], s'.gaveUp, DueAt(r, k))
  {
    var s, p := RunBeat(r, start, prefix), DueAt(r, k);
    assert s.now == Now(start, prefix) >= start by { NowIsNow(r, start, prefix); }
    StoppedStep(start, prefix, o, s.gaveUp, StepBeat(r, s, o).gaveUp, p);
    assert Regular(r, s) by { PingsAreRegular(r, start, prefix); }
    assert Settled(r, s) by { KickoffBelongsToLastPing(r, start, prefix); }
    var ended := StoppedBefore(start, prefix, None, p);
    if p > s.now {
      StatusIff(r, start, prefix);
      AllBefore(start, prefix, HalfClose, p);
      AllBefore(start, prefix, Close, p);
    }
    PingStep(r, s, o, k, ended);
  }

  lemma FirstIsFirst(r: Rhythm, k: nat)
    requires r.Ordered()
    ensures DueAt(r, k) >= r.first
  {
    if k > 0 { DueAtGrows(r, 0, k); }
  }

  /** Over every run: the connection is given up only at the deadline of a PING. */
  lemma {:induction false} GivesUpAtALimit(r: Rhythm, start: nat, events: seq<Occurrence>)
    requires r.Ordered() && r.first > start
    ensures var s := RunBeat(r, start, events);
            s.gaveUp.Some? ==> exists k :: 0 <= k < |s.pings| && s.gaveUp.value == r.limit(s.pings[k])
  {
    if events != [] {
      var prefix := events[..|events| - 1];
      GivesUpAtALimit(r, start, prefix);
      KickoffBelongsToLastPing(r, start, prefix);
      var s, s' := RunBeat(r, start, prefix), RunBeat(r, start, events);
      if s'.gaveUp == s.gaveUp && s.gaveUp.Some? {
        var k :| 0 <= k < |s.pings| && s.gaveUp.value == r.limit(s.pings[k]);
        assert s'.pings[k] == s.pings[k];
      }
    }
  }

  /** Over every run: the connection is given up at the deadline of a PING exactly when no
      PONG was handled between the two and the connection was not closed otherwise. */
  lemma {:induction false} GivesUpIffUnanswered(r: Rhythm, start: nat, events: seq<Occurrence>, p: nat)
    requires r.Ordered() && r.first > start
    ensures var s := RunBeat(r, start, events);
            var c := r.limit(p);
            p in s.pings && c <= s.now ==> (s.gaveUp == Some(c) <==> Unanswered(r, start, events, p))
  {
    if events != [] {
      var prefix, o := events[..|events| - 1], events[|events| - 1];
      assert events == prefix + [o];
      var s := RunBeat(r, start, prefix);
      GivesUpIffUnanswered(r, start, prefix, p);
      assert Settled(r, s) by { KickoffBelongsToLastPing(r, start, prefix); }
      assert Regular(r, s) by { PingsAreRegular(r, start, prefix); }
      assert s.now == Now(start, prefix) by { NowIsNow(r, start, prefix); }
      if p in s.pings && s.now < r.limit(p) {
        OnlyLastPingWaits(r, s.pings, p, s.now);
        ArmedIffUnanswered(r, start, prefix);
      }
      UnansweredStep(r, start, prefix, o, p);
      GivesUpStep(r, s, o, p, Unanswered(r, start, prefix, p));
    }
  }

  /** One step of it; `open` says that the PING at `p` has had no PONG and no close so far. */
  lemma GivesUpStep(r: Rhythm, s: Beat, o: Occurrence, p: nat, open: bool)
    requires r.Ordered()
    requires s.kickDue.Some? ==> s.pings != [] && s.kickDue.value == r.limit(s.pings[|s.pings| - 1]) > s.now
    requires s.gaveUp.Some? ==> s.status == T.Disconnected && s.gaveUp.value <= s.now && s.kickDue.None?
    requires p in s.pings && r.limit(p) <= s.now ==> (s.gaveUp == Some(r.limit(p)) <==> open)
    requires p in s.pings && s.now < r.limit(p) ==>
               p <= s.now && p == s.pings[|s.pings| - 1] && (s.kickDue.Some? <==> open)
    ensures var s', c := StepBeat(r, s, o), r.limit(p);
            p in s'.pings && c <= s'.now ==>
              (s'.gaveUp == Some(c) <==> open && !((o == Pong || o == Close) && p <= s.now < c))
  {
    assert p < r.limit(p);
  }

  /** Only the last PING can still be waiting for its deadline. */
  lemma OnlyLastPingWaits(r: Rhythm, pings: seq<nat>, p: nat, now: nat)
    requires r.Ordered() && InRhythm(r, pings) && p in pings && now < r.limit(p)
    requires forall k :: 0 <= k < |pings| ==> pings[k] <= now
    ensures p == pings[|pings| - 1]
  {
    forall k | 0 <= k < |pings| - 1 ensures r.limit(pings[k]) <= now {
      FollowedIsOver(r, pings, k, now);
    }
  }

  lemma FollowedIsOver(r: Rhythm, pings: seq<nat>, k: nat, now: nat)
    requires r.Ordered() && InRhythm(r, pings) && k + 1 < |pings| && pings[k + 1] <= now
    ensures r.limit(pings[k]) <= now
  {
    assert Follows(r, pings, k);
  }

  // The rhythm that the wheel gives. Entries are re-armed while wheel 0 is being emptied.

  function Rearm(b: nat, w: nat, delay: nat): nat -> nat
    requires b >= 2 && w >= 1
  {
    (t: nat) => Deadline(b, w, 1, t, delay)
  }

  function RhythmOf(b: nat, w: nat, interval: nat, timeout: nat, start: nat): Rhythm
    requires b >= 2 && w >= 1
  {
    Rhythm(start + interval + 1, Rearm(b, w, interval), Rearm(b, w, timeout))
  }

  /** How both servers size the wheel for `interval`, and what its constructor makes of it. */
  ghost predicate SizedFor(b: nat, w: nat, interval: nat) {
    && b == (if interval < 500 then interval + 1 else 100)
    && w >= 1 && Pow(b, w) >= interval && (w > 1 ==> Pow(b, w - 1) < interval)
  }

  /** Below 500 the rhythm is steady: a PING every interval + 1 ticks, each given
      timeout + 1 ticks. */
  lemma ShortIntervalIsSteady(b: nat, w: nat, interval: nat, timeout: nat, start: nat)
    requires SizedFor(b, w, interval) && 1 <= timeout < interval < 500
    ensures RhythmOf(b, w, interval, timeout, start).Ordered() && KickoffFirst(b, w, interval, timeout)
    ensures forall t: nat :: Rearm(b, w, interval)(t) == t + interval + 1
                             && Rearm(b, w, timeout)(t) == t + timeout + 1
  {
    forall t: nat
      ensures Rearm(b, w, interval)(t) == t + interval + 1 && Rearm(b, w, timeout)(t) == t + timeout + 1
    {
      ShortInsertDuringTickIsExact(b, w, t, interval);
      ShortInsertDuringTickIsExact(b, w, t, timeout);
    }
    S.ServerWheelsCover(interval, b, w);
    OrderedIffKickoffFirst(b, w, interval, timeout, start);
  }

  /** So the k-th PING of a run is sent at a known tick. */
  lemma {:induction false} SteadyPings(interval: nat, r: Rhythm, pings: seq<nat>, start: nat, k: nat)
    requires InRhythm(r, pings) && k < |pings|
    requires r.first == start + interval + 1 && forall t: nat :: r.next(t) == t + interval + 1
    ensures pings[k] == start + (k + 1) * (interval + 1)
  {
    if k > 0 {
      SteadyPings(interval, r, pings, start, k - 1);
      assert Follows(r, pings, k - 1);
      assert (k + 1) * (interval + 1) == k * (interval + 1) + (interval + 1);
    }
  }

  /** The turn that a delay for wheel `i` may lose when it is re-armed. */
  function Loss(b: nat, i: nat): nat {
    if i == 0 then 0 else Pow(b, i)
  }

  /** What a caller can check before the connection is made: the PING delay may lose no more
      against the kickoff delay than it is longer. */
  predicate KickoffFirst(b: nat, w: nat, interval: nat, timeout: nat)
    requires b >= 2 && w >= 1
  {
    Loss(b, Level(b, w, interval)) - Loss(b, Level(b, w, timeout)) < interval - timeout
  }

  lemma RearmedAt(b: nat, w: nat, t: nat, delay: nat)
    requires b >= 2 && w >= 1 && S.Covered(b, w, delay)
    ensures Rearm(b, w, delay)(t) == t + delay + 1 - if t % Pow(b, Level(b, w, delay)) == 0 then Loss(b, Level(b, w, delay)) else 0
    ensures Rearm(b, w, delay)(t) > t
  {
    S.CoveredDeadline(b, w, t, delay);
    LossDuringTick(b, w, t, delay);
    DeadlineIsInTheFuture(b, w, 1, t, delay);
  }

  /** Exactly then every kickoff comes before the next PING, whenever they are re-armed. */
  lemma OrderedIffKickoffFirst(b: nat, w: nat, interval: nat, timeout: nat, start: nat)
    requires b >= 2 && w >= 1 && S.Covered(b, w, interval) && timeout < interval
    ensures RhythmOf(b, w, interval, timeout, start).Ordered() <==> KickoffFirst(b, w, interval, timeout)
  {
    var r := RhythmOf(b, w, interval, timeout, start);
    var j := Level(b, w, interval);
    forall t: nat
      ensures t < r.limit(t)
      ensures t % Pow(b, j) == 0 ==> (r.limit(t) < r.next(t) <==> KickoffFirst(b, w, interval, timeout))
      ensures t % Pow(b, j) != 0 ==> r.limit(t) < r.next(t)
    {
      RearmedTogether(b, w, interval, timeout, t);
    }
    assert 0 % Pow(b, j) == 0;
    assert r.Ordered() ==> r.limit(0) < r.next(0);
  }

  lemma RearmedTogether(b: nat, w: nat, interval: nat, timeout: nat, t: nat)
    requires b >= 2 && w >= 1 && S.Covered(b, w, interval) && timeout < interval
    ensures var next, limit := Rearm(b, w, interval)(t), Rearm(b, w, timeout)(t);
            && t < limit
            && (t % Pow(b, Level(b, w, interval)) == 0 ==> (limit < next <==> KickoffFirst(b, w, interval, timeout)))
            && (t % Pow(b, Level(b, w, interval)) != 0 ==> limit < next)
  {
    RearmedAt(b, w, t, interval);
    RearmedAt(b, w, t, timeout);
    LevelGrows(b, w, timeout, interval);
    if t % Pow(b, Level(b, w, interval)) == 0 {
      PowDivides(b, Level(b, w, timeout), Level(b, w, interval), t);
    }
  }

  /** The condition is needed: without it there is a connection whose second PING is due no
      later than its first one is given up. */
  lemma UnorderedIsReached(b: nat, w: nat, interval: nat, timeout: nat) returns (start: nat)
    requires b >= 2 && w >= 1 && S.Covered(b, w, interval) && timeout < interval
    requires !KickoffFirst(b, w, interval, timeout)
    ensures var r := RhythmOf(b, w, interval, timeout, start);
            InRhythm(r, [r.first]) && r.next(r.first) <= r.limit(r.first)
  {
    start := StartBefore(Pow(b, Level(b, w, interval)), interval + 1);
    RearmedTogether(b, w, interval, timeout, start + interval + 1);
  }

  lemma StartBefore(p: nat, n: nat) returns (start: nat)
    requires p > 0
    ensures (start + n) % p == 0
  {
    MulMono(1, p, n);
    start := p * n - n;
    DivUnique(n * p, p, n, 0);
  }

  /** With two wheels it holds for every timeout, so it does for every interval from 500 up to
      10000. The delays from 100 on are early by 100 exactly at the multiples of 100. */
  lemma LongIntervalIsOrdered(b: nat, w: nat, interval: nat, timeout: nat, start: nat)
    requires SizedFor(b, w, interval) && 1 <= timeout < interval && 500 <= interval <= 10000
    ensures KickoffFirst(b, w, interval, timeout) && RhythmOf(b, w, interval, timeout, start).Ordered()
    ensures forall t: nat :: Rearm(b, w, interval)(t) == t + interval + 1 - if t % 100 == 0 then 100 else 0
    ensures forall t: nat :: Rearm(b, w, timeout)(t) == t + timeout + 1 - if timeout >= 100 && t % 100 == 0 then 100 else 0
  {
    TwoWheels(w, interval);
    HundredPerWheel();
    LevelOfTwo(interval);
    LevelOfTwo(timeout);
    OrderedIffKickoffFirst(b, w, interval, timeout, start);
    forall t: nat
      ensures Rearm(b, w, interval)(t) == t + interval + 1 - if t % 100 == 0 then 100 else 0
      ensures Rearm(b, w, timeout)(t) == t + timeout + 1 - if timeout >= 100 && t % 100 == 0 then 100 else 0
    {
      RearmedAt(b, w, t, interval);
      RearmedAt(b, w, t, timeout);
    }
  }

  lemma HundredPerWheel()
    ensures Pow(100, 1) == 100 && Pow(100, 2) == 10000 && Pow(100, 3) == 1000000
  {
    assert Pow(100, 1) == 100 * Pow(100, 0);
    assert Pow(100, 2) == 100 * Pow(100, 1);
    assert Pow(100, 3) == 100 * Pow(100, 2);
  }

  lemma TwoWheels(w: nat, interval: nat)
    requires SizedFor(100, w, interval) && 500 <= interval <= 10000
    ensures w == 2
  {
    HundredPerWheel();
    if w > 2 { PowGrows(100, 2, w - 1); }
  }

  lemma {:induction false} PowGrows(b: nat, i: nat, j: nat)
    requires b >= 1 && i <= j
    ensures Pow(b, i) <= Pow(b, j)
  {
    if i < j {
      PowGrows(b, i, j - 1);
      MulMono(1, b, Pow(b, j - 1));
    }
  }

  lemma LevelOfTwo(delay: nat)
    ensures Level(100, 2, delay) == if delay >= 100 then 1 else 0
  {
    LandsInItsWheel(100, 2, 0, delay, 1);
  }

  lemma LevelOfThree(delay: nat)
    ensures Level(100, 3, delay) == if delay >= 10100 then 2 else if delay >= 100 then 1 else 0
  {
    HundredPerWheel();
    assert Lag(100, 1) == 0;
    LandsInItsWheel(100, 3, 0, delay, 1);
    LandsInItsWheel(100, 3, 0, delay, 2);
  }

  lemma RearmedAtTurn(b: nat, w: nat, t: nat, delay: nat, i: nat)
    requires b >= 2 && w >= 1 && S.Covered(b, w, delay) && Level(b, w, delay) == i && t % Pow(b, i) == 0
    ensures Rearm(b, w, delay)(t) == t + delay + 1 - Loss(b, i)
  {
    RearmedAt(b, w, t, delay);
  }

  /** Beyond that it can fail: a connection made at tick 9899 with an interval of 10100 and a
      timeout of 10099 sends its first PING at 20000 and its second at 20101, while the first
      would be given up at 30000. */
  lemma VeryLongIntervalIsNotOrdered(interval: nat, timeout: nat, start: nat)
    requires interval == 10100 && timeout == 10099 && start == 9899
    ensures SizedFor(100, 3, interval) && !KickoffFirst(100, 3, interval, timeout)
    ensures var r := RhythmOf(100, 3, interval, timeout, start);
            InRhythm(r, [20000]) && r.next(20000) == 20101 && r.limit(20000) == 30000
  {
    HundredPerWheel();
    LevelOfThree(interval);
    LevelOfThree(timeout);
    RearmedAtTurn(100, 3, 20000, interval, 2);
    RearmedAtTurn(100, 3, 20000, timeout, 1);
  }

  /** `id` is on the wheel once, due at `due`. */
  ghost predicate Sole(pending: set<Ref>, id: nat, due: nat) {
    Ref(id, due) in pending && forall r :: r in pending && r.id == id ==> r.due == due
  }

  /** A tick destroys such an entry if and only if it is due. */
  lemma SoleAfterTick(pending: set<Ref>, id: nat, due: nat, t: nat, created: set<Ref>)
    requires Sole(pending, id, due) && forall r :: r in created ==> r.id != id
    ensures id in Expiring(pending, t) <==> due == t
    ensures due != t ==> Sole(Remaining(pending, t) + created, id, due)
  {
    if due != t { assert Ref(id, due) in Remaining(pending, t); }
  }

  /** The destructors at one tick: a PingPongEntry of a live connection re-arms the heartbeat;
      entries whose connection has been reset, and kickoffs, insert nothing. */
  function Rearming(bound: map<nat, Kind>, status: Status, interval: nat, timeout: nat, kick: nat, ping: nat,
                    others: Destructors): Destructors
  {
    (id: nat) =>
          if id !in bound then others(id)
          else if bound[id] == PingPong && status == T.Connected then [Insertion(timeout, kick), Insertion(interval, ping)]
          else []
  }

  ghost predicate Avoids(destructors: Destructors, id: nat) {
    forall i: nat, n :: 0 <= n < |destructors(i)| ==> destructors(i)[n].id != id
  }

  /** What a re-arming PingPongEntry adds to the wheel. */
  lemma Rearmed(dues: nat -> nat, destroyed: set<nat>, bound: map<nat, Kind>, status: Status, interval: nat, timeout: nat,
                kick: nat, ping: nat, others: Destructors)
    requires kick != ping && Avoids(others, kick) && Avoids(others, ping) && interval >= 1 && timeout >= 1
    ensures var created := Reinserted(dues, destroyed, Rearming(bound, status, interval, timeout, kick, ping, others));
            (exists id :: id in destroyed && id in bound && bound[id] == PingPong && status == T.Connected) ==>
              Sole(created, kick, dues(timeout)) && Sole(created, ping, dues(interval))
  {
    var destructors := Rearming(bound, status, interval, timeout, kick, ping, others);
    if id :| id in destroyed && id in bound && bound[id] == PingPong && status == T.Connected {
      assert destructors(id)[0] == Insertion(timeout, kick) && destructors(id)[1] == Insertion(interval, ping);
    }
  }

  lemma FreshRearming(pending: set<Ref>, bound: map<nat, Kind>, status: Status, interval: nat, timeout: nat,
                      kick: nat, ping: nat, others: Destructors)
    requires Fresh(pending, others) && !Referenced(pending, kick) && !Referenced(pending, ping)
    ensures Fresh(pending, Rearming(bound, status, interval, timeout, kick, ping, others))
  {}

  /** What a tick has done to an entry. */
  ghost predicate Turned(pending: set<Ref>, t: nat, destroyed: set<nat>, id: nat, due: nat) {
    (id in destroyed <==> due == t) && (due != t ==> Sole(pending, id, due))
  }

  lemma EntryTurned(pending: set<Ref>, t: nat, dues: nat -> nat, destroyed: set<nat>, destructors: Destructors,
                    id: nat, due: nat)
    requires Fresh(pending, destructors) && destroyed == Expiring(pending, t) && Sole(pending, id, due)
    ensures Turned(Remaining(pending, t) + Reinserted(dues, destroyed, destructors), t, destroyed, id, due)
  {
    var created := Reinserted(dues, destroyed, destructors);
    forall r | r in created ensures r.id != id {
      var i, n :| i in destroyed && 0 <= n < |destructors(i)| && destructors(i)[n].id == r.id;
      assert Referenced(pending, i);
    }
    SoleAfterTick(pending, id, due, t, created);
  }

  /** An entry of the heartbeat on the wheel, if it has one. */
  ghost predicate OnWheel(pending: set<Ref>, entry: Option<nat>, due: Option<nat>) {
    due.Some? ==> entry.Some? && Sole(pending, entry.value, due.value)
  }

  /** What a tick does to the wheel: each entry of this connection is destroyed exactly when
      it is due, and what a live heartbeat re-arms is on the wheel, due in its turn. */
  lemma WheelTurned(pending: set<Ref>, pending': set<Ref>, dues: nat -> nat, t: nat, destroyed: set<nat>,
                    bound: map<nat, Kind>, status: Status, interval: nat, timeout: nat, kick: nat, ping: nat,
                    others: Destructors, kickEntry: Option<nat>, kickDue: Option<nat>,
                    pingEntry: Option<nat>, pingDue: Option<nat>)
    requires kick != ping && Avoids(others, kick) && Avoids(others, ping) && timeout >= 1 && interval >= 1
    requires !Referenced(pending, kick) && !Referenced(pending, ping)
    requires Fresh(pending, others) && destroyed == Expiring(pending, t)
    requires pending' == Remaining(pending, t)
                         + Reinserted(dues, destroyed, Rearming(bound, status, interval, timeout, kick, ping, others))
    requires OnWheel(pending, kickEntry, kickDue) && OnWheel(pending, pingEntry, pingDue)
    ensures kickDue.Some? ==> Turned(pending', t, destroyed, kickEntry.value, kickDue.value)
    ensures pingDue.Some? ==> Turned(pending', t, destroyed, pingEntry.value, pingDue.value)
    ensures pingDue == Some(t) && pingEntry.value in bound && bound[pingEntry.value] == PingPong && status == T.Connected ==>
              Sole(pending', kick, dues(timeout)) && Sole(pending', ping, dues(interval))
  {
    var destructors := Rearming(bound, status, interval, timeout, kick, ping, others);
    FreshRearming(pending, bound, status, interval, timeout, kick, ping, others);
    if kickDue.Some? {
      EntryTurned(pending, t, dues, destroyed, destructors, kickEntry.value, kickDue.value);
    }
    if pingDue.Some? {
      EntryTurned(pending, t, dues, destroyed, destructors, pingEntry.value, pingDue.value);
      if pingDue.value == t && pingEntry.value in bound && bound[pingEntry.value] == PingPong && status == T.Connected {
        Rearmed(dues, destroyed, bound, status, interval, timeout, kick, ping, others);
      }
    }
  }

  lemma RearmedInRhythm(b: nat, w: nat, t: nat, delay: nat)
    requires b >= 2 && w >= 1
    ensures DuesDuringTick(b, w, t)(delay) == Rearm(b, w, delay)(t)
  {}

  ghost predicate Inserts(destructors: Destructors, id: nat) {
    exists i: nat, n :: 0 <= n < |destructors(i)| && destructors(i)[n].id == id
  }

  /** A tick puts nothing else on the wheel. */
  lemma OnlyInserted(dues: nat -> nat, destroyed: set<nat>, bound: map<nat, Kind>, status: Status,
                     interval: nat, timeout: nat, kick: nat, ping: nat, others: Destructors)
    ensures forall r :: r in Reinserted(dues, destroyed, Rearming(bound, status, interval, timeout, kick, ping, others)) ==>
              r.id == kick || r.id == ping || Inserts(others, r.id)
  {
    var destructors := Rearming(bound, status, interval, timeout, kick, ping, others);
    forall r | r in Reinserted(dues, destroyed, destructors) ensures r.id == kick || r.id == ping || Inserts(others, r.id) {
      var id, n :| id in destroyed && 0 <= n < |destructors(id)| && r.id == destructors(id)[n].id;
      if id !in bound { assert others(id)[n].id == r.id; }
    }
  }

  /** One connection's part of AppTcpServer; other connections use the same wheel. */
  class Heartbeat {
    const interval: nat
    const timeout: nat
    const wheel: TimingWheel
    ghost const rhythm: Rhythm
    var status: Status
    var bound: map<nat, Kind>         // the entries whose connection has not been reset
    var pingPongEntry: Option<nat>    // pingPongEntries_ at this connection
    var kickoffEntry: Option<nat>     // kickoffEntries_ at this connection
    ghost var pingDue: Option<nat>
    ghost var kickDue: Option<nat>
    ghost var pings: seq<nat>
    ghost var gaveUp: Option<nat>
    ghost var calendar: set<Ref>      // what is on the wheel

    ghost function State(): Beat
      reads this, wheel
    {
      Beat(wheel.ticksCounter, status, pingDue, kickDue, pings, gaveUp)
    }

    ghost predicate Valid()
      reads this, wheel
    {
      && 1 <= timeout < interval
      && Shows(wheel, calendar)
      && rhythm.next == Rearm(wheel.bucketsNumPerWheel, wheel.wheelsNum, interval)
      && rhythm.limit == Rearm(wheel.bucketsNumPerWheel, wheel.wheelsNum, timeout)
      && rhythm.Ordered()
      && Linked()
      && (kickDue.Some? ==> kickDue.value > wheel.ticksCounter)
      && (pingDue.Some? ==> pingDue.value > wheel.ticksCounter)
      && OnWheel(calendar, kickoffEntry, kickDue)
      && OnWheel(calendar, pingPongEntry, pingDue)
    }

    /** At most one kickoff and one ping/pong entry can still reach the connection, and they
        are the ones in the two maps. */
    ghost predicate Linked()
      reads this
    {
      && (forall id :: id in bound && bound[id] == Kickoff <==> kickoffEntry == Some(id))
      && (forall id :: id in bound && bound[id] == PingPong ==> pingPongEntry == Some(id))
      && (kickDue.Some? <==> kickoffEntry.Some?)
      && (pingDue.Some? <==> pingPongEntry.Some? && pingPongEntry.value in bound)
      && (kickDue.Some? && pingDue.Some? ==> kickDue.value < pingDue.value && kickoffEntry != pingPongEntry)
      && (status == T.Connected ==> pingDue.Some?)
      && (status == T.Disconnected ==> bound == map[])
      && status != T.Connecting
    }

    /** The connection callback for a new connection, between ticks. */
    constructor (wheel: TimingWheel, interval: nat, timeout: nat, entry: nat)
      requires 1 <= timeout < interval && wheel.Valid()
      requires SizedFor(wheel.bucketsNumPerWheel, wheel.wheelsNum, interval) && !Referenced(wheel.Pending(), entry)
      requires KickoffFirst(wheel.bucketsNumPerWheel, wheel.wheelsNum, interval, timeout)
      modifies wheel
      ensures Valid() && this.wheel == wheel && this.interval == interval && this.timeout == timeout
      ensures rhythm == RhythmOf(wheel.bucketsNumPerWheel, wheel.wheelsNum, interval, timeout, wheel.ticksCounter)
      ensures wheel.ticksCounter == old(wheel.ticksCounter) && State() == RunBeat(rhythm, wheel.ticksCounter, [])
      ensures forall r :: r in calendar ==> r in old(wheel.Pending()) || r.id == entry
    {
      this.wheel, this.interval, this.timeout := wheel, interval, timeout;
      rhythm := RhythmOf(wheel.bucketsNumPerWheel, wheel.wheelsNum, interval, timeout, wheel.ticksCounter);
      status, bound, pingPongEntry, kickoffEntry := T.Connected, map[entry := PingPong], Some(entry), None;
      pingDue, kickDue, pings, gaveUp := Some(wheel.ticksCounter + interval + 1), None, [], None;
      new;
      ShowsPending(wheel, wheel.Pending());
      S.ServerWheelsCover(interval, wheel.bucketsNumPerWheel, wheel.wheelsNum);
      OrderedIffKickoffFirst(wheel.bucketsNumPerWheel, wheel.wheelsNum, interval, timeout, wheel.ticksCounter);
      S.CoveredDeadline(wheel.bucketsNumPerWheel, wheel.wheelsNum, wheel.ticksCounter, interval);
      calendar := InsertBetween(wheel, interval, entry, wheel.Pending());
    }

    /** Another user of the wheel. */
    method InsertOther(delay: nat, entry: nat)
      requires Valid() && entry !in bound
      modifies wheel, this`calendar
      ensures Valid() && State() == old(State())
    {
      calendar := InsertBetween(wheel, delay, entry, calendar);
    }

    /** A PONG has been received: resetKickoffEntry. */
    method HandlePong()
      requires Valid()
      modifies this
      ensures Valid() && State() == StepBeat(rhythm, old(State()), Pong) && calendar == old(calendar)
    {
      if kickoffEntry.Some? {
        bound := bound - {kickoffEntry.value};
        kickoffEntry, kickDue := None, None;
      }
    }

    /** TcpConnectionImpl::shutdown with nothing left to send. */
    method Shutdown()
      requires Valid()
      modifies this
      ensures Valid() && State() == StepBeat(rhythm, old(State()), HalfClose) && calendar == old(calendar)
      ensures status == if old(status) == T.Connected then T.Disconnecting else old(status)
      ensures bound == old(bound) && pingPongEntry == old(pingPongEntry) && kickoffEntry == old(kickoffEntry)
    {
      if status == T.Connected {
        status := T.Disconnecting;
      }
    }

    /** The peer has closed, or the application has. */
    method Close()
      requires Valid()
      modifies this
      ensures Valid() && State() == StepBeat(rhythm, old(State()), Occurrence.Close) && calendar == old(calendar)
    {
      HandleClose();
    }

    /** handleClose, and with it the connection callback for a lost connection. */
    method HandleClose()
      requires Linked()
      modifies this
      ensures Linked() && status == T.Disconnected && pingDue == kickDue == None
      ensures pings == old(pings) && gaveUp == old(gaveUp) && calendar == old(calendar)
    {
      status := T.Disconnected;
      if pingPongEntry.Some? {
        bound := bound - {pingPongEntry.value};
        pingPongEntry, pingDue := None, None;
      }
      if kickoffEntry.Some? {
        bound := bound - {kickoffEntry.value};
        kickoffEntry, kickDue := None, None;
      }
    }

    /** One tick of the wheel. `kick` and `ping` are the entries that a re-armed heartbeat
        allocates; `others` are the destructors of everything else on the wheel. */
    method Tick(kick: nat, ping: nat, others: Destructors)
      requires Valid() && kick != ping
      requires !Referenced(calendar, kick) && !Referenced(calendar, ping)
      requires Avoids(others, kick) && Avoids(others, ping) && Fresh(calendar, others)
      modifies this, wheel
      ensures Valid() && State() == StepTick(rhythm, old(State()))
      ensures forall r :: r in calendar ==> r in old(calendar) || r.id == kick || r.id == ping || Inserts(others, r.id)
    {
      var destroyed := TurnWheel(kick, ping, others);
      DestroyEntries(destroyed, kick, ping);
    }

    /** What the tick does to the wheel. */
    method TurnWheel(kick: nat, ping: nat, others: Destructors) returns (destroyed: set<nat>)
      requires Valid() && kick != ping
      requires !Referenced(calendar, kick) && !Referenced(calendar, ping)
      requires Avoids(others, kick) && Avoids(others, ping) && Fresh(calendar, others)
      modifies wheel, this`calendar
      ensures Shows(wheel, calendar) && wheel.ticksCounter == old(wheel.ticksCounter) + 1
      ensures kickDue.Some? ==> Turned(calendar, wheel.ticksCounter, destroyed, kickoffEntry.value, kickDue.value)
      ensures pingDue.Some? ==> Turned(calendar, wheel.ticksCounter, destroyed, pingPongEntry.value, pingDue.value)
      ensures pingDue == Some(wheel.ticksCounter) && status == T.Connected ==>
                && Sole(calendar, kick, rhythm.limit(wheel.ticksCounter))
                && Sole(calendar, ping, rhythm.next(wheel.ticksCounter))
      ensures forall r :: r in calendar ==> r in old(calendar) || r.id == kick || r.id == ping || Inserts(others, r.id)
    {
      FreshRearming(calendar, bound, status, interval, timeout, kick, ping, others);
      ghost var before := calendar;
      destroyed, calendar := TickWheel(wheel, Rearming(bound, status, interval, timeout, kick, ping, others), calendar);
      ghost var dues := DuesDuringTick(wheel.bucketsNumPerWheel, wheel.wheelsNum, wheel.ticksCounter);
      WheelTurned(before, calendar, dues, wheel.ticksCounter, destroyed, bound, status, interval, timeout,
                  kick, ping, others, kickoffEntry, kickDue, pingPongEntry, pingDue);
      OnlyInserted(dues, destroyed, bound, status, interval, timeout, kick, ping, others);
      RearmedInRhythm(wheel.bucketsNumPerWheel, wheel.wheelsNum, wheel.ticksCounter, timeout);
      RearmedInRhythm(wheel.bucketsNumPerWheel, wheel.wheelsNum, wheel.ticksCounter, interval);
    }

    /** Runs the destructors of the entries that still reach the connection. */
    method DestroyEntries(destroyed: set<nat>, kick: nat, ping: nat)
      requires Linked() && rhythm.Ordered() && kick != ping
      requires kickDue.Some? ==> (kickoffEntry.value in destroyed <==> kickDue.value == wheel.ticksCounter)
                                 && kickDue.value >= wheel.ticksCounter
      requires pingDue.Some? ==> (pingPongEntry.value in destroyed <==> pingDue.value == wheel.ticksCounter)
                                 && pingDue.value >= wheel.ticksCounter
      requires wheel.ticksCounter > 0
      modifies this
      ensures Linked() && calendar == old(calendar)
      ensures State() == StepTick(rhythm, old(State()).(now := wheel.ticksCounter - 1))
      ensures kickDue.Some? ==>
                if kickDue == old(kickDue) then kickoffEntry == old(kickoffEntry) && kickDue.value > wheel.ticksCounter
                else Rearms(old(State())) && kickoffEntry == Some(kick) && kickDue.value == rhythm.limit(wheel.ticksCounter)
      ensures pingDue.Some? ==>
                if pingDue == old(pingDue) then pingPongEntry == old(pingPongEntry) && pingDue.value > wheel.ticksCounter
                else Rearms(old(State())) && pingPongEntry == Some(ping) && pingDue.value == rhythm.next(wheel.ticksCounter)
    {
      if kickoffEntry.Some? && kickoffEntry.value in destroyed {
        DestroyKickoff();
      }
      if pingPongEntry.Some? && pingPongEntry.value in bound && pingPongEntry.value in destroyed {
        DestroyPingPong(kick, ping);
      }
    }

    /** The ping/pong entry is due at this tick and the connection is live. */
    ghost predicate Rearms(before: Beat)
      reads this, wheel
    {
      before.pingDue == Some(wheel.ticksCounter) && before.status == T.Connected
    }

    /** ~KickoffEntry: forceClose. */
    method DestroyKickoff()
      requires Linked() && kickoffEntry.Some?
      modifies this
      ensures Linked() && status == T.Disconnected && pingDue == kickDue == None
      ensures pings == old(pings) && gaveUp == Some(wheel.ticksCounter) && calendar == old(calendar)
    {
      bound := bound - {kickoffEntry.value};
      kickoffEntry, kickDue := None, None;
      gaveUp := Some(wheel.ticksCounter);
      if status == T.Connected || status == T.Disconnecting {
        HandleClose();
      }
    }

    /** ~PingPongEntry: PING, and a new kickoff and a new ping/pong entry. */
    method DestroyPingPong(kick: nat, ping: nat)
      requires Linked() && rhythm.Ordered() && pingDue.Some? && kickoffEntry.None? && kick != ping
      modifies this
      ensures Linked() && status == old(status) && gaveUp == old(gaveUp) && calendar == old(calendar)
      ensures if status != T.Connected then pingDue == kickDue == None && pings == old(pings)
              else && pings == old(pings) + [wheel.ticksCounter]
                   && pingDue == Some(rhythm.next(wheel.ticksCounter)) && pingPongEntry == Some(ping)
                   && kickDue == Some(rhythm.limit(wheel.ticksCounter)) && kickoffEntry == Some(kick)
    {
      bound, pingDue := bound - {pingPongEntry.value}, None;
      assert rhythm.limit(wheel.ticksCounter) < rhythm.next(wheel.ticksCounter);
      if status == T.Connected {
        pings := pings + [wheel.ticksCounter];
        bound := bound[kick := Kickoff][ping := PingPong];
        kickoffEntry, kickDue := Some(kick), Some(rhythm.limit(wheel.ticksCounter));
        pingPongEntry, pingDue := Some(ping), Some(rhythm.next(wheel.ticksCounter));
      }
    }
  }

  /** A connection made between ticks, on a wheel sized as the server sizes it and holding
      entries that insert nothing: whatever happens to it and however many ticks pass, its
      heartbeat is that of the abstract run. Its entries are numbered from `entry` on. */
  method RunHeartbeat(wheel: TimingWheel, interval: nat, timeout: nat, entry: nat, events: seq<Occurrence>)
    returns (h: Heartbeat)
    requires 1 <= timeout < interval && wheel.Valid()
    requires SizedFor(wheel.bucketsNumPerWheel, wheel.wheelsNum, interval)
    requires KickoffFirst(wheel.bucketsNumPerWheel, wheel.wheelsNum, interval, timeout)
    requires Below(wheel.Pending(), entry)
    modifies wheel
    ensures h.Valid() && h.wheel == wheel
    ensures var r := RhythmOf(wheel.bucketsNumPerWheel, wheel.wheelsNum, interval, timeout, old(wheel.ticksCounter));
            r.Ordered() && h.State() == RunBeat(r, old(wheel.ticksCounter), events)
  {
    ghost var start: nat := wheel.ticksCounter;
    h := new Heartbeat(wheel, interval, timeout, entry);
    ghost var r := h.rhythm;
    var next: nat := entry + 1;
    for n := 0 to |events|
      invariant fresh(h) && h.wheel == wheel && h.rhythm == r
      invariant h.Valid() && Below(h.calendar, next)
      invariant h.State() == RunBeat(r, start, events[..n])
    {
      assert events[..n + 1][..n] == events[..n];
      next := React(h, events[n], next);
    }
    assert events[..|events|] == events;
  }

  /** Every entry on the wheel has a smaller number. */
  ghost predicate Below(pending: set<Ref>, next: nat) {
    forall r :: r in pending ==> r.id < next
  }

  method React(h: Heartbeat, o: Occurrence, next: nat) returns (next': nat)
    requires h.Valid() && Below(h.calendar, next)
    modifies h, h.wheel
    ensures h.Valid() && Below(h.calendar, next')
    ensures h.State() == StepBeat(h.rhythm, old(h.State()), o)
  {
    next' := next;
    match o {
      case Advance =>
        QuietAvoids(next);
        h.Tick(next, next + 1, Quiet());
        next' := next + 2;
      case Pong => h.HandlePong();
      case HalfClose => h.Shutdown();
      case Close => h.Close();
    }
  }

  lemma QuietAvoids(next: nat)
    ensures Avoids(Quiet(), next) && Avoids(Quiet(), next + 1)
    ensures forall id :: !Inserts(Quiet(), id)
  {}
}
