/** cooper/net/TimerQueue: a priority queue of timers, the set of live ids, and one timerfd.
    Everything here happens on the loop thread; callbacks may add and cancel timers. */
module TimerQueues {
  import opened Options

  /** A timer repeats when its interval is positive. */
  datatype Timer = Timer(id: nat, when: int, interval: nat)

  /** What a callback does to the queue. One counter numbers the timers of all queues, so
      `elsewhere` of them may have been created for others since this queue saw the last. */
  datatype Action = Add(when: int, interval: nat, elsewhere: nat) | Cancel(id: nat)

  type Callbacks = nat -> seq<Action>

  /** The queue, the live ids and the latest id given to a timer of this queue. */
  datatype Book = Book(timers: set<Timer>, live: set<nat>, created: nat)

  function Act(b: Book, a: Action): Book {
    match a
    case Add(when, interval, elsewhere) =>
      var id := b.created + 1 + elsewhere;
      Book(b.timers + {Timer(id, when, interval)}, b.live + {id}, id)
    case Cancel(id) => b.(live := b.live - {id})
  }

  function ActAll(b: Book, actions: seq<Action>): Book {
    if actions == [] then b else Act(ActAll(b, actions[..|actions| - 1]), actions[|actions| - 1])
  }

  /** The state after the first callbacks of a batch: only live timers are called. */
  function CallAll(b: Book, batch: seq<Timer>, callbacks: Callbacks): Book {
    if batch == [] then b
    else
      var before := CallAll(b, batch[..|batch| - 1], callbacks);
      var id := batch[|batch| - 1].id;
      if id in before.live then ActAll(before, callbacks(id)) else before
  }

  /** The ids called, in order. */
  function Called(b: Book, batch: seq<Timer>, callbacks: Callbacks): seq<nat> {
    if batch == [] then []
    else
      var prefix := batch[..|batch| - 1];
      var id := batch[|batch| - 1].id;
      Called(b, prefix, callbacks) + if id in CallAll(b, prefix, callbacks).live then [id] else []
  }

  /** After the batch: live repeating timers go back into the queue, one-shots are finished. */
  function Settle(b: Book, batch: seq<Timer>, now: int): Book {
    if batch == [] then b
    else
      var before := Settle(b, batch[..|batch| - 1], now);
      var t := batch[|batch| - 1];
      if t.id !in before.live then before
      else if t.interval > 0 then before.(timers := before.timers + {t.(when := now + t.interval)})
      else before.(live := before.live - {t.id})
  }

  /** `pool` holds the timers that have been taken out of the queue and not put back. */
  ghost predicate WellFormed(b: Book, pool: set<Timer>) {
    && (forall t, u :: t in b.timers + pool && u in b.timers + pool && t.id == u.id ==> t == u)
    && (forall t :: t in b.timers + pool ==> t.id <= b.created)
    && (forall id :: id in b.live ==> id <= b.created && Queued(b.timers + pool, id))
  }

  ghost predicate Queued(timers: set<Timer>, id: nat) {
    exists t :: t in timers && t.id == id
  }

  ghost predicate Sorted(batch: seq<Timer>) {
    forall i, j :: 0 <= i < j < |batch| ==> batch[i].when <= batch[j].when
  }

  ghost predicate Distinct(batch: seq<Timer>) {
    forall i, j :: 0 <= i < j < |batch| ==> batch[i].id != batch[j].id
  }

  ghost function Items(batch: seq<Timer>): set<Timer> {
    set t | t in batch
  }

  lemma ActKeeps(b: Book, a: Action, pool: set<Timer>)
    requires WellFormed(b, pool)
    ensures WellFormed(Act(b, a), pool)
    ensures b.timers <= Act(b, a).timers && b.created <= Act(b, a).created
    ensures forall id :: id <= b.created ==> (id in Act(b, a).live <==> id in b.live && a != Cancel(id))
  {
    var b' := Act(b, a);
    forall id | id in b'.live ensures Queued(b'.timers + pool, id) {
      if id in b.live {
        var t :| t in b.timers + pool && t.id == id;
        assert t in b'.timers + pool;
      } else {
        assert Timer(id, a.when, a.interval) in b'.timers;
      }
    }
  }

  lemma {:induction false} ActAllKeeps(b: Book, actions: seq<Action>, pool: set<Timer>)
    requires WellFormed(b, pool)
    ensures var b' := ActAll(b, actions);
            && WellFormed(b', pool) && b.timers <= b'.timers && b.created <= b'.created
            && forall id :: id <= b.created ==> (id in b'.live <==> id in b.live && Cancel(id) !in actions)
  {
    if actions != [] {
      var prefix, last := actions[..|actions| - 1], actions[|actions| - 1];
      ActAllKeeps(b, prefix, pool);
      ActKeeps(ActAll(b, prefix), last, pool);
      assert actions == prefix + [last];
    }
  }

  lemma {:induction false} CallAllKeeps(b: Book, batch: seq<Timer>, callbacks: Callbacks, pool: set<Timer>)
    requires WellFormed(b, pool)
    ensures var b' := CallAll(b, batch, callbacks);
            WellFormed(b', pool) && b.timers <= b'.timers && b.created <= b'.created
  {
    if batch != [] {
      var prefix, id := batch[..|batch| - 1], batch[|batch| - 1].id;
      CallAllKeeps(b, prefix, callbacks, pool);
      ActAllKeeps(CallAll(b, prefix, callbacks), callbacks(id), pool);
    }
  }

  /** The latest id after some actions: every timer takes the next number, after those that
      were given elsewhere. */
  function Numbered(created: nat, actions: seq<Action>): nat {
    if actions == [] then created
    else
      match actions[|actions| - 1]
      case Add(_, _, elsewhere) => Numbered(created, actions[..|actions| - 1]) + elsewhere + 1
      case Cancel(_) => Numbered(created, actions[..|actions| - 1])
  }

  /** `t` is the timer that the k-th action adds. */
  ghost predicate AddedAt(created: nat, actions: seq<Action>, k: int, t: Timer)
    requires 0 <= k < |actions|
  {
    && actions[k].Add? && t.when == actions[k].when && t.interval == actions[k].interval
    && t.id == Numbered(created, actions[..k + 1])
  }

  ghost predicate Added(created: nat, actions: seq<Action>, t: Timer) {
    exists k :: 0 <= k < |actions| && AddedAt(created, actions, k, t)
  }

  /** `id` is that of the k-th action's timer, which no later action cancels. */
  ghost predicate NumberedAt(created: nat, actions: seq<Action>, k: int, id: nat)
    requires 0 <= k < |actions|
  {
    actions[k].Add? && id == Numbered(created, actions[..k + 1]) && Cancel(id) !in actions[k + 1..]
  }

  ghost predicate LiveAfter(b: Book, actions: seq<Action>, id: nat) {
    || (id in b.live && Cancel(id) !in actions)
    || exists k :: 0 <= k < |actions| && NumberedAt(b.created, actions, k, id)
  }

  lemma AddedStep(created: nat, prefix: seq<Action>, a: Action, t: Timer)
    ensures Added(created, prefix + [a], t)
            <==> Added(created, prefix, t)
                 || (a.Add? && t == Timer(Numbered(created, prefix) + a.elsewhere + 1, a.when, a.interval))
  {
    var actions := prefix + [a];
    forall k | 0 <= k < |prefix| ensures AddedAt(created, actions, k, t) <==> AddedAt(created, prefix, k, t) {
      assert actions[..k + 1] == prefix[..k + 1];
    }
    assert actions[..|prefix| + 1] == actions && actions[..|prefix|] == prefix;
    assert AddedAt(created, actions, |prefix|, t)
      <==> a.Add? && t == Timer(Numbered(created, prefix) + a.elsewhere + 1, a.when, a.interval);
  }

  lemma LiveAfterStep(b: Book, prefix: seq<Action>, a: Action, id: nat)
    ensures LiveAfter(b, prefix + [a], id)
            <==> || (LiveAfter(b, prefix, id) && a != Cancel(id))
                 || (a.Add? && id == Numbered(b.created, prefix) + a.elsewhere + 1)
  {
    var actions := prefix + [a];
    forall k | 0 <= k < |prefix|
      ensures NumberedAt(b.created, actions, k, id) <==> NumberedAt(b.created, prefix, k, id) && a != Cancel(id)
    {
      assert actions[..k + 1] == prefix[..k + 1] && actions[k + 1..] == prefix[k + 1..] + [a];
    }
    assert actions[..|prefix| + 1] == actions && actions[..|prefix|] == prefix;
    assert NumberedAt(b.created, actions, |prefix|, id)
      <==> a.Add? && id == Numbered(b.created, prefix) + a.elsewhere + 1;
  }

  /** What the actions of callbacks do: exactly one timer comes into the queue for each timer
      added, with the time and the interval asked for and a number of its own, none leaves it,
      and an id is live if it was, or was added, and has not been cancelled since. */
  lemma {:induction false} ActionsMeaning(b: Book, actions: seq<Action>)
    ensures var b' := ActAll(b, actions);
            && (forall t :: t in b'.timers <==> t in b.timers || Added(b.created, actions, t))
            && (forall id :: id in b'.live <==> LiveAfter(b, actions, id))
            && b'.created == Numbered(b.created, actions)
  {
    if actions != [] {
      var prefix, a := actions[..|actions| - 1], actions[|actions| - 1];
      assert actions == prefix + [a];
      ActionsMeaning(b, prefix);
      forall t ensures t in ActAll(b, actions).timers <==> t in b.timers || Added(b.created, actions, t) {
        AddedStep(b.created, prefix, a, t);
      }
      forall id ensures id in ActAll(b, actions).live <==> LiveAfter(b, actions, id) {
        LiveAfterStep(b, prefix, a, id);
      }
    }
  }

  /** Timers added one after the other get growing ids, all of them new. */
  lemma {:induction false} NumberedGrows(created: nat, actions: seq<Action>, k: nat)
    requires k <= |actions|
    ensures created <= Numbered(created, actions[..k]) <= Numbered(created, actions)
    ensures k < |actions| && actions[k].Add? ==> Numbered(created, actions[..k]) < Numbered(created, actions)
  {
    if k == |actions| {
      assert actions[..k] == actions;
      if k > 0 { NumberedGrows(created, actions[..k - 1], k - 1); }
    } else {
      var prefix := actions[..|actions| - 1];
      NumberedGrows(created, prefix, k);
      assert prefix[..k] == actions[..k];
    }
  }

  /** Everything that the callbacks of some ids do. */
  function Performed(called: seq<nat>, callbacks: Callbacks): seq<Action> {
    if called == [] then []
    else Performed(called[..|called| - 1], callbacks) + callbacks(called[|called| - 1])
  }

  lemma {:induction false} ActAllTwice(b: Book, first: seq<Action>, second: seq<Action>)
    ensures ActAll(b, first + second) == ActAll(ActAll(b, first), second)
    decreases |second|
  {
    if second == [] {
      assert first + second == first;
    } else {
      var n := |second| - 1;
      assert (first + second)[..|first + second| - 1] == first + second[..n];
      ActAllTwice(b, first, second[..n]);
    }
  }

  /** A batch does what the callbacks of the called timers do, one after the other. */
  lemma {:induction false} BatchPerforms(b: Book, batch: seq<Timer>, callbacks: Callbacks)
    ensures CallAll(b, batch, callbacks) == ActAll(b, Performed(Called(b, batch, callbacks), callbacks))
  {
    if batch != [] {
      var prefix, id := batch[..|batch| - 1], batch[|batch| - 1].id;
      var called := Called(b, prefix, callbacks);
      BatchPerforms(b, prefix, callbacks);
      if id in CallAll(b, prefix, callbacks).live {
        ActAllTwice(b, Performed(called, callbacks), callbacks(id));
        assert (called + [id])[..|called|] == called;
      } else {
        assert called + [] == called;
      }
    }
  }

  /** An id that was live before the batch is live after its first callbacks exactly when none
      of the timers called so far has cancelled it. */
  lemma {:induction false} LiveIffNotCancelled(b: Book, batch: seq<Timer>, callbacks: Callbacks, pool: set<Timer>, id: nat)
    requires WellFormed(b, pool) && id <= b.created
    ensures id in CallAll(b, batch, callbacks).live
            <==> id in b.live && forall c :: c in Called(b, batch, callbacks) ==> Cancel(id) !in callbacks(c)
  {
    if batch != [] {
      var prefix, last := batch[..|batch| - 1], batch[|batch| - 1].id;
      LiveIffNotCancelled(b, prefix, callbacks, pool, id);
      CallAllKeeps(b, prefix, callbacks, pool);
      ActAllKeeps(CallAll(b, prefix, callbacks), callbacks(last), pool);
    }
  }

  /** The k-th timer of a batch is called if and only if it was live when the batch began and
      no timer called before it in the batch has cancelled it. */
  lemma CalledIff(b: Book, batch: seq<Timer>, callbacks: Callbacks, k: nat)
    requires k < |batch| && Distinct(batch) && WellFormed(b, Items(batch))
    ensures batch[k].id in Called(b, batch, callbacks)
            <==> batch[k].id in b.live
                 && forall c :: c in Called(b, batch[..k], callbacks) ==> Cancel(batch[k].id) !in callbacks(c)
  {
    assert batch[k] in Items(batch);
    LiveIffNotCancelled(b, batch[..k], callbacks, Items(batch), batch[k].id);
    CalledAt(b, batch, callbacks, k);
  }

  lemma {:induction false} CalledAt(b: Book, batch: seq<Timer>, callbacks: Callbacks, k: nat)
    requires k < |batch| && Distinct(batch)
    ensures batch[k].id in Called(b, batch, callbacks) <==> batch[k].id in CallAll(b, batch[..k], callbacks).live
  {
    var n := |batch| - 1;
    var prefix := batch[..n];
    CalledAreInBatch(b, prefix, callbacks);
    if k < n {
      CalledAt(b, prefix, callbacks, k);
      assert prefix[..k] == batch[..k];
    }
  }

  lemma {:induction false} CalledAreInBatch(b: Book, batch: seq<Timer>, callbacks: Callbacks)
    ensures forall c :: c in Called(b, batch, callbacks) ==> exists k :: 0 <= k < |batch| && batch[k].id == c
  {
    if batch != [] {
      var prefix := batch[..|batch| - 1];
      CalledAreInBatch(b, prefix, callbacks);
      forall c | c in Called(b, batch, callbacks) ensures exists k :: 0 <= k < |batch| && batch[k].id == c {
        if c in Called(b, prefix, callbacks) {
          var k :| 0 <= k < |prefix| && prefix[k].id == c;
          assert batch[k].id == c;
        } else {
          assert batch[|batch| - 1].id == c;
        }
      }
    }
  }

  ghost predicate NoRepeats(ids: seq<nat>) {
    forall i, j :: 0 <= i < j < |ids| ==> ids[i] != ids[j]
  }

  /** Each timer of a batch is called at most once. */
  lemma {:induction false} CalledOnce(b: Book, batch: seq<Timer>, callbacks: Callbacks)
    requires Distinct(batch)
    ensures NoRepeats(Called(b, batch, callbacks))
  {
    if batch != [] {
      var prefix := batch[..|batch| - 1];
      CalledOnce(b, prefix, callbacks);
      CalledAreInBatch(b, prefix, callbacks);
      var before, last := Called(b, prefix, callbacks), batch[|prefix|].id;
      assert Called(b, batch, callbacks) == before || Called(b, batch, callbacks) == before + [last];
      NoRepeatsAppend(before, last);
    }
  }

  lemma NoRepeatsAppend(ids: seq<nat>, id: nat)
    requires NoRepeats(ids) && id !in ids
    ensures NoRepeats(ids + [id])
  {}

  /** Timers are called in the order of the batch, which is the order of their times. */
  lemma {:induction false} CalledInOrder(b: Book, batch: seq<Timer>, callbacks: Callbacks, i: nat, j: nat)
    requires Sorted(batch) && i <= j < |Called(b, batch, callbacks)|
    ensures var called := Called(b, batch, callbacks);
            exists k, l :: 0 <= k <= l < |batch| && batch[k].id == called[i] && batch[l].id == called[j]
                           && batch[k].when <= batch[l].when
  {
    var prefix, last := batch[..|batch| - 1], |batch| - 1;
    var before := Called(b, prefix, callbacks);
    if j < |before| {
      CalledInOrder(b, prefix, callbacks, i, j);
      var k, l :| 0 <= k <= l < |prefix| && prefix[k].id == before[i] && prefix[l].id == before[j];
      assert batch[k].id == before[i] && batch[l].id == before[j];
    } else if i < |before| {
      CalledAreInBatch(b, prefix, callbacks);
      assert before[i] in before;
      var k :| 0 <= k < |prefix| && prefix[k].id == before[i];
      assert batch[k].id == before[i] && batch[last].id == Called(b, batch, callbacks)[j];
    } else {
      assert batch[last].id == Called(b, batch, callbacks)[j];
    }
  }

  /** `t` is a timer of the batch, put back for its next turn. */
  ghost predicate Restarted(b: Book, batch: seq<Timer>, now: int, t: Timer) {
    t.interval > 0 && t.when == now + t.interval && t.id in b.live
    && exists k :: 0 <= k < |batch| && batch[k].id == t.id && batch[k].interval == t.interval
  }

  ghost predicate FinishedOneShot(batch: seq<Timer>, id: nat) {
    exists k :: 0 <= k < |batch| && batch[k].id == id && batch[k].interval == 0
  }

  /** What putting a batch back does to the queue and to the live ids. */
  lemma {:induction false} SettleMeaning(b: Book, batch: seq<Timer>, now: int)
    requires Distinct(batch)
    ensures var b' := Settle(b, batch, now);
            && b'.created == b.created
            && (forall id :: id in b'.live <==> id in b.live && !FinishedOneShot(batch, id))
            && (forall t :: t in b'.timers <==> t in b.timers || Restarted(b, batch, now, t))
  {
    if batch != [] {
      var prefix, last := batch[..|batch| - 1], batch[|batch| - 1];
      SettleMeaning(b, prefix, now);
      assert !FinishedOneShot(prefix, last.id);
      assert batch == prefix + [last];
      forall id ensures FinishedOneShot(batch, id) <==> FinishedOneShot(prefix, id) || (last.id == id && last.interval == 0) {
        if FinishedOneShot(prefix, id) {
          var k :| 0 <= k < |prefix| && prefix[k].id == id && prefix[k].interval == 0;
          assert batch[k].id == id;
        }
        if last.id == id && last.interval == 0 { assert batch[|prefix|].id == id; }
      }
      forall t
        ensures Restarted(b, batch, now, t)
                <==> (Restarted(b, prefix, now, t)
                      || (t == last.(when := now + last.interval) && last.interval > 0 && last.id in b.live))
      {
        if Restarted(b, prefix, now, t) {
          var k :| 0 <= k < |prefix| && prefix[k].id == t.id && prefix[k].interval == t.interval;
          assert batch[k].id == t.id;
        }
        if t == last.(when := now + last.interval) { assert batch[|prefix|].id == t.id; }
      }
    }
  }

  /** The whole of handleRead: the queue then holds what was not due, exactly the timers that
      the called callbacks added, and the repeating timers of the batch that were live and
      have not been cancelled, one interval from now. */
  lemma BatchMeaning(b: Book, batch: seq<Timer>, callbacks: Callbacks, now: int, t: Timer)
    requires Distinct(batch) && WellFormed(b, Items(batch))
    ensures var actions := Performed(Called(b, batch, callbacks), callbacks);
            t in Settle(CallAll(b, batch, callbacks), batch, now).timers
            <==> || t in b.timers
                 || Added(b.created, actions, t)
                 || (t.interval > 0 && t.when == now + t.interval && t.id in b.live && Cancel(t.id) !in actions
                     && exists k :: 0 <= k < |batch| && batch[k].id == t.id && batch[k].interval == t.interval)
  {
    var actions := Performed(Called(b, batch, callbacks), callbacks);
    BatchPerforms(b, batch, callbacks);
    ActionsMeaning(b, actions);
    SettleMeaning(CallAll(b, batch, callbacks), batch, now);
    if k :| 0 <= k < |batch| && batch[k].id == t.id && batch[k].interval == t.interval {
      assert batch[k] in Items(batch);
      ActAllKeeps(b, actions, Items(batch));
    }
  }

  /** A timer in the queue after the batch, and the timer it was before. */
  lemma Origin(b: Book, batch: seq<Timer>, now: int, t: Timer) returns (t0: Timer)
    requires Distinct(batch) && t in Settle(b, batch, now).timers
    ensures t0.id == t.id && if t in b.timers then t0 == t else t0 in batch && t == t0.(when := now + t0.interval)
  {
    SettleMeaning(b, batch, now);
    t0 := t;
    if t !in b.timers {
      var k :| 0 <= k < |batch| && batch[k].id == t.id && batch[k].interval == t.interval;
      t0 := batch[k];
    }
  }

  lemma SettleKeeps(b: Book, batch: seq<Timer>, now: int)
    requires Distinct(batch) && WellFormed(b, Items(batch))
    requires forall t :: t in batch ==> t !in b.timers
    ensures WellFormed(Settle(b, batch, now), {})
  {
    var b' := Settle(b, batch, now);
    assert b'.created == b.created by { SettleMeaning(b, batch, now); }
    forall t | t in b'.timers ensures t.id <= b'.created {
      var t0 := Origin(b, batch, now, t);
      assert t0 in b.timers + Items(batch);
    }
    forall t, u | t in b'.timers && u in b'.timers && t.id == u.id ensures t == u {
      var t0 := Origin(b, batch, now, t);
      var u0 := Origin(b, batch, now, u);
      assert t0 in b.timers + Items(batch) && u0 in b.timers + Items(batch);
    }
    forall id | id in b'.live ensures id <= b'.created && Queued(b'.timers, id) {
      StillQueued(b, batch, now, id);
    }
  }

  lemma StillQueued(b: Book, batch: seq<Timer>, now: int, id: nat)
    requires Distinct(batch) && WellFormed(b, Items(batch)) && id in Settle(b, batch, now).live
    ensures id in b.live && Queued(Settle(b, batch, now).timers, id)
  {
    SettleMeaning(b, batch, now);
    var t :| t in b.timers + Items(batch) && t.id == id;
    if t in b.timers {
      assert t in Settle(b, batch, now).timers;
    } else {
      var k :| 0 <= k < |batch| && batch[k] == t;
      assert Restarted(b, batch, now, t.(when := now + t.interval));
    }
  }

  ghost predicate Extends(m: map<nat, bool>, n: map<nat, bool>) {
    forall id :: id in m ==> id in n && n[id] == m[id]
  }

  class TimerQueue {
    var timers: set<Timer>
    var timerIdSet: set<nat>
    var timersCreated: nat
    var timerfd: Option<int>  // when the timerfd is set to expire
    ghost var runs: seq<nat>          // the ids run so far
    ghost var repeating: map<nat, bool>  // by id

    ghost function State(): Book
      reads this
    {
      Book(timers, timerIdSet, timersCreated)
    }

    /** Between operations every live id has exactly one queued timer, the timerfd stands at
        the earliest queued time, and a one-shot that has run is no longer live. */
    ghost predicate Valid()
      reads this
    {
      && WellFormed(State(), {})
      && Armed()
      && Known({})
      && OneShotsRunOnce()
    }

    ghost predicate Armed()
      reads this
    {
      timers != {} ==>
        && timerfd.Some?
        && (exists t :: t in timers && t.when == timerfd.value)
        && forall t :: t in timers ==> timerfd.value <= t.when
    }

    ghost predicate Known(pool: set<Timer>)
      reads this
    {
      && (forall t :: t in timers + pool ==> t.id in repeating && repeating[t.id] == (t.interval > 0))
      && (forall id :: id in repeating ==> id <= timersCreated)
    }

    ghost predicate OneShotsRunOnce()
      reads this
    {
      && (forall id :: id in runs ==> id in repeating && (!repeating[id] ==> id !in timerIdSet))
      && (forall i, j :: 0 <= i < j < |runs| && runs[i] == runs[j] ==> repeating[runs[i]])
    }

    constructor ()
      ensures Valid() && timers == {} && timerIdSet == {} && runs == []
    {
      timers, timerIdSet, timersCreated, timerfd, runs, repeating := {}, {}, 0, None, [], map[];
    }

    /** timers_.top(): some timer with the least time. */
    method Top() returns (top: Timer)
      requires timers != {}
      ensures top in timers && forall t :: t in timers ==> top.when <= t.when
    {
      top := Earliest(timers);
    }

    method Insert(t: Timer) returns (earliestChanged: bool)
      modifies this`timers
      ensures timers == old(timers) + {t}
      ensures earliestChanged <==> forall u :: u in old(timers) ==> t.when < u.when
    {
      earliestChanged := timers == {};
      if timers != {} {
        var top := Top();
        earliestChanged := t.when < top.when;
      }
      timers := timers + {t};
    }

    method AddTimerInLoop(t: Timer)
      modifies this`timers, this`timerIdSet, this`timerfd
      ensures timers == old(timers) + {t} && timerIdSet == old(timerIdSet) + {t.id}
      ensures timerfd == if forall u :: u in old(timers) ==> t.when < u.when then Some(t.when) else old(timerfd)
    {
      timerIdSet := timerIdSet + {t.id};
      var changed := Insert(t);
      if changed {
        timerfd := Some(t.when);
      }
    }

    method AddTimer(when: int, interval: nat, elsewhere: nat) returns (id: nat)
      requires Valid()
      modifies this
      ensures Valid() && id == old(timersCreated) + 1 + elsewhere && runs == old(runs)
      ensures State() == Act(old(State()), Add(when, interval, elsewhere))
      ensures timers == old(timers) + {Timer(id, when, interval)} && timerIdSet == old(timerIdSet) + {id}
    {
      ActKeeps(State(), Add(when, interval, elsewhere), {});
      id := CreateTimer(when, interval, elsewhere);
      assert Timer(id, when, interval) in timers;
    }

    /** The timer gets a new id; on the loop thread it is queued at once. */
    method CreateTimer(when: int, interval: nat, elsewhere: nat) returns (id: nat)
      requires forall i :: i in repeating ==> i <= timersCreated
      modifies this`timers, this`timerIdSet, this`timerfd, this`timersCreated, this`repeating
      ensures id == timersCreated == old(timersCreated) + 1 + elsewhere
      ensures State() == Act(old(State()), Add(when, interval, elsewhere))
      ensures timers == old(timers) + {Timer(id, when, interval)} && timerIdSet == old(timerIdSet) + {id}
      ensures repeating == old(repeating)[id := interval > 0]
      ensures timerfd == if forall u :: u in old(timers) ==> when < u.when then Some(when) else old(timerfd)
    {
      timersCreated := timersCreated + 1 + elsewhere;
      id := timersCreated;
      repeating := repeating[id := interval > 0];
      AddTimerInLoop(Timer(id, when, interval));
    }

    method InvalidateTimer(id: nat)
      requires Valid()
      modifies this`timerIdSet
      ensures Valid() && State() == Act(old(State()), Cancel(id)) && timerIdSet == old(timerIdSet) - {id}
    {
      ActKeeps(State(), Cancel(id), {});
      timerIdSet := timerIdSet - {id};
    }

    /** Takes the timers that are due out of the queue, earliest first. */
    method GetExpired(now: int) returns (expired: seq<Timer>)
      requires WellFormed(State(), {})
      modifies this`timers
      ensures Sorted(expired) && Distinct(expired) && timers + Items(expired) == old(timers)
      ensures Items(expired) == set t | t in old(timers) && t.when < now
      ensures forall t :: t in expired ==> t !in timers
    {
      expired := [];
      while timers != {}
        invariant timers + Items(expired) == old(timers) && timers !! Items(expired)
        invariant Sorted(expired) && Distinct(expired)
        invariant forall t, u :: t in expired && u in timers ==> t.when <= u.when
        invariant forall t :: t in expired ==> t.when < now
        decreases timers
      {
        var top := Top();
        if top.when < now {
          ItemsAppend(expired, top);
          expired := expired + [top];
          timers := timers - {top};
        } else {
          break;
        }
      }
    }

    /** One thing that a callback does while `pool` is out of the queue. */
    method Perform(action: Action, ghost pool: set<Timer>)
      requires WellFormed(State(), pool) && Known(pool)
      modifies this`timers, this`timerIdSet, this`timerfd, this`timersCreated, this`repeating
      ensures State() == Act(old(State()), action)
      ensures Known(pool) && Extends(old(repeating), repeating)
    {
      match action {
        case Add(when, interval, elsewhere) =>
          var id := CreateTimer(when, interval, elsewhere);
          assert id !in old(repeating) && Timer(id, when, interval) in timers;
        case Cancel(id) =>
          timerIdSet := timerIdSet - {id};
      }
    }

    /** Runs a callback. */
    method RunCallback(actions: seq<Action>, ghost pool: set<Timer>)
      requires WellFormed(State(), pool) && Known(pool)
      modifies this`timers, this`timerIdSet, this`timerfd, this`timersCreated, this`repeating
      ensures State() == ActAll(old(State()), actions)
      ensures Known(pool) && Extends(old(repeating), repeating)
    {
      ghost var b := State();
      for k := 0 to |actions|
        invariant State() == ActAll(b, actions[..k])
        invariant Known(pool) && Extends(old(repeating), repeating)
      {
        ActAllKeeps(b, actions[..k], pool);
        assert actions[..k + 1][..k] == actions[..k];
        Perform(actions[k], pool);
      }
      assert actions[..|actions|] == actions;
    }

    /** timerfd has expired: runs what is due, in time order, and re-arms. `callbacks(id)` is
        what the callback of `id` does when it is run. */
    method HandleRead(now: int, callbacks: Callbacks) returns (batch: seq<Timer>)
      requires Valid()
      modifies this
      ensures Valid()
      ensures Sorted(batch) && Distinct(batch) && Items(batch) == set t | t in old(timers) && t.when < now
      ensures var b := old(State()).(timers := old(timers) - Items(batch));
              && WellFormed(b, Items(batch))
              && runs == old(runs) + Called(b, batch, callbacks)
              && State() == Settle(CallAll(b, batch, callbacks), batch, now)
    {
      batch := GetExpired(now);
      ghost var b, pool := State(), Items(batch);
      assert b == old(State()).(timers := old(timers) - pool);
      RunBatch(batch, callbacks);
      CallAllKeeps(b, batch, callbacks, pool);
      CallAllQueuesOnlyNew(b, batch, callbacks, pool);
      Reset(batch, now);
      BatchKeepsHistory(b, batch, callbacks, now, old(runs), repeating);
    }

    method RunBatch(batch: seq<Timer>, callbacks: Callbacks)
      requires WellFormed(State(), Items(batch)) && Known(Items(batch))
      modifies this
      ensures State() == CallAll(old(State()), batch, callbacks)
      ensures runs == old(runs) + Called(old(State()), batch, callbacks)
      ensures Known(Items(batch)) && Extends(old(repeating), repeating)
    {
      ghost var b := State();
      for k := 0 to |batch|
        invariant State() == CallAll(b, batch[..k], callbacks)
        invariant runs == old(runs) + Called(b, batch[..k], callbacks)
        invariant Known(Items(batch)) && Extends(old(repeating), repeating)
      {
        CallAllKeeps(b, batch[..k], callbacks, Items(batch));
        assert batch[..k + 1][..k] == batch[..k];
        if batch[k].id in timerIdSet {
          runs := runs + [batch[k].id];
          RunCallback(callbacks(batch[k].id), Items(batch));
        }
      }
      assert batch[..|batch|] == batch;
    }

    /** reset(expired, now) */
    method Reset(expired: seq<Timer>, now: int)
      requires Distinct(expired) && WellFormed(State(), Items(expired)) && Known(Items(expired))
      requires forall t :: t in expired ==> t !in timers
      modifies this`timers, this`timerIdSet, this`timerfd
      ensures State() == Settle(old(State()), expired, now)
      ensures WellFormed(State(), {}) && Known({}) && Armed()
    {
      SettleKeeps(State(), expired, now);
      Requeue(expired, now);
      if timers != {} {
        var top := Top();
        timerfd := Some(top.when);
      }
    }

    /** The loop of reset(expired, now) */
    method Requeue(expired: seq<Timer>, now: int)
      requires Distinct(expired) && Known(Items(expired))
      modifies this`timers, this`timerIdSet
      ensures State() == Settle(old(State()), expired, now) && Known({})
    {
      ghost var b := State();
      SettleMeaning(b, expired, now);
      for k := 0 to |expired|
        invariant State() == Settle(b, expired[..k], now)
      {
        assert expired[..k + 1][..k] == expired[..k];
        var t := expired[k];
        if t.id in timerIdSet {
          if t.interval > 0 {
            var _ := Insert(t.(when := now + t.interval));
          } else {
            timerIdSet := timerIdSet - {t.id};
          }
        }
      }
      assert expired[..|expired|] == expired;
      forall t | t in timers && t !in b.timers ensures t.id in repeating && repeating[t.id] == (t.interval > 0) {
        var k :| 0 <= k < |expired| && expired[k].id == t.id && expired[k].interval == t.interval;
        assert expired[k] in Items(expired);
      }
    }
  }

  lemma {:induction false} ActAllQueuesOnlyNew(b: Book, actions: seq<Action>)
    ensures b.created <= ActAll(b, actions).created
    ensures forall t :: t in ActAll(b, actions).timers ==> t in b.timers || t.id > b.created
  {
    if actions != [] { ActAllQueuesOnlyNew(b, actions[..|actions| - 1]); }
  }

  /** Callbacks cannot put a timer of the batch back themselves. */
  lemma {:induction false} CallAllQueuesOnlyNew(b: Book, batch: seq<Timer>, callbacks: Callbacks, pool: set<Timer>)
    ensures b.created <= CallAll(b, batch, callbacks).created
    ensures forall t :: t in CallAll(b, batch, callbacks).timers ==> t in b.timers || t.id > b.created
  {
    if batch != [] {
      var prefix := batch[..|batch| - 1];
      CallAllQueuesOnlyNew(b, prefix, callbacks, pool);
      ActAllQueuesOnlyNew(CallAll(b, prefix, callbacks), callbacks(batch[|batch| - 1].id));
    }
  }

  /** A cancelled or finished timer is never called again and never becomes live again,
      whatever a batch holds and its callbacks do. */
  lemma CancelledIsForever(b: Book, batch: seq<Timer>, callbacks: Callbacks, now: int, id: nat)
    requires Distinct(batch) && WellFormed(b, Items(batch)) && id <= b.created && id !in b.live
    ensures id !in Called(b, batch, callbacks)
    ensures id !in Settle(CallAll(b, batch, callbacks), batch, now).live
  {
    LiveIffNotCancelled(b, batch, callbacks, Items(batch), id);
    SettleMeaning(CallAll(b, batch, callbacks), batch, now);
    CalledAreInBatch(b, batch, callbacks);
    if id in Called(b, batch, callbacks) {
      var k :| 0 <= k < |batch| && batch[k].id == id;
      CalledIff(b, batch, callbacks, k);
      assert false;
    }
  }

  /** One event on the loop thread: a timer is added or cancelled, or the timerfd expires and
      the batch of due timers is handled. */
  datatype Event = Do(action: Action) | Fire(batch: seq<Timer>, now: int, callbacks: Callbacks)

  ghost predicate Due(b: Book, e: Event) {
    e.Fire? ==> Sorted(e.batch) && Distinct(e.batch) && Items(e.batch) == set t | t in b.timers && t.when < e.now
  }

  ghost function Without(b: Book, batch: seq<Timer>): Book {
    b.(timers := b.timers - Items(batch))
  }

  ghost function Handle(b: Book, e: Event): Book {
    match e
    case Do(action) => Act(b, action)
    case Fire(batch, now, callbacks) => Settle(CallAll(Without(b, batch), batch, callbacks), batch, now)
  }

  ghost function HandleAll(b: Book, events: seq<Event>): Book {
    if events == [] then b else Handle(HandleAll(b, events[..|events| - 1]), events[|events| - 1])
  }

  ghost predicate AllDue(b: Book, events: seq<Event>) {
    events != [] ==>
      var prefix := events[..|events| - 1];
      AllDue(b, prefix) && Due(HandleAll(b, prefix), events[|events| - 1])
  }

  /** The ids called over a run, batch by batch. */
  ghost function AllCalled(b: Book, events: seq<Event>): seq<nat> {
    if events == [] then []
    else
      var prefix, e := events[..|events| - 1], events[|events| - 1];
      var before := HandleAll(b, prefix);
      AllCalled(b, prefix) + if e.Fire? then Called(Without(before, e.batch), e.batch, e.callbacks) else []
  }

  lemma HandleKeeps(b: Book, e: Event)
    requires WellFormed(b, {}) && Due(b, e)
    ensures WellFormed(Handle(b, e), {}) && b.created <= Handle(b, e).created
    ensures e.Fire? ==> WellFormed(Without(b, e.batch), Items(e.batch))
  {
    match e {
      case Do(action) => ActKeeps(b, action, {});
      case Fire(batch, now, callbacks) =>
        var b' := Without(b, batch);
        assert b'.timers + Items(batch) == b.timers + {};
        CallAllKeeps(b', batch, callbacks, Items(batch));
        CallAllQueuesOnlyNew(b', batch, callbacks, Items(batch));
        forall t | t in batch ensures t !in CallAll(b', batch, callbacks).timers { assert t in Items(batch); }
        SettleKeeps(CallAll(b', batch, callbacks), batch, now);
        SettleMeaning(CallAll(b', batch, callbacks), batch, now);
    }
  }

  /** Over every run: once a timer is cancelled or finished it is never live and never called
      again, and the queue stays well formed. */
  lemma {:induction false} DeadOverRuns(b: Book, events: seq<Event>, id: nat)
    requires WellFormed(b, {}) && AllDue(b, events) && id <= b.created && id !in b.live
    ensures var b' := HandleAll(b, events);
            && WellFormed(b', {}) && b.created <= b'.created
            && id !in b'.live && id !in AllCalled(b, events)
  {
    if events != [] {
      var prefix, e := events[..|events| - 1], events[|events| - 1];
      DeadOverRuns(b, prefix, id);
      var before := HandleAll(b, prefix);
      HandleKeeps(before, e);
      match e {
        case Do(action) => ActKeeps(before, action, {});
        case Fire(batch, now, callbacks) => CancelledIsForever(Without(before, batch), batch, callbacks, now, id);
      }
    }
  }

  /** A batch runs no finished one-shot, and finishes the ones that it runs. */
  lemma BatchKeepsHistory(b: Book, batch: seq<Timer>, callbacks: Callbacks, now: int, runs: seq<nat>, repeating: map<nat, bool>)
    requires Distinct(batch) && WellFormed(b, Items(batch))
    requires forall t :: t in batch ==> t.id in repeating && repeating[t.id] == (t.interval > 0)
    requires forall id :: id in runs ==> id in repeating && id <= b.created && (!repeating[id] ==> id !in b.live)
    requires forall i, j :: 0 <= i < j < |runs| && runs[i] == runs[j] ==> repeating[runs[i]]
    ensures var runs' := runs + Called(b, batch, callbacks);
            var live := Settle(CallAll(b, batch, callbacks), batch, now).live;
            && (forall id :: id in runs' ==> id in repeating && (!repeating[id] ==> id !in live))
            && (forall i, j :: 0 <= i < j < |runs'| && runs'[i] == runs'[j] ==> repeating[runs'[i]])
  {
    var called, b' := Called(b, batch, callbacks), CallAll(b, batch, callbacks);
    SettleMeaning(b', batch, now);
    CalledOnce(b, batch, callbacks);
    CalledAreInBatch(b, batch, callbacks);
    forall id | id in called ensures id in repeating && id in b.live && (!repeating[id] ==> FinishedOneShot(batch, id)) {
      var k :| 0 <= k < |batch| && batch[k].id == id;
      assert batch[k] in Items(batch);
      CalledIff(b, batch, callbacks, k);
    }
    forall id | id in runs && !repeating[id] ensures id !in b'.live {
      LiveIffNotCancelled(b, batch, callbacks, Items(batch), id);
    }
    var runs' := runs + called;
    forall i, j | 0 <= i < j < |runs'| && runs'[i] == runs'[j] ensures repeating[runs'[i]] {
      if i < |runs| <= j {
        assert runs'[j] == called[j - |runs|] && runs'[j] in called && runs'[i] in runs;
      } else if |runs| <= i {
        assert false;
      }
    }
  }

  method Earliest(timers: set<Timer>) returns (top: Timer)
    requires timers != {}
    ensures top in timers && forall t :: t in timers ==> top.when <= t.when
  {
    top :| top in timers;
    var rest := timers - {top};
    while rest != {}
      invariant top in timers && rest <= timers
      invariant forall t :: t in timers - rest ==> top.when <= t.when
      decreases rest
    {
      var t :| t in rest;
      rest := rest - {t};
      if t.when < top.when {
        top := t;
      }
    }
  }

  lemma ItemsAppend(batch: seq<Timer>, t: Timer)
    ensures Items(batch + [t]) == Items(batch) + {t}
  {}
}
