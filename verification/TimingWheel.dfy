/** cooper/util/TimingWheel: a hierarchy of bucket queues. The class refines the calendar:
    its buckets always stand for exactly the references and deadlines that were asked for. */
module TimingWheels {
  import opened Powers
  import opened Deadlines
  import opened Calendars
  import opened Options

  type Wheels = seq<seq<set<Entry>>>

  ghost predicate Shaped(b: nat, ws: Wheels) {
    forall i :: 0 <= i < |ws| ==> |ws[i]| == b && WheelFits(b, i, ws[i])
  }

  ghost predicate WheelFits(b: nat, i: nat, wheel: seq<set<Entry>>) {
    forall p, e :: 0 <= p < |wheel| && e in wheel[p] ==> Fits(b, i, e)
  }

  /** The references that the buckets stand for, `ref(i, p, e)` being the one that `e` stands
      for in bucket `p` of wheel `i`. */
  ghost function RefsBy(ws: Wheels, ref: (nat, nat, Entry) -> Ref): set<Ref> {
    set i: nat, p: nat, e | i < |ws| && p < |ws[i]| && e in ws[i][p] :: ref(i, p, e)
  }

  ghost function RefAt(b: nat, t: nat, k: nat): (nat, nat, Entry) -> Ref
    requires b >= 2
  {
    (i: nat, p: nat, e) => Ref(Root(e), PopTick(b, t, k, i, p) + Offset(b, e))
  }

  /** The references at counter `t` when the wheels below `k` have been rotated for it. */
  ghost function Refs(b: nat, ws: Wheels, t: nat, k: nat): set<Ref>
    requires b >= 2
  {
    RefsBy(ws, RefAt(b, t, k))
  }

  /** The references held by a bucket that is being destroyed at tick `t`. */
  ghost function BucketRefs(b: nat, bucket: set<Entry>, t: nat): set<Ref> {
    set e | e in bucket :: LeavingRef(b, t, e)
  }

  function LeavingRef(b: nat, t: nat, e: Entry): Ref {
    Ref(Root(e), t + Offset(b, e))
  }

  function Store(ws: Wheels, i: nat, p: nat, e: Entry): Wheels
    requires i < |ws| && p < |ws[i]|
  {
    ws[i := ws[i][p := ws[i][p] + {e}]]
  }

  function Rotate(ws: Wheels, i: nat): Wheels
    requires i < |ws| && |ws[i]| > 0
  {
    ws[i := ws[i][1..] + [{}]]
  }

  lemma StoreRefs(ws: Wheels, ref: (nat, nat, Entry) -> Ref, i: nat, p: nat, e: Entry)
    requires i < |ws| && p < |ws[i]|
    ensures RefsBy(Store(ws, i, p, e), ref) == RefsBy(ws, ref) + {ref(i, p, e)}
  {
    var ws' := Store(ws, i, p, e);
    assert e in ws'[i][p];
    forall r | r in RefsBy(ws, ref) ensures r in RefsBy(ws', ref) {
      var i', p', e' :| 0 <= i' < |ws| && 0 <= p' < |ws[i']| && e' in ws[i'][p'] && r == ref(i', p', e');
      assert e' in ws'[i'][p'];
    }
    forall r | r in RefsBy(ws', ref) ensures r in RefsBy(ws, ref) || r == ref(i, p, e) {
      var i', p', e' :| 0 <= i' < |ws'| && 0 <= p' < |ws'[i']| && e' in ws'[i'][p'] && r == ref(i', p', e');
      assert e' in ws[i'][p'] || (i' == i && p' == p && e' == e);
    }
  }

  lemma StoreShaped(b: nat, ws: Wheels, i: nat, p: nat, e: Entry)
    requires Shaped(b, ws) && i < |ws| && p < b && Fits(b, i, e)
    ensures Shaped(b, Store(ws, i, p, e))
  {}

  /** Counting the next tick before any wheel has turned changes no deadline. */
  lemma NextTickSamePop(b: nat, t: nat, k: nat, i: nat, p: nat)
    requires b >= 2 && i < k
    ensures PopTick(b, t, k, i, p) == PopTick(b, t + 1, 0, i, p)
  {
    var f := Pow(b, i);
    if t % f + 1 == f {
      DivUnique(t + 1, f, t / f + 1, 0);
    } else {
      DivUnique(t + 1, f, t / f, t % f + 1);
    }
  }

  lemma NextTickRefs(b: nat, ws: Wheels, t: nat)
    requires b >= 2
    ensures Refs(b, ws, t, |ws|) == Refs(b, ws, t + 1, 0)
  {
    var ref, ref' := RefAt(b, t, |ws|), RefAt(b, t + 1, 0);
    forall i: nat, p: nat, e | i < |ws| && p < |ws[i]| && e in ws[i][p] ensures ref(i, p, e) == ref'(i, p, e) {
      NextTickSamePop(b, t, |ws|, i, p);
    }
    SameRefs(ws, ref, ref');
  }

  lemma SameRefs(ws: Wheels, ref: (nat, nat, Entry) -> Ref, ref': (nat, nat, Entry) -> Ref)
    requires forall i: nat, p: nat, e :: i < |ws| && p < |ws[i]| && e in ws[i][p] ==> ref(i, p, e) == ref'(i, p, e)
    ensures RefsBy(ws, ref) == RefsBy(ws, ref')
  {}

  /** A wheel that does not turn on this tick. */
  lemma SkipRefs(b: nat, ws: Wheels, t: nat, k: nat)
    requires b >= 2 && t % Pow(b, k) != 0
    ensures Refs(b, ws, t, k) == Refs(b, ws, t, k + 1)
  {
    var ref, ref' := RefAt(b, t, k), RefAt(b, t, k + 1);
    forall i: nat, p: nat, e | i < |ws| && p < |ws[i]| && e in ws[i][p] ensures ref(i, p, e) == ref'(i, p, e) {
      assert PopTick(b, t, k, i, p) == PopTick(b, t, k + 1, i, p);
    }
    SameRefs(ws, ref, ref');
  }

  lemma RotatePop(b: nat, t: nat, k: nat, i: nat, p: nat)
    requires b >= 2 && t % Pow(b, k) == 0
    ensures PopTick(b, t, k, k, 0) == t
    ensures PopTick(b, t, k, k, p + 1) == PopTick(b, t, k + 1, k, p)
    ensures i != k ==> PopTick(b, t, k, i, p) == PopTick(b, t, k + 1, i, p)
  {}

  /** A wheel that turns: its first bucket leaves, the others move up by one step. */
  lemma RotateRefs(b: nat, ws: Wheels, t: nat, k: nat)
    requires b >= 2 && k < |ws| && |ws[k]| > 0 && t % Pow(b, k) == 0
    ensures Refs(b, ws, t, k) == Refs(b, Rotate(ws, k), t, k + 1) + BucketRefs(b, ws[k][0], t)
  {
    var ref, ref' := RefAt(b, t, k), RefAt(b, t, k + 1);
    forall e ensures ref(k, 0, e) == LeavingRef(b, t, e) {
      RotatePop(b, t, k, k, 0);
    }
    forall p: nat, e | p > 0 ensures ref(k, p, e) == ref'(k, p - 1, e) {
      RotatePop(b, t, k, k, p - 1);
    }
    forall i: nat, p: nat, e | i != k ensures ref(i, p, e) == ref'(i, p, e) {
      RotatePop(b, t, k, i, p);
    }
    RotateRefsBy(ws, k, ref, ref', e => LeavingRef(b, t, e));
    assert BucketRefs(b, ws[k][0], t) == set e | e in ws[k][0] :: (e => LeavingRef(b, t, e))(e);
  }

  lemma RotateRefsBy(ws: Wheels, k: nat, ref: (nat, nat, Entry) -> Ref, ref': (nat, nat, Entry) -> Ref,
                     leaving: Entry -> Ref)
    requires k < |ws| && |ws[k]| > 0
    requires forall e :: ref(k, 0, e) == leaving(e)
    requires forall p: nat, e :: p > 0 ==> ref(k, p, e) == ref'(k, p - 1, e)
    requires forall i: nat, p: nat, e :: i != k ==> ref(i, p, e) == ref'(i, p, e)
    ensures RefsBy(ws, ref) == RefsBy(Rotate(ws, k), ref') + set e | e in ws[k][0] :: leaving(e)
  {
    var ws' := Rotate(ws, k);
    forall r | r in RefsBy(ws, ref) ensures r in RefsBy(ws', ref') + set e | e in ws[k][0] :: leaving(e) {
      var i, p, e :| 0 <= i < |ws| && 0 <= p < |ws[i]| && e in ws[i][p] && r == ref(i, p, e);
      if i != k { assert e in ws'[i][p]; } else if p > 0 { assert e in ws'[k][p - 1]; }
    }
    forall r | r in RefsBy(ws', ref') ensures r in RefsBy(ws, ref) {
      var i, p, e :| 0 <= i < |ws'| && 0 <= p < |ws'[i]| && e in ws'[i][p] && r == ref'(i, p, e);
      var p' := if i == k then p + 1 else p;
      assert e in ws[i][p'] && ref(i, p', e) == ref'(i, p, e);
    }
  }

  lemma RotateShaped(b: nat, ws: Wheels, k: nat)
    requires b >= 1 && Shaped(b, ws) && k < |ws|
    ensures Shaped(b, Rotate(ws, k)) && forall e :: e in ws[k][0] ==> Fits(b, k, e)
  {}

  /** A wrapper destroyed while wheel `i` turns hands its payload to the wheel below with
      the deadline unchanged. */
  lemma CascadeKeepsDeadline(b: nat, t: nat, i: nat, e: Entry)
    requires b >= 2 && e.Callback? && Fits(b, i, e) && t % Pow(b, i) == 0
    ensures PopTick(b, t, i + 1, e.level, e.slot) + Offset(b, e.payload) == t + Offset(b, e)
  {
    var p := Pow(b, e.level);
    MultipleOfLower(t, p, b);
    assert (t / p + 1 + e.slot) * p == t / p * p + (e.slot + 1) * p;
  }

  lemma CascadeStep(b: nat, ws: Wheels, t: nat, i: nat, e: Entry)
    requires b >= 2 && Shaped(b, ws) && 0 < i < |ws| && t % Pow(b, i) == 0
    requires e.Callback? && Fits(b, i, e)
    ensures e.slot < b && e.level < |ws|
    ensures var ws' := Store(ws, e.level, e.slot, e.payload);
            Shaped(b, ws') && Refs(b, ws', t, i + 1) == Refs(b, ws, t, i + 1) + {LeavingRef(b, t, e)}
  {
    StoreShaped(b, ws, e.level, e.slot, e.payload);
    StoreRefs(ws, RefAt(b, t, i + 1), e.level, e.slot, e.payload);
    CascadeKeepsDeadline(b, t, i, e);
  }

  /** Once wheel 0 has turned, every stored reference is due after the counter. */
  lemma RefsInTheFuture(b: nat, ws: Wheels, t: nat, k: nat)
    requires b >= 2 && k >= 1 && Shaped(b, ws)
    ensures forall r :: r in Refs(b, ws, t, k) ==> r.due > t
  {
    forall r | r in Refs(b, ws, t, k) ensures r.due > t {
      var i, p, e :| 0 <= i < |ws| && 0 <= p < |ws[i]| && e in ws[i][p] && r == RefAt(b, t, k)(i, p, e);
      PopTickNotPast(b, t, k, i, p);
      if i >= 1 { OffsetPositive(b, i, e); }
    }
  }

  /** The reference that a placed entry stands for. */
  lemma PlacedRef(b: nat, w: nat, t: nat, k: nat, delay: nat, id: nat)
    requires b >= 2 && w >= 1
    ensures var pl := Place(b, w, 0, delay + 1, t, User(id));
            RefAt(b, t, k)(pl.wheel, pl.bucket, pl.entry) == Ref(id, Deadline(b, w, k, t, delay))
  {
    assert Root(Place(b, w, 0, delay + 1, t, User(id)).entry) == id by {
      PlaceExact(b, w, 0, delay + 1, t, User(id));
    }
    SamePlace(b, w, 0, delay + 1, t, User(id), User(0));
  }

  lemma PlacedRefs(b: nat, ws: Wheels, w: nat, t: nat, k: nat, delay: nat, id: nat)
    requires b >= 2 && w >= 1 && |ws| == w && Shaped(b, ws)
    ensures var pl := Place(b, w, 0, delay + 1, t, User(id));
            && pl.wheel < w && pl.bucket < b
            && Shaped(b, Store(ws, pl.wheel, pl.bucket, pl.entry))
            && Refs(b, Store(ws, pl.wheel, pl.bucket, pl.entry), t, k)
               == Refs(b, ws, t, k) + {Ref(id, Deadline(b, w, k, t, delay))}
  {
    var pl := Place(b, w, 0, delay + 1, t, User(id));
    assert pl.wheel < w && pl.bucket < b && Fits(b, pl.wheel, pl.entry) by {
      PlaceExact(b, w, 0, delay + 1, t, User(id));
    }
    StoreShaped(b, ws, pl.wheel, pl.bucket, pl.entry);
    StoreRefs(ws, RefAt(b, t, k), pl.wheel, pl.bucket, pl.entry);
    PlacedRef(b, w, t, k, delay, id);
  }

  /** What one turn of the insertion loop leaves: the delay and the counter for the next wheel,
      and the slot of the wrapper's payload. */
  method NextWheel(b: nat, w: nat, i: nat, d: nat, t: nat, e: Entry) returns (d': nat, t': nat, slot: nat)
    requires b >= 2 && d > b && i < w
    ensures d' >= 1
    ensures i < w - 1 ==> Place(b, w, i, d, t, e) == Place(b, w, i + 1, d', t', Callback(i, slot, e))
  {
    NextDelayPositive(b, d, t);
    d', t', slot := (d + t % b - 1) / b, t / b, (d + t % b - 1) % b;
  }

  /** The insertion loop: wraps the entry once for every wheel the delay does not fit in. */
  method ChooseBucket(b: nat, w: nat, ticks: nat, delay: nat, id: nat) returns (pl: Placement)
    requires b >= 2 && w >= 1
    ensures pl == Place(b, w, 0, delay + 1, ticks, User(id))
  {
    ghost var placement := Place(b, w, 0, delay + 1, ticks, User(id));
    var entry := User(id);
    var d: nat, t: nat := delay + 1, ticks;
    pl := Placement(0, 0, entry);
    for i := 0 to w
      invariant d >= 1
      invariant i < w ==> placement == Place(b, w, i, d, t, entry)
      invariant i == w ==> pl == placement
    {
      if d <= b {
        return Placement(i, d - 1, entry);
      }
      var d', t', slot := NextWheel(b, w, i, d, t, entry);
      if i < w - 1 {
        entry := Callback(i, slot, entry);
      } else {
        // delay is too long for the wheels: the last bucket of the top wheel takes it
        pl := Placement(i, b - 1, entry);
      }
      d, t := d', t';
    }
  }

  /** The fewest wheels whose capacity b^w reaches maxTickNum. */
  method WheelsNeeded(maxTickNum: nat, b: nat) returns (w: nat)
    requires b > 1
    ensures w >= 1 && Pow(b, w) >= maxTickNum
    ensures w > 1 ==> Pow(b, w - 1) < maxTickNum
  {
    var ticksNum := b;
    w := 1;
    assert Pow(b, 0) == 1;
    while maxTickNum > ticksNum
      invariant w >= 1 && ticksNum == Pow(b, w)
      invariant w > 1 ==> Pow(b, w - 1) < maxTickNum
      decreases maxTickNum - ticksNum
    {
      MulMono(2, b, ticksNum);
      assert Pow(b, w + 1) == b * ticksNum;
      w, ticksNum := w + 1, ticksNum * b;
    }
  }

  lemma BucketRefsAdd(b: nat, bucket: set<Entry>, e: Entry, t: nat)
    ensures BucketRefs(b, bucket + {e}, t) == BucketRefs(b, bucket, t) + {LeavingRef(b, t, e)}
  {}

  /** Some bucket stores an entry that leads to `id`. */
  predicate Held(ws: Wheels, id: nat) {
    exists i, p, e :: 0 <= i < |ws| && 0 <= p < |ws[i]| && e in ws[i][p] && Root(e) == id
  }

  lemma HeldIffReferenced(b: nat, ws: Wheels, t: nat, k: nat, id: nat)
    requires b >= 2
    ensures Held(ws, id) <==> Referenced(Refs(b, ws, t, k), id)
  {
    var ref := RefAt(b, t, k);
    if Held(ws, id) {
      var i, p, e :| 0 <= i < |ws| && 0 <= p < |ws[i]| && e in ws[i][p] && Root(e) == id;
      assert ref(i, p, e) in RefsBy(ws, ref);
    }
    if r :| r in RefsBy(ws, ref) && r.id == id {
      var i, p, e :| 0 <= i < |ws| && 0 <= p < |ws[i]| && e in ws[i][p] && r == ref(i, p, e);
      assert Root(e) == id;
    }
  }

  function Roots(entries: set<Entry>): set<nat> {
    set e | e in entries :: Root(e)
  }

  lemma StoreHeld(ws: Wheels, i: nat, p: nat, e: Entry)
    requires i < |ws| && p < |ws[i]|
    ensures forall id :: Held(Store(ws, i, p, e), id) <==> Held(ws, id) || id == Root(e)
  {
    var ws' := Store(ws, i, p, e);
    assert e in ws'[i][p];
    forall id | Held(ws, id) ensures Held(ws', id) {
      var i', p', e' :| 0 <= i' < |ws| && 0 <= p' < |ws[i']| && e' in ws[i'][p'] && Root(e') == id;
      assert e' in ws'[i'][p'];
    }
  }

  lemma FrontBucketHeld(ws: Wheels, i: nat)
    requires i < |ws| && |ws[i]| > 0
    ensures forall id :: Held(ws, id)
              <==> Held(ws[i := ws[i][1..]], id) || id in Roots(ws[i][0])
  {
    var ws' := ws[i := ws[i][1..]];
    forall id ensures Held(ws, id) <==> Held(ws', id) || id in Roots(ws[i][0]) {
      if Held(ws, id) {
        var i', p, e :| 0 <= i' < |ws| && 0 <= p < |ws[i']| && e in ws[i'][p] && Root(e) == id;
        if i' != i { assert e in ws'[i'][p]; } else if p > 0 { assert e in ws'[i][p - 1]; }
      }
      if Held(ws', id) {
        var i', p, e :| 0 <= i' < |ws'| && 0 <= p < |ws'[i']| && e in ws'[i'][p] && Root(e) == id;
        assert e in ws[i'][if i' == i then p + 1 else p];
      }
    }
  }

  /** What an entry's destructor asks the wheel to do (PingPongEntry re-arms itself). */
  datatype Insertion = Insertion(delay: nat, id: nat)

  type Destructors = nat -> seq<Insertion>

  /** Destructors that leave the wheel alone, as that of TcpConnectionImpl::KickoffEntry. */
  function Quiet(): Destructors {
    (id: nat) => []
  }

  /** Destructors insert entries they have just created. */
  ghost predicate Fresh(pending: set<Ref>, destructors: Destructors) {
    forall id, n :: Referenced(pending, id) && 0 <= n < |destructors(id)|
      ==> !Referenced(pending, destructors(id)[n].id)
  }

  /** The references that a list of insertions creates, given when each delay is due. */
  ghost function Created(dues: nat -> nat, todo: seq<Insertion>): set<Ref> {
    set n | 0 <= n < |todo| && todo[n].delay > 0 :: Ref(todo[n].id, dues(todo[n].delay))
  }

  /** Deadlines of insertions made while wheel 0 is being emptied. */
  ghost function DuesDuringTick(b: nat, w: nat, t: nat): nat -> nat
    requires b >= 2 && w >= 1
  {
    delay => Deadline(b, w, 1, t, delay)
  }

  /** The references created by the destructors of `ids`. */
  ghost function Reinserted(dues: nat -> nat, ids: set<nat>, destructors: Destructors): set<Ref> {
    set id, n | id in ids && 0 <= n < |destructors(id)| && destructors(id)[n].delay > 0
      :: Ref(destructors(id)[n].id, dues(destructors(id)[n].delay))
  }

  lemma CreatedStep(dues: nat -> nat, todo: seq<Insertion>, n: nat)
    requires n < |todo|
    ensures Created(dues, todo[..n + 1]) == Created(dues, todo[..n])
            + if todo[n].delay > 0 then {Ref(todo[n].id, dues(todo[n].delay))} else {}
  {
    assert todo[..n + 1] == todo[..n] + [todo[n]];
    forall r | r in Created(dues, todo[..n]) ensures r in Created(dues, todo[..n + 1]) {
      var m :| 0 <= m < n && todo[..n][m].delay > 0 && r == Ref(todo[..n][m].id, dues(todo[..n][m].delay));
      assert todo[..n + 1][m] == todo[..n][m];
    }
    assert todo[..n + 1][n] == todo[n];
    forall r | r in Created(dues, todo[..n + 1])
      ensures r in Created(dues, todo[..n]) || (todo[n].delay > 0 && r == Ref(todo[n].id, dues(todo[n].delay)))
    {
      var m :| 0 <= m < n + 1 && todo[..n + 1][m].delay > 0
               && r == Ref(todo[..n + 1][m].id, dues(todo[..n + 1][m].delay));
      if m < n { assert todo[..n][m] == todo[..n + 1][m]; }
    }
  }

  lemma CreatedAll(dues: nat -> nat, id: nat, destructors: Destructors)
    ensures Created(dues, destructors(id)) == Reinserted(dues, {id}, destructors)
  {}

  /** New entries are not the ones being destroyed, so they keep none of those alive. */
  lemma ReinsertedKeepsNoneAlive(b: nat, t: nat, dues: nat -> nat, pending: set<Ref>, bucket: set<Entry>,
                                 ids: set<nat>, id: nat, destructors: Destructors)
    requires forall e :: e in bucket ==> e.User?
    requires Fresh(pending + BucketRefs(b, bucket, t), destructors)
    requires User(id) in bucket && forall i :: i in ids ==> User(i) in bucket
    ensures Referenced(pending + Reinserted(dues, ids, destructors), id) <==> Referenced(pending, id)
  {
    forall i | User(i) in bucket ensures Referenced(pending + BucketRefs(b, bucket, t), i) {
      assert LeavingRef(b, t, User(i)) in BucketRefs(b, bucket, t);
    }
    if Referenced(pending + Reinserted(dues, ids, destructors), id) {
      var r :| r in pending + Reinserted(dues, ids, destructors) && r.id == id;
      assert r in pending;
    }
    if Referenced(pending, id) {
      var r :| r in pending && r.id == id;
      assert r in pending + Reinserted(dues, ids, destructors);
    }
  }

  lemma ReinsertedAdd(dues: nat -> nat, ids: set<nat>, id: nat, destructors: Destructors)
    ensures Reinserted(dues, ids + {id}, destructors)
            == Reinserted(dues, ids, destructors) + Reinserted(dues, {id}, destructors)
  {}

  /** What leaves wheel 0 at tick `t` is exactly what is due at `t`. */
  lemma DueIsWhatLeaves(b: nat, pending: set<Ref>, kept: set<Ref>, bucket: set<Entry>, t: nat)
    requires forall e :: e in bucket ==> e.User?
    requires pending == kept + BucketRefs(b, bucket, t)
    requires forall r :: r in kept ==> r.due > t
    ensures Remaining(pending, t) == kept
    ensures Expiring(pending, t) == set e | e in bucket && !Referenced(kept, e.id) :: e.id
  {
    forall e | e in bucket ensures Ref(e.id, t) in pending {
      assert LeavingRef(b, t, e) in BucketRefs(b, bucket, t);
    }
    assert Remaining(pending, t) == kept;
    forall id ensures id in Expiring(pending, t) <==> User(id) in bucket && !Referenced(kept, id) {
      if User(id) in bucket && !Referenced(kept, id) {
        assert Ref(User(id).id, t) in pending;
      }
    }
  }

  class TimingWheel {
    const bucketsNumPerWheel: nat
    const wheelsNum: nat
    var wheels: Wheels
    var ticksCounter: nat

    ghost predicate Valid()
      reads this
    {
      bucketsNumPerWheel >= 2 && |wheels| == wheelsNum >= 1 && Shaped(bucketsNumPerWheel, wheels)
    }

    /** The calendar that the wheel stands for between ticks. */
    ghost function Pending(): set<Ref>
      requires Valid()
      reads this
    {
      PendingAt(wheelsNum)
    }

    ghost function PendingAt(phase: nat): set<Ref>
      requires Valid()
      reads this
    {
      Refs(bucketsNumPerWheel, wheels, ticksCounter, phase)
    }

    /** When an insertion made by a destructor during this tick is due. */
    ghost function DuesNow(): nat -> nat
      requires Valid()
      reads this
    {
      DuesDuringTick(bucketsNumPerWheel, wheelsNum, ticksCounter)
    }

    /** The smallest number of wheels whose capacity reaches maxTimeout. */
    constructor (maxTimeout: nat, bucketsNum: nat)
      requires maxTimeout > 1 && bucketsNum > 1
      ensures Valid() && ticksCounter == 0 && Pending() == {}
      ensures bucketsNumPerWheel == bucketsNum
      ensures Pow(bucketsNum, wheelsNum) >= maxTimeout
      ensures wheelsNum > 1 ==> Pow(bucketsNum, wheelsNum - 1) < maxTimeout
    {
      var num := WheelsNeeded(maxTimeout, bucketsNum);
      bucketsNumPerWheel, wheelsNum := bucketsNum, num;
      wheels := seq(num, _ => seq(bucketsNum, _ => {}));
      ticksCounter := 0;
    }

    /** An empty pointer or a zero delay is ignored. */
    method InsertEntry(delay: nat, entry: Option<nat>, ghost phase: nat)
      requires Valid()
      modifies this`wheels
      ensures Valid()
      ensures PendingAt(phase) == old(PendingAt(phase))
              + (if delay == 0 || entry.None? then {}
                 else {Ref(entry.value, Deadline(bucketsNumPerWheel, wheelsNum, phase, ticksCounter, delay))})
    {
      if delay <= 0 { return; }
      if entry.None? { return; }
      InsertEntryInloop(delay, entry.value, phase);
    }

    method InsertEntryInloop(delay: nat, id: nat, ghost phase: nat)
      requires Valid()
      modifies this`wheels
      ensures Valid()
      ensures PendingAt(phase) == old(PendingAt(phase))
              + {Ref(id, Deadline(bucketsNumPerWheel, wheelsNum, phase, ticksCounter, delay))}
    {
      var pl := ChooseBucket(bucketsNumPerWheel, wheelsNum, ticksCounter, delay, id);
      PlacedRefs(bucketsNumPerWheel, wheels, wheelsNum, ticksCounter, phase, delay, id);
      wheels := Store(wheels, pl.wheel, pl.bucket, pl.entry);
    }

    /** The destructor of an entry whose last reference is gone. */
    method RunDestructor(id: nat, destructors: Destructors)
      requires Valid()
      modifies this`wheels
      ensures Valid()
      ensures PendingAt(1) == old(PendingAt(1))
              + Reinserted(DuesNow(), {id}, destructors)
    {
      var todo := destructors(id);
      for n := 0 to |todo|
        invariant Valid()
        invariant PendingAt(1) == old(PendingAt(1)) + Created(DuesNow(), todo[..n])
      {
        CreatedStep(DuesNow(), todo, n);
        InsertEntry(todo[n].delay, Some(todo[n].id), 1);
      }
      assert todo[..|todo|] == todo;
      CreatedAll(DuesNow(), id, destructors);
    }

    /** Whether a stored entry, or one of `others`, still refers to `id`. */
    predicate HasReference(id: nat, others: set<Entry>)
      reads this
    {
      id in Roots(others) || Held(wheels, id)
    }

    /** A bucket of wheel 0 goes out of scope: it drops its references in an unspecified
        order, and an entry is destroyed when no other reference is left. */
    method DropReferences(bucket: set<Entry>, destructors: Destructors) returns (destroyed: set<nat>)
      requires Valid()
      requires forall e :: e in bucket ==> e.User?
      requires Fresh(PendingAt(1) + BucketRefs(bucketsNumPerWheel, bucket, ticksCounter), destructors)
      modifies this`wheels
      ensures Valid()
      ensures destroyed == set e | e in bucket && !Referenced(old(PendingAt(1)), e.id) :: e.id
      ensures PendingAt(1) == old(PendingAt(1))
              + Reinserted(DuesNow(), destroyed, destructors)
    {
      var rest := bucket;
      destroyed := {};
      ghost var b, t, dues, kept := bucketsNumPerWheel, ticksCounter, DuesNow(), PendingAt(1);
      while rest != {}
        invariant Valid() && rest <= bucket && DuesNow() == dues
        invariant forall id :: id in destroyed <==> User(id) in bucket - rest && !Referenced(kept, id)
        invariant PendingAt(1) == kept + Reinserted(dues, destroyed, destructors)
        decreases rest
      {
        var e :| e in rest;
        rest := rest - {e};
        assert HasReference(e.id, rest) <==> Referenced(kept, e.id) by {
          HeldIffReferenced(b, wheels, t, 1, e.id);
          ReinsertedKeepsNoneAlive(b, t, dues, kept, bucket, destroyed, e.id, destructors);
        }
        if !HasReference(e.id, rest) {
          ReinsertedAdd(dues, destroyed, e.id, destructors);
          destroyed := destroyed + {e.id};
          RunDestructor(e.id, destructors);
        }
      }
    }

    /** The destructor of a wrapper taken from wheel `k` as it turns. */
    method DestroyWrapper(e: Entry, ghost k: nat)
      requires Valid() && 0 < k < wheelsNum && ticksCounter % Pow(bucketsNumPerWheel, k) == 0
      requires e.Callback? && Fits(bucketsNumPerWheel, k, e)
      modifies this`wheels
      ensures Valid()
      ensures PendingAt(k + 1) == old(PendingAt(k + 1)) + {LeavingRef(bucketsNumPerWheel, ticksCounter, e)}
    {
      CascadeStep(bucketsNumPerWheel, wheels, ticksCounter, k, e);
      wheels := Store(wheels, e.level, e.slot, e.payload);
    }

    /** A bucket of wheel `k` > 0 goes out of scope: each wrapper's destructor stores its
        payload one wheel lower, in an unspecified order. */
    method Cascade(bucket: set<Entry>, ghost k: nat)
      requires Valid() && 0 < k < wheelsNum && ticksCounter % Pow(bucketsNumPerWheel, k) == 0
      requires forall e :: e in bucket ==> Fits(bucketsNumPerWheel, k, e)
      modifies this`wheels
      ensures Valid()
      ensures PendingAt(k + 1) == old(PendingAt(k + 1)) + BucketRefs(bucketsNumPerWheel, bucket, ticksCounter)
    {
      ghost var b := bucketsNumPerWheel;
      var rest := bucket;
      while rest != {}
        invariant Valid() && rest <= bucket
        invariant PendingAt(k + 1) == old(PendingAt(k + 1)) + BucketRefs(b, bucket - rest, ticksCounter)
        decreases rest
      {
        var e :| e in rest;
        assert e.Callback?;
        BucketRefsAdd(b, bucket - rest, e, ticksCounter);
        DestroyWrapper(e, k);
        assert bucket - (rest - {e}) == (bucket - rest) + {e};
        rest := rest - {e};
      }
      assert bucket - rest == bucket;
    }

    /** Wheel `i` turns by one bucket, the wheels below it having turned on this tick. */
    method TurnWheel(i: nat, destructors: Destructors) returns (destroyed: set<nat>)
      requires Valid() && i < wheelsNum && ticksCounter % Pow(bucketsNumPerWheel, i) == 0
      requires i == 0 ==> Fresh(PendingAt(0), destructors)
      modifies this`wheels
      ensures Valid()
      ensures i > 0 ==> destroyed == {} && PendingAt(i + 1) == old(PendingAt(i))
      ensures i == 0 ==> destroyed == Expiring(old(PendingAt(0)), ticksCounter)
      ensures i == 0 ==> PendingAt(1) == Remaining(old(PendingAt(0)), ticksCounter)
                         + Reinserted(DuesNow(), destroyed, destructors)
    {
      ghost var b, t, pending := bucketsNumPerWheel, ticksCounter, PendingAt(i);
      var tmp := wheels[i][0];
      RotateRefs(b, wheels, t, i);
      RotateShaped(b, wheels, i);
      wheels := Rotate(wheels, i);
      destroyed := {};
      if i == 0 {
        RefsInTheFuture(b, wheels, t, 1);
        DueIsWhatLeaves(b, pending, PendingAt(1), tmp, t);
        destroyed := DropReferences(tmp, destructors);
      } else {
        Cascade(tmp, i);
      }
    }

    /** Wheel `i` turns when the counter is a multiple of `pow`; a wheel that stays keeps every
        deadline. */
    method TurnIfDue(i: nat, pow: nat, destructors: Destructors) returns (destroyed: set<nat>)
      requires Valid() && i < wheelsNum && pow == Pow(bucketsNumPerWheel, i)
      requires i == 0 ==> Fresh(PendingAt(0), destructors)
      modifies this`wheels
      ensures Valid()
      ensures i > 0 ==> destroyed == {} && PendingAt(i + 1) == old(PendingAt(i))
      ensures i == 0 ==> destroyed == Expiring(old(PendingAt(0)), ticksCounter)
      ensures i == 0 ==> PendingAt(1) == Remaining(old(PendingAt(0)), ticksCounter)
                         + Reinserted(DuesNow(), destroyed, destructors)
    {
      destroyed := {};
      if ticksCounter % pow == 0 {
        destroyed := TurnWheel(i, destructors);
      } else {
        SkipRefs(bucketsNumPerWheel, wheels, ticksCounter, i);
      }
    }

    /** One tick of the timer: drops exactly the references that are due, destroys exactly
        the entries that have none left, and changes no other deadline. */
    method Tick(destructors: Destructors) returns (destroyed: set<nat>)
      requires Valid() && Fresh(Pending(), destructors)
      modifies this
      ensures Valid() && ticksCounter == old(ticksCounter) + 1
      ensures destroyed == Expiring(old(Pending()), ticksCounter)
      ensures Pending() == Remaining(old(Pending()), ticksCounter)
              + Reinserted(DuesNow(), destroyed, destructors)
    {
      ghost var b, pending := bucketsNumPerWheel, Pending();
      NextTickRefs(b, wheels, ticksCounter);
      ticksCounter := ticksCounter + 1;
      var t := ticksCounter;
      var pow := 1;
      destroyed := {};
      for i := 0 to wheelsNum
        invariant Valid() && ticksCounter == t && pow == Pow(b, i) && pow > 0
        invariant i == 0 ==> destroyed == {} && PendingAt(0) == pending
        invariant i > 0 ==> destroyed == Expiring(pending, t)
        invariant i > 0 ==> PendingAt(i) == Remaining(pending, t) + Reinserted(DuesNow(), destroyed, destructors)
      {
        var dropped := TurnIfDue(i, pow, destructors);
        destroyed := destroyed + dropped;
        pow := pow * bucketsNumPerWheel;
      }
    }

    /** The destructor clears the wheels from the top down: every stored entry is
        destroyed, none is left behind, and every cascade lands in a wheel that is
        still to be cleared. Entry destructors cannot reach a wheel that is going away. */
    method Destroy() returns (destroyed: set<nat>)
      requires Valid()
      modifies this`wheels
      ensures forall id :: id in destroyed <==> Referenced(old(Pending()), id)
      ensures |wheels| == wheelsNum && forall i :: 0 <= i < wheelsNum ==> wheels[i] == []
    {
      ghost var ids := iset id | Held(wheels, id);
      destroyed := {};
      var i := wheelsNum;
      while i > 0
        invariant 0 <= i <= wheelsNum == |wheels|
        invariant forall j :: i <= j < wheelsNum ==> wheels[j] == []
        invariant forall j :: 0 <= j < i ==>
                    |wheels[j]| == bucketsNumPerWheel && WheelFits(bucketsNumPerWheel, j, wheels[j])
        invariant forall id :: id in ids <==> id in destroyed || Held(wheels, id)
      {
        i := i - 1;
        var dropped := ClearWheel(i);
        destroyed := destroyed + dropped;
      }
      forall id ensures id in destroyed <==> Referenced(old(Pending()), id) {
        HeldIffReferenced(bucketsNumPerWheel, old(wheels), ticksCounter, wheelsNum, id);
      }
    }

    /** Destroys the buckets of wheel `i`, front to back. */
    method ClearWheel(i: nat) returns (dropped: set<nat>)
      requires i < |wheels| == wheelsNum
      requires forall j :: 0 <= j <= i ==>
                 |wheels[j]| == bucketsNumPerWheel && WheelFits(bucketsNumPerWheel, j, wheels[j])
      modifies this`wheels
      ensures |wheels| == wheelsNum && wheels[i] == []
      ensures forall j :: i < j < wheelsNum ==> wheels[j] == old(wheels[j])
      ensures forall j :: 0 <= j < i ==>
                |wheels[j]| == bucketsNumPerWheel && WheelFits(bucketsNumPerWheel, j, wheels[j])
      ensures forall id :: old(Held(wheels, id)) <==> id in dropped || Held(wheels, id)
    {
      dropped := {};
      while wheels[i] != []
        invariant |wheels| == wheelsNum
        invariant forall j :: i < j < wheelsNum ==> wheels[j] == old(wheels[j])
        invariant forall j :: 0 <= j < i ==> |wheels[j]| == bucketsNumPerWheel
        invariant forall j :: 0 <= j <= i ==> WheelFits(bucketsNumPerWheel, j, wheels[j])
        invariant forall id :: old(Held(wheels, id)) <==> id in dropped || Held(wheels, id)
        decreases |wheels[i]|
      {
        var bucket := wheels[i][0];
        ghost var before := wheels;
        wheels := wheels[i := wheels[i][1..]];
        FrontBucketHeld(before, i);
        var ids := ClearBucket(bucket, i);
        dropped := dropped + ids;
      }
    }

    /** Destroys a bucket of wheel `i` with no regard for ticks. */
    method ClearBucket(bucket: set<Entry>, i: nat) returns (dropped: set<nat>)
      requires i < |wheels| == wheelsNum
      requires forall j :: 0 <= j < i ==>
                 |wheels[j]| == bucketsNumPerWheel && WheelFits(bucketsNumPerWheel, j, wheels[j])
      requires forall e :: e in bucket ==> Fits(bucketsNumPerWheel, i, e)
      modifies this`wheels
      ensures |wheels| == wheelsNum
      ensures forall j :: i <= j < wheelsNum ==> wheels[j] == old(wheels[j])
      ensures forall j :: 0 <= j < i ==>
                |wheels[j]| == bucketsNumPerWheel && WheelFits(bucketsNumPerWheel, j, wheels[j])
      ensures forall id :: old(Held(wheels, id)) || id in Roots(bucket)
                           <==> id in dropped || Held(wheels, id)
    {
      dropped := {};
      var rest := bucket;
      while rest != {}
        invariant rest <= bucket && |wheels| == wheelsNum
        invariant forall j :: i <= j < wheelsNum ==> wheels[j] == old(wheels[j])
        invariant forall j :: 0 <= j < i ==>
                    |wheels[j]| == bucketsNumPerWheel && WheelFits(bucketsNumPerWheel, j, wheels[j])
        invariant forall id :: old(Held(wheels, id)) || id in Roots(bucket - rest)
                               <==> id in dropped || Held(wheels, id)
        decreases rest
      {
        var e :| e in rest;
        match e {
          case User(id) =>
            dropped := dropped + {id};
          case Callback(level, slot, payload) =>
            StoreHeld(wheels, level, slot, payload);
            wheels := Store(wheels, level, slot, payload);
        }
        assert bucket - (rest - {e}) == (bucket - rest) + {e};
        rest := rest - {e};
      }
      assert bucket - rest == bucket;
    }
  }
}
