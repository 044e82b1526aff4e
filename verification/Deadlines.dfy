/** Where TimingWheel::insertEntryInloop puts an entry, and the tick at which the
    reference it holds is finally dropped. One tick is one ticksInterval_. */
module Deadlines {
  import opened Powers

  /** What a bucket holds: the caller's shared pointer (an identity), or a wrapper
      whose destructor stores its payload in bucket `slot` of wheel `level`. */
  datatype Entry = User(id: nat) | Callback(level: nat, slot: nat, payload: Entry)

  function Root(e: Entry): nat {
    match e
    case User(id) => id
    case Callback(_, _, payload) => Root(payload)
  }

  /** Ticks that pass between the moment `e` leaves its bucket and the moment the
      innermost reference is dropped. */
  function Offset(b: nat, e: Entry): nat {
    match e
    case User(_) => 0
    case Callback(level, slot, payload) => (slot + 1) * Pow(b, level) + Offset(b, payload)
  }

  /** `e` may be stored in wheel `i`: user entries only in wheel 0, wrappers one wheel
      above the one they cascade into. */
  ghost predicate Fits(b: nat, i: nat, e: Entry) {
    match e
    case User(_) => i == 0
    case Callback(level, slot, payload) => i == level + 1 && slot < b && Fits(b, level, payload)
  }

  datatype Placement = Placement(wheel: nat, bucket: nat, entry: Entry)

  /** The bucket that the insertion loop ends in, from iteration `i` on. */
  function Place(b: nat, w: nat, i: nat, d: nat, t: nat, e: Entry): Placement
    requires b >= 2 && i < w && d >= 1
    decreases w - i
  {
    if d <= b then Placement(i, d - 1, e)
    else if i == w - 1 then Placement(i, b - 1, e)
    else
      NextDelayPositive(b, d, t);
      Place(b, w, i + 1, (d + t % b - 1) / b, t / b, Callback(i, (d + t % b - 1) % b, e))
  }

  lemma NextDelayPositive(b: nat, d: nat, t: nat)
    requires b >= 2 && d > b
    ensures (d + t % b - 1) / b >= 1
  {
    var n := d + t % b - 1;
    assert n == n / b * b + n % b;
  }

  /** The delay that the loop would reach in the top wheel. */
  function TopDelay(b: nat, w: nat, i: nat, d: int, t: nat): int
    requires b >= 2 && i < w
    decreases w - i
  {
    if i == w - 1 then d else TopDelay(b, w, i + 1, (d + t % b - 1) / b, t / b)
  }

  function Max(x: int, y: int): int { if x < y then y else x }

  /** Ticks per step of wheel `i` is b^i; this is the tick at which bucket `p` of wheel
      `i` is emptied, seen at counter `t` when the wheels below `k` have already been
      rotated for that counter value. */
  function PopTick(b: nat, t: nat, k: nat, i: nat, p: nat): nat
    requires b >= 2
  {
    ((if i < k || t % Pow(b, i) != 0 then t / Pow(b, i) + 1 else t / Pow(b, i)) + p) * Pow(b, i)
  }

  /** The tick at which an insertion of `delay` is dropped. Between ticks k == w. */
  function Deadline(b: nat, w: nat, k: nat, t: nat, delay: nat): nat
    requires b >= 2 && w >= 1
  {
    var pl := Place(b, w, 0, delay + 1, t, User(0));
    PopTick(b, t, k, pl.wheel, pl.bucket) + Offset(b, pl.entry)
  }

  /** The cascade is exact at every level: what the chosen bucket and the nested
      wrappers add up to is the deadline asked for, less what clamping takes away. */
  lemma {:induction false} PlaceExact(b: nat, w: nat, i: nat, d: nat, tick: nat, e: Entry)
    requires b >= 2 && i < w && d >= 1 && Fits(b, i, e)
    ensures var t := tick / Pow(b, i);
            var pl := Place(b, w, i, d, t, e);
            && i <= pl.wheel < w && pl.bucket < b
            && Fits(b, pl.wheel, pl.entry) && Root(pl.entry) == Root(e)
            && (tick / Pow(b, pl.wheel) + 1 + pl.bucket) * Pow(b, pl.wheel) + Offset(b, pl.entry)
               == (t + d) * Pow(b, i) + Offset(b, e)
                  - Max(0, TopDelay(b, w, i, d, t) - b) * Pow(b, w - 1)
    decreases w - i
  {
    var t := tick / Pow(b, i);
    if d <= b {
      ShortDelayNotClamped(b, w, i, d, t);
    } else if i == w - 1 {
      Distribute(t + d, d - b, Pow(b, i));
    } else {
      NextDelayPositive(b, d, t);
      var n := d + t % b - 1;
      var slot := n % b;
      var e' := Callback(i, slot, e);
      DivDiv(tick, Pow(b, i), b);
      PlaceExact(b, w, i + 1, n / b, tick, e');
      StepIdentity(b, Pow(b, i), t, d);
    }
  }

  /** Where an entry goes does not depend on what is inside it. */
  lemma {:induction false} SamePlace(b: nat, w: nat, i: nat, d: nat, t: nat, e: Entry, e': Entry)
    requires b >= 2 && i < w && d >= 1 && Offset(b, e) == Offset(b, e')
    ensures var pl, pl' := Place(b, w, i, d, t, e), Place(b, w, i, d, t, e');
            pl.wheel == pl'.wheel && pl.bucket == pl'.bucket && Offset(b, pl.entry) == Offset(b, pl'.entry)
    decreases w - i
  {
    if d > b && i < w - 1 {
      NextDelayPositive(b, d, t);
      var slot := (d + t % b - 1) % b;
      SamePlace(b, w, i + 1, (d + t % b - 1) / b, t / b, Callback(i, slot, e), Callback(i, slot, e'));
    }
  }

  lemma Distribute(x: int, y: int, p: int)
    ensures (x - y) * p == x * p - y * p
  {}

  /** One turn of the loop loses nothing. */
  lemma StepIdentity(b: nat, p: nat, t: nat, d: nat)
    requires b >= 2 && d > b && p > 0
    ensures (t / b + (d + t % b - 1) / b) * (b * p) + ((d + t % b - 1) % b + 1) * p == (t + d) * p
  {
    var n := d + t % b - 1;
    var q := t / b + n / b;
    assert n == n / b * b + n % b;
    assert t == t / b * b + t % b;
    assert t + d == q * b + (n % b + 1) by { assert q * b == t / b * b + n / b * b; }
    assert (q * b + (n % b + 1)) * p == (q * b) * p + (n % b + 1) * p;
    assert (q * b) * p == q * (b * p);
  }

  lemma {:induction false} ShortDelayNotClamped(b: nat, w: nat, i: nat, d: int, t: nat)
    requires b >= 2 && i < w && d <= b
    ensures TopDelay(b, w, i, d, t) <= b
    decreases w - i
  {
    if i < w - 1 {
      var n := d + t % b - 1;
      assert n / b <= b by { DivAtMost(n, b); }
      ShortDelayNotClamped(b, w, i + 1, n / b, t / b);
    }
  }

  lemma DivAtMost(n: int, b: nat)
    requires b >= 2 && n < 2 * b
    ensures n / b <= b
  {
    var q := n / b;
    assert q * b <= n;
  }

  /** What the truncations of the first `i` levels have taken from the delay. */
  function Lag(b: nat, i: nat): int {
    if i == 0 then -1 else Lag(b, i - 1) + Pow(b, i - 1)
  }

  lemma {:induction false} TopDelayClosed(b: nat, w: nat, i: nat, d: int, tick: nat, total: int)
    requires b >= 2 && i < w
    requires d + tick / Pow(b, i) == (total - Lag(b, i)) / Pow(b, i)
    ensures TopDelay(b, w, i, d, tick / Pow(b, i))
            == (total - Lag(b, w - 1)) / Pow(b, w - 1) - tick / Pow(b, w - 1)
    decreases w - i
  {
    if i < w - 1 {
      var t := tick / Pow(b, i);
      DivDiv(tick, Pow(b, i), b);
      ClosedStep(b, Pow(b, i), d, t, total - Lag(b, i));
      TopDelayClosed(b, w, i + 1, (d + t % b - 1) / b, tick, total);
    }
  }

  lemma ClosedStep(b: nat, p: nat, d: int, t: nat, x: int)
    requires b >= 2 && p > 0 && d + t == x / p
    ensures b * p > 0
    ensures (d + t % b - 1) / b + t / b == (x - p) / (b * p)
  {
    MulPositive(b, p);
    assert (x - p) / (b * p) == (x / p - 1) / b by {
      DivDiv(x - p, p, b);
      DivShift(x, p);
    }
    assert (d + t % b - 1) / b + t / b == (d + t - 1) / b by {
      var n, q := d + t % b - 1, t / b;
      assert t == q * b + t % b;
      DivShiftBy(n, q, b);
    }
  }

  lemma DivShift(x: int, p: nat)
    requires p > 0
    ensures (x - p) / p == x / p - 1
  {
    DivUnique(x - p, p, x / p - 1, x % p);
  }

  lemma DivShiftBy(x: int, k: int, b: nat)
    requires b > 0
    ensures (x + k * b) / b == x / b + k
  {
    DivUnique(x + k * b, b, x / b + k, x % b);
  }

  /** A delay is honoured exactly when it is below this bound, which depends only on
      the shape of the wheels and on the tick counter. */
  function Horizon(b: nat, w: nat, t: nat): int
    requires b >= 2 && w >= 1
  {
    Lag(b, w - 1) + (b + 1) * Pow(b, w - 1) - t % Pow(b, w - 1)
  }

  lemma ClampedIffBeyondHorizon(b: nat, w: nat, t: nat, delay: nat)
    requires b >= 2 && w >= 1
    ensures TopDelay(b, w, 0, delay + 1, t) <= b <==> delay < Horizon(b, w, t)
  {
    TopDelayClosed(b, w, 0, delay + 1, t, t + delay);
    QuotientGap(t + delay - Lag(b, w - 1), t, b, Pow(b, w - 1));
  }

  lemma QuotientGap(x: int, t: nat, b: nat, p: nat)
    requires p > 0
    ensures x / p - t / p <= b <==> x - t < (b + 1) * p - t % p
  {
    var gap := x / p - t / p;
    assert x - t == gap * p + x % p - t % p by { Distribute(x / p, t / p, p); }
    if gap <= b { MulMono(gap, b, p); } else { MulMono(b + 1, gap, p); }
    assert (b + 1) * p == b * p + p;
  }

  /** An insertion made between ticks is dropped at counter + delay + 1 if and only if
      the delay is below the horizon; past it the drop is early by the clamped whole
      steps of the top wheel. */
  lemma InsertBetweenTicks(b: nat, w: nat, t: nat, delay: nat)
    requires b >= 2 && w >= 1
    ensures Deadline(b, w, w, t, delay)
            == t + delay + 1 - Max(0, TopDelay(b, w, 0, delay + 1, t) - b) * Pow(b, w - 1)
    ensures Deadline(b, w, w, t, delay) == t + delay + 1 <==> delay < Horizon(b, w, t)
    ensures Deadline(b, w, w, t, delay) <= t + delay + 1
  {
    PlaceExact(b, w, 0, delay + 1, t, User(0));
    ClampedIffBeyondHorizon(b, w, t, delay);
    var excess := Max(0, TopDelay(b, w, 0, delay + 1, t) - b);
    if excess > 0 { MulPositive(excess, Pow(b, w - 1)); }
  }

  /** An insertion made by a destructor that runs while wheel 0 is being emptied (k == 1)
      loses one more turn of the wheel it lands in exactly when that wheel still has
      to turn on this tick. */
  lemma InsertDuringTick(b: nat, w: nat, t: nat, delay: nat)
    requires b >= 2 && w >= 1
    ensures var pl := Place(b, w, 0, delay + 1, t, User(0));
            var early := if pl.wheel >= 1 && t % Pow(b, pl.wheel) == 0 then Pow(b, pl.wheel) else 0;
            Deadline(b, w, 1, t, delay) == Deadline(b, w, w, t, delay) - early
  {
    var pl := Place(b, w, 0, delay + 1, t, User(0));
    PlaceExact(b, w, 0, delay + 1, t, User(0));
    var p := Pow(b, pl.wheel);
    assert (t / p + 1 + pl.bucket) * p == (t / p + pl.bucket) * p + p;
  }

  /** Whether an insertion ends in wheel `i`, by the delay, the shape and the counter alone. */
  predicate Lands(b: nat, w: nat, t: nat, delay: nat, i: nat)
    requires b >= 2 && i < w
  {
    (i == 0 || Horizon(b, i, t) <= delay) && (i == w - 1 || delay < Horizon(b, i + 1, t))
  }

  /** The loop gets past the wheels below `j` exactly when the delay does not fit in wheel j - 1. */
  lemma {:induction false} WheelAtLeast(b: nat, w: nat, i: nat, j: nat, d: nat, t: nat, e: Entry)
    requires b >= 2 && i <= j < w && d >= 1
    ensures Place(b, w, i, d, t, e).wheel >= i
    ensures Place(b, w, i, d, t, e).wheel >= j <==> j == i || TopDelay(b, j, i, d, t) > b
    decreases w - i
  {
    if d <= b {
      if j > i { ShortDelayNotClamped(b, j, i, d, t); }
    } else if i < w - 1 {
      NextDelayPositive(b, d, t);
      var d', e' := (d + t % b - 1) / b, Callback(i, (d + t % b - 1) % b, e);
      WheelAtLeast(b, w, i + 1, if j > i then j else i + 1, d', t / b, e');
    }
  }

  lemma LandsInItsWheel(b: nat, w: nat, t: nat, delay: nat, i: nat)
    requires b >= 2 && i < w
    ensures Place(b, w, 0, delay + 1, t, User(0)).wheel < w
    ensures Place(b, w, 0, delay + 1, t, User(0)).wheel == i <==> Lands(b, w, t, delay, i)
  {
    PlaceExact(b, w, 0, delay + 1, t, User(0));
    WheelAtLeast(b, w, 0, i, delay + 1, t, User(0));
    if i > 0 { ClampedIffBeyondHorizon(b, i, t, delay); }
    if i < w - 1 {
      WheelAtLeast(b, w, 0, i + 1, delay + 1, t, User(0));
      ClampedIffBeyondHorizon(b, i + 1, t, delay);
    }
  }

  /** The delay is for a wheel above wheel 0 that still has to turn at counter `t`. */
  ghost predicate LosesTurn(b: nat, w: nat, t: nat, delay: nat) {
    b >= 2 && exists i :: LosesTurnOf(b, w, t, delay, i)
  }

  predicate LosesTurnOf(b: nat, w: nat, t: nat, delay: nat, i: int)
    requires b >= 2
  {
    1 <= i < w && Lands(b, w, t, delay, i) && t % Pow(b, i) == 0
  }

  /** An insertion made during a tick is due when one made after the tick would be, unless it
      loses a turn of its wheel; so it is exact if and only if it is below the horizon and
      loses none. */
  lemma DuringTickIsExactIff(b: nat, w: nat, t: nat, delay: nat)
    requires b >= 2 && w >= 1
    ensures Deadline(b, w, 1, t, delay) == Deadline(b, w, w, t, delay) <==> !LosesTurn(b, w, t, delay)
    ensures Deadline(b, w, 1, t, delay) == t + delay + 1 <==> delay < Horizon(b, w, t) && !LosesTurn(b, w, t, delay)
    ensures forall i: nat :: LosesTurnOf(b, w, t, delay, i) ==>
              Deadline(b, w, 1, t, delay) == Deadline(b, w, w, t, delay) - Pow(b, i)
  {
    var i := Place(b, w, 0, delay + 1, t, User(0)).wheel;
    InsertDuringTick(b, w, t, delay);
    InsertBetweenTicks(b, w, t, delay);
    assert i < w by { PlaceExact(b, w, 0, delay + 1, t, User(0)); }
    forall j: nat | j < w ensures Lands(b, w, t, delay, j) <==> j == i { LandsInItsWheel(b, w, t, delay, j); }
    if i >= 1 && t % Pow(b, i) == 0 { assert LosesTurnOf(b, w, t, delay, i); }
  }

  /** The wheel that an insertion of `delay` is for at counter 0. At any counter at which
      that wheel turns it is the same one. */
  function Level(b: nat, w: nat, delay: nat): nat
    requires b >= 2 && w >= 1
  {
    Place(b, w, 0, delay + 1, 0, User(0)).wheel
  }

  lemma LandsAtMultiple(b: nat, w: nat, t: nat, delay: nat, i: nat)
    requires b >= 2 && i < w && t % Pow(b, i) == 0
    ensures Lands(b, w, t, delay, i) <==> Level(b, w, delay) == i
  {
    LandsInItsWheel(b, w, 0, delay, i);
    if i > 0 { PowDivides(b, i - 1, i, t); }
    assert Horizon(b, i + 1, t) == Horizon(b, i + 1, 0);
    assert i > 0 ==> Horizon(b, i, t) == Horizon(b, i, 0);
  }

  /** What an insertion during a tick loses: one turn of its wheel, exactly when that wheel is
      not the lowest one and turns on this tick. */
  lemma LossDuringTick(b: nat, w: nat, t: nat, delay: nat)
    requires b >= 2 && w >= 1
    ensures Level(b, w, delay) < w
    ensures var i := Level(b, w, delay);
            Deadline(b, w, 1, t, delay)
            == Deadline(b, w, w, t, delay) - if i >= 1 && t % Pow(b, i) == 0 then Pow(b, i) else 0
  {
    LandsInItsWheel(b, w, 0, delay, 0);
    DuringTickIsExactIff(b, w, t, delay);
    var i := Level(b, w, delay);
    if i >= 1 && t % Pow(b, i) == 0 {
      LandsAtMultiple(b, w, t, delay, i);
      assert LosesTurnOf(b, w, t, delay, i);
    } else if LosesTurn(b, w, t, delay) {
      var j :| LosesTurnOf(b, w, t, delay, j);
      LandsAtMultiple(b, w, t, delay, j);
      assert false;
    }
  }

  /** A longer delay is for the same wheel or a higher one. */
  lemma LevelGrows(b: nat, w: nat, delay: nat, delay': nat)
    requires b >= 2 && w >= 1 && delay <= delay'
    ensures Level(b, w, delay) <= Level(b, w, delay') < w
  {
    LossDuringTick(b, w, 0, delay);
    LossDuringTick(b, w, 0, delay');
    var i, j := Level(b, w, delay), Level(b, w, delay');
    LandsInItsWheel(b, w, 0, delay, i);
    LandsInItsWheel(b, w, 0, delay', j);
    if j < i { HorizonGrows(b, j + 1, i); }
  }

  lemma {:induction false} HorizonGrows(b: nat, i: nat, j: nat)
    requires b >= 2 && 1 <= i <= j
    ensures Horizon(b, i, 0) <= Horizon(b, j, 0)
  {
    if i < j {
      HorizonGrows(b, i, j - 1);
      var p := Pow(b, j - 2);
      assert Pow(b, j - 1) == b * p;
      MulMono(1, b, p);
      MulMono(p, b * p, b + 1);
    }
  }

  /** With one wheel, and with any number of wheels for delays shorter than one turn of
      wheel 0, a destructor's insertion is as exact as any other. */
  lemma ShortInsertDuringTickIsExact(b: nat, w: nat, t: nat, delay: nat)
    requires b >= 2 && w >= 1 && delay < b
    ensures Deadline(b, w, 1, t, delay) == t + delay + 1
  {
    InsertDuringTick(b, w, t, delay);
    InsertBetweenTicks(b, w, t, delay);
    ShortDelayNotClamped(b, w, 0, delay + 1, t);
  }

  /** The loss is real: 2 wheels of 2 buckets, counter 2, delay 2. */
  lemma LongInsertDuringTickCanBeEarly()
    ensures Deadline(2, 2, 2, 2, 2) == 5 && Deadline(2, 2, 1, 2, 2) == 3
  {
    assert Pow(2, 1) == 2 * Pow(2, 0);
  }

  /** The constructor's sizing is enough: with two or more wheels every delay up to the
      wheels' capacity is below the horizon; a single wheel needs delay < b. */
  lemma CapacityIsWithinHorizon(b: nat, w: nat, t: nat, delay: nat)
    requires b >= 2 && w >= 1
    ensures w >= 2 && delay <= Pow(b, w) ==> delay < Horizon(b, w, t)
    ensures w == 1 ==> (delay < Horizon(b, w, t) <==> delay < b)
  {
    var p := Pow(b, w - 1);
    assert Pow(b, w) == b * p;
    assert (b + 1) * p == b * p + p;
    if w >= 2 { LagNonNegative(b, w - 1); }
  }

  lemma {:induction false} LagNonNegative(b: nat, i: nat)
    requires b >= 2 && i >= 1
    ensures Lag(b, i) >= 0
  {
    if i > 1 { LagNonNegative(b, i - 1); }
  }

  /** No reference is dropped at or before the counter it was inserted at. */
  lemma DeadlineIsInTheFuture(b: nat, w: nat, k: nat, t: nat, delay: nat)
    requires b >= 2 && w >= 1 && k >= 1
    ensures Deadline(b, w, k, t, delay) > t
  {
    var pl := Place(b, w, 0, delay + 1, t, User(0));
    assert Fits(b, pl.wheel, pl.entry) by { PlaceExact(b, w, 0, delay + 1, t, User(0)); }
    PopTickNotPast(b, t, k, pl.wheel, pl.bucket);
    if pl.wheel >= 1 { OffsetPositive(b, pl.wheel, pl.entry); }
  }

  /** A bucket is never emptied before the current counter, and only a wheel that still
      has to turn can be emptied at the counter itself. */
  lemma PopTickNotPast(b: nat, t: nat, k: nat, i: nat, p: nat)
    requires b >= 2
    ensures PopTick(b, t, k, i, p) >= t
    ensures PopTick(b, t, k, i, p) == t ==> i >= k
  {
    var f := Pow(b, i);
    var q := if i < k || t % f != 0 then t / f + 1 else t / f;
    assert t == t / f * f + t % f;
    MulMono(q, q + p, f);
    assert (t / f + 1) * f == t / f * f + f;
  }

  lemma OffsetPositive(b: nat, i: nat, e: Entry)
    requires b >= 2 && Fits(b, i, e) && i >= 1
    ensures Offset(b, e) > 0
  {
    MulPositive(e.slot + 1, Pow(b, e.level));
  }
}
