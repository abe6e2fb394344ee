/**
  The per-identity rate limiter: a bucket of `perMin` tokens, refilled
  continuously. Tokens are reals; times are whole milliseconds.
 */
module TokenBucket {
  import opened Prelude

  datatype Bucket = Bucket(tokens: real, at: int)
  datatype Verdict = Verdict(allowed: bool, retryAfterS: int)

  /** One `take` of a run. */
  datatype Take = Take(cost: real, now: int)

  function Rate(perMin: real): real { perMin / 60000.0 }

  /** The tokens that `ms` milliseconds bring. */
  function Gain(ms: int, perMin: real): real { ms as real * Rate(perMin) }

  function Ceil(x: real): int { -((-x).Floor) }

  /** The tokens in hand at `now`: a bucket never used yet is full. */
  function Refill(b: Option<Bucket>, perMin: real, now: int): real {
    match b
    case None => perMin
    case Some(row) =>
      var tokens := row.tokens + Gain(now - row.at, perMin);
      if tokens < perMin then tokens else perMin
  }

  function TakeFrom(b: Option<Bucket>, perMin: real, t: Take): (Bucket, Verdict)
    requires perMin > 0.0
  {
    var tokens := Refill(b, perMin, t.now);
    if tokens >= t.cost then (Bucket(tokens - t.cost, t.now), Verdict(true, 0))
    else (Bucket(tokens, t.now), Verdict(false, Ceil((t.cost - tokens) / Rate(perMin) / 1000.0)))
  }

  function BucketAt(b: Option<Bucket>, perMin: real, takes: seq<Take>, i: nat): Option<Bucket>
    requires perMin > 0.0 && i <= |takes|
  {
    if i == 0 then b else Some(TakeFrom(BucketAt(b, perMin, takes, i - 1), perMin, takes[i - 1]).0)
  }

  function VerdictAt(b: Option<Bucket>, perMin: real, takes: seq<Take>, i: nat): Verdict
    requires perMin > 0.0 && i < |takes|
  {
    TakeFrom(BucketAt(b, perMin, takes, i), perMin, takes[i]).1
  }

  /** The cost granted by the takes from `i` up to but not including `j`. */
  function Granted(b: Option<Bucket>, perMin: real, takes: seq<Take>, i: nat, j: nat): real
    requires perMin > 0.0 && i <= j <= |takes|
  {
    if i == j then 0.0
    else Granted(b, perMin, takes, i, j - 1) + (if VerdictAt(b, perMin, takes, j - 1).allowed then takes[j - 1].cost else 0.0)
  }

  /** Time does not run backwards, and nobody asks for a negative cost. */
  ghost predicate Run(b: Option<Bucket>, perMin: real, takes: seq<Take>) {
    && perMin > 0.0
    && (forall i :: 0 <= i < |takes| ==> takes[i].cost >= 0.0)
    && (forall i, j :: 0 <= i < j < |takes| ==> takes[i].now <= takes[j].now)
    && (b.Some? ==> 0.0 <= b.value.tokens <= perMin && forall i :: 0 <= i < |takes| ==> b.value.at <= takes[i].now)
  }

  lemma GainMonotone(x: int, y: int, perMin: real)
    requires x <= y && perMin > 0.0
    ensures Gain(x, perMin) <= Gain(y, perMin)
    ensures Gain(0, perMin) == 0.0
  {}

  lemma GainAdds(x: int, y: int, perMin: real)
    ensures Gain(x, perMin) + Gain(y, perMin) == Gain(x + y, perMin)
  {}

  /** The tokens stay within [0, perMin], and the clock in the row is the last take's. */
  lemma {:induction false} TokensInRange(b: Option<Bucket>, perMin: real, takes: seq<Take>, i: nat)
    requires Run(b, perMin, takes) && 0 < i <= |takes|
    ensures BucketAt(b, perMin, takes, i).value.at == takes[i - 1].now
    ensures 0.0 <= BucketAt(b, perMin, takes, i).value.tokens <= perMin
    ensures 0.0 <= Refill(BucketAt(b, perMin, takes, i - 1), perMin, takes[i - 1].now) <= perMin
  {
    hide Gain, Rate;
    if i > 1 { TokensInRange(b, perMin, takes, i - 1); }
    var before := BucketAt(b, perMin, takes, i - 1);
    if before.Some? { GainMonotone(0, takes[i - 1].now - before.value.at, perMin); }
  }

  /** A refill gains at most the rate times the time since the row was written. */
  lemma RefillGain(row: Bucket, perMin: real, now: int)
    ensures Refill(Some(row), perMin, now) <= row.tokens + Gain(now - row.at, perMin)
    ensures Refill(Some(row), perMin, now) <= perMin
  {}

  lemma {:induction false} GrantedPlusTokens(b: Option<Bucket>, perMin: real, takes: seq<Take>, i: nat, j: nat)
    requires Run(b, perMin, takes) && i < j <= |takes|
    ensures Granted(b, perMin, takes, i, j) + BucketAt(b, perMin, takes, j).value.tokens
         <= perMin + Gain(takes[j - 1].now - takes[i].now, perMin)
  {
    hide Gain, Rate, Ceil;
    var before, t := BucketAt(b, perMin, takes, j - 1), takes[j - 1];
    var refill := Refill(before, perMin, t.now);
    assert Granted(b, perMin, takes, i, j) + BucketAt(b, perMin, takes, j).value.tokens
        == Granted(b, perMin, takes, i, j - 1) + refill;
    hide Refill, TakeFrom;
    if j == i + 1 {
      TokensInRange(b, perMin, takes, j);
      GainMonotone(0, 0, perMin);
      assert t.now - takes[i].now == 0;
      assert Granted(b, perMin, takes, i, i) == 0.0;
    } else {
      GrantedPlusTokens(b, perMin, takes, i, j - 1);
      TokensInRange(b, perMin, takes, j - 1);
      RefillGain(before.value, perMin, t.now);
      GainAdds(takes[j - 2].now - takes[i].now, t.now - takes[j - 2].now, perMin);
    }
  }

  /** Over any window of any run, at most one bucketful plus what the window refills is granted. */
  lemma WindowBound(b: Option<Bucket>, perMin: real, takes: seq<Take>, i: nat, j: nat, t1: int, t2: int)
    requires Run(b, perMin, takes) && i <= j <= |takes| && t1 <= t2
    requires forall k :: i <= k < j ==> t1 <= takes[k].now <= t2
    ensures Granted(b, perMin, takes, i, j) <= perMin + Gain(t2 - t1, perMin)
  {
    hide Gain, Rate;
    GainMonotone(0, t2 - t1, perMin);
    if i < j {
      GrantedPlusTokens(b, perMin, takes, i, j);
      TokensInRange(b, perMin, takes, j);
      GainMonotone(takes[j - 1].now - takes[i].now, t2 - t1, perMin);
    }
  }

  /** Storing the refill of a refused take and refilling again later is refilling once. */
  lemma RefillTwice(b: Option<Bucket>, perMin: real, now: int, later: int)
    requires perMin > 0.0 && now <= later
    ensures Refill(Some(Bucket(Refill(b, perMin, now), now)), perMin, later) == Refill(b, perMin, later)
  {
    hide Gain, Rate;
    GainMonotone(0, later - now, perMin);
    if b.Some? { GainAdds(now - b.value.at, later - now, perMin); }
  }

  /** A refused take is invisible: without it, every later take gets the same verdict. */
  lemma {:induction false} RefusedTakeIsInvisible(b: Option<Bucket>, perMin: real, takes: seq<Take>, i: nat, k: nat)
    requires Run(b, perMin, takes) && i < k < |takes|
    requires !VerdictAt(b, perMin, takes, i).allowed
    ensures VerdictAt(b, perMin, takes[..i] + takes[i + 1..], k - 1) == VerdictAt(b, perMin, takes, k)
    ensures BucketAt(b, perMin, takes[..i] + takes[i + 1..], k) == BucketAt(b, perMin, takes, k + 1)
  {
    hide Gain, Rate;
    var without := takes[..i] + takes[i + 1..];
    assert without[k - 1] == takes[k];
    if k > i + 1 {
      hide TakeFrom;
      RefusedTakeIsInvisible(b, perMin, takes, i, k - 1);
    } else {
      SamePrefix(b, perMin, takes, without, i);
      hide BucketAt;
      RefusedThenTake(BucketAt(b, perMin, takes, i), perMin, takes[i], takes[k]);
      NextBucket(b, perMin, takes, i);
      NextBucket(b, perMin, takes, k);
      NextBucket(b, perMin, without, i);
    }
  }

  lemma NextBucket(b: Option<Bucket>, perMin: real, takes: seq<Take>, i: nat)
    requires perMin > 0.0 && i < |takes|
    ensures BucketAt(b, perMin, takes, i + 1) == Some(TakeFrom(BucketAt(b, perMin, takes, i), perMin, takes[i]).0)
  {
    hide TakeFrom;
  }

  /** The take behind a refused one fares as it would have without it. */
  lemma RefusedThenTake(b: Option<Bucket>, perMin: real, refused: Take, next: Take)
    requires perMin > 0.0 && refused.now <= next.now && !TakeFrom(b, perMin, refused).1.allowed
    ensures TakeFrom(Some(TakeFrom(b, perMin, refused).0), perMin, next) == TakeFrom(b, perMin, next)
  {
    hide Gain, Rate, Ceil;
    RefillTwice(b, perMin, refused.now, next.now);
    hide Refill;
  }

  lemma {:induction false} SamePrefix(b: Option<Bucket>, perMin: real, xs: seq<Take>, ys: seq<Take>, i: nat)
    requires perMin > 0.0 && i <= |xs| && i <= |ys| && xs[..i] == ys[..i]
    ensures BucketAt(b, perMin, xs, i) == BucketAt(b, perMin, ys, i)
  {
    if i > 0 {
      assert xs[..i - 1] == xs[..i][..i - 1] == ys[..i - 1];
      assert xs[i - 1] == xs[..i][i - 1] == ys[i - 1];
      SamePrefix(b, perMin, xs, ys, i - 1);
    }
  }

  /** Through refused takes only, the tokens in hand are those of the first bucket, refilled. */
  lemma {:induction false} RefusedTakesOnlyRefill(b: Option<Bucket>, perMin: real, takes: seq<Take>, i: nat, j: nat, now: int)
    requires Run(b, perMin, takes) && i <= j <= |takes|
    requires forall k :: i <= k < j ==> !VerdictAt(b, perMin, takes, k).allowed && takes[k].now <= now
    ensures Refill(BucketAt(b, perMin, takes, j), perMin, now) == Refill(BucketAt(b, perMin, takes, i), perMin, now)
  {
    hide Gain, Rate;
    if i < j {
      RefusedTakesOnlyRefill(b, perMin, takes, i, j - 1, now);
      assert !VerdictAt(b, perMin, takes, j - 1).allowed;
      RefillTwice(BucketAt(b, perMin, takes, j - 1), perMin, takes[j - 1].now, now);
    }
  }

  lemma Quotient(need: real, rate: real)
    requires rate > 0.0 && need > 0.0
    ensures (need / rate / 1000.0) * (1000.0 * rate) == need
    ensures need / rate / 1000.0 > 0.0
  {}

  /** Whole seconds refill `need` tokens exactly from `need / rate / 1000`, rounded up, onwards. */
  lemma WaitRefills(need: real, perMin: real, seconds: int)
    requires perMin > 0.0 && need > 0.0
    ensures var r := Ceil(need / Rate(perMin) / 1000.0);
      r >= 1 && (seconds >= r <==> Gain(1000 * seconds, perMin) >= need)
  {
    var q := need / Rate(perMin) / 1000.0;
    var perSecond := 1000.0 * Rate(perMin);
    Quotient(need, Rate(perMin));
    assert Gain(1000 * seconds, perMin) == seconds as real * perSecond;
    if seconds as real >= q {
      Multiply(q, seconds as real, perSecond);
    } else {
      MultiplyStrict(seconds as real, q, perSecond);
    }
  }

  lemma Multiply(x: real, y: real, z: real)
    requires x <= y && z > 0.0
    ensures x * z <= y * z
  {}

  lemma MultiplyStrict(x: real, y: real, z: real)
    requires x < y && z > 0.0
    ensures x * z < y * z
  {}

  /**
    `retry_after_s` is exact. A take refused at `i` and asked again at `j`, with
    nothing granted in between: after `retry_after_s` seconds it is allowed if
    and only if its cost fits the bucket at all, and one second less is too soon.
   */
  lemma RetryAfterIsExact(b: Option<Bucket>, perMin: real, takes: seq<Take>, i: nat, j: nat)
    requires Run(b, perMin, takes) && i < j < |takes|
    requires forall k :: i <= k < j ==> !VerdictAt(b, perMin, takes, k).allowed
    requires takes[j].cost == takes[i].cost
    ensures var r := VerdictAt(b, perMin, takes, i).retryAfterS;
      && r >= 1
      && (takes[j].now >= takes[i].now + 1000 * r ==>
            (VerdictAt(b, perMin, takes, j).allowed <==> takes[i].cost <= perMin))
      && (takes[j].now <= takes[i].now + 1000 * (r - 1) ==> !VerdictAt(b, perMin, takes, j).allowed)
  {
    hide Gain, Rate, Ceil;
    var before := BucketAt(b, perMin, takes, i);
    var tokens := Refill(before, perMin, takes[i].now);
    var r := VerdictAt(b, perMin, takes, i).retryAfterS;
    var waited := takes[j].now - takes[i].now;
    assert !VerdictAt(b, perMin, takes, i).allowed;
    RefusedTakesOnlyRefill(b, perMin, takes, i, j, takes[j].now);
    RefillTwice(before, perMin, takes[i].now, takes[j].now);
    WaitRefills(takes[i].cost - tokens, perMin, r);
    WaitRefills(takes[i].cost - tokens, perMin, r - 1);
    if waited >= 1000 * r {
      GainMonotone(1000 * r, waited, perMin);
    }
    if waited <= 1000 * (r - 1) {
      GainMonotone(waited, 1000 * (r - 1), perMin);
    }
  }

  /** A minute brings exactly one bucketful. */
  lemma MinuteFills(perMin: real, ms: int)
    requires perMin > 0.0 && ms >= 60000
    ensures Gain(60000, perMin) == perMin && Gain(ms, perMin) >= perMin
  {
    assert Gain(60000, perMin) == perMin;
    GainMonotone(60000, ms, perMin);
  }

  /** A new identity, or one silent for a minute, has a full bucket: any cost that fits is granted, and no other. */
  lemma QuietMinuteRefills(b: Option<Bucket>, perMin: real, takes: seq<Take>, i: nat)
    requires Run(b, perMin, takes) && i < |takes|
    requires if i == 0 then b.None? else takes[i].now - takes[i - 1].now >= 60000
    ensures VerdictAt(b, perMin, takes, i).allowed <==> takes[i].cost <= perMin
  {
    hide Gain, Rate;
    if i > 0 {
      TokensInRange(b, perMin, takes, i);
      MinuteFills(perMin, takes[i].now - takes[i - 1].now);
    }
  }

  /** A cost of two from a limit of one: told to wait a minute, refused again after it, and after any time. */
  lemma WaitingCanBeInVain(later: int)
    requires later >= 60000
    ensures var takes := [Take(2.0, 0), Take(2.0, later)];
      && VerdictAt(None, 1.0, takes, 0) == Verdict(false, 60)
      && !VerdictAt(None, 1.0, takes, 1).allowed
  {
    var takes := [Take(2.0, 0), Take(2.0, later)];
    assert Run(None, 1.0, takes);
    assert VerdictAt(None, 1.0, takes, 0) == Verdict(false, Ceil(1.0 / Rate(1.0) / 1000.0));
    assert Rate(1.0) == 1.0 / 60000.0;
    assert 1.0 / Rate(1.0) == 60000.0;
    QuietMinuteRefills(None, 1.0, takes, 1);
  }

  // ------------------------------------------------------------- exactly what is granted

  /** Granting `x` more at `now` keeps every window that starts at one of the first `j` takes within its bound. */
  ghost predicate WindowsAllow(b: Option<Bucket>, perMin: real, takes: seq<Take>, j: nat, now: int, x: real)
    requires perMin > 0.0 && j <= |takes|
  {
    forall k :: 0 <= k < j ==> WindowAllows(b, perMin, takes, k, j, now, x)
  }

  predicate WindowAllows(b: Option<Bucket>, perMin: real, takes: seq<Take>, k: nat, j: nat, now: int, x: real)
    requires perMin > 0.0 && k < j <= |takes|
  {
    Granted(b, perMin, takes, k, j) + x <= perMin + Gain(now - takes[k].now, perMin)
  }

  /** And what the first row held, with all it gained since, covers all that was granted and `x`. */
  predicate StartAllows(b: Option<Bucket>, perMin: real, takes: seq<Take>, j: nat, now: int, x: real)
    requires perMin > 0.0 && j <= |takes|
  {
    b.Some? ==> Granted(b, perMin, takes, 0, j) + x <= b.value.tokens + Gain(now - b.value.at, perMin)
  }

  /** What one take takes out of the bucket. */
  function Spent(b: Option<Bucket>, perMin: real, takes: seq<Take>, i: nat): real
    requires perMin > 0.0 && i < |takes|
  {
    if VerdictAt(b, perMin, takes, i).allowed then takes[i].cost else 0.0
  }

  lemma AfterTake(b: Option<Bucket>, perMin: real, takes: seq<Take>, j: nat, now: int, x: real)
    requires perMin > 0.0 && 0 < j <= |takes|
    ensures var t := takes[j - 1];
      x <= Refill(BucketAt(b, perMin, takes, j), perMin, now) <==>
        x <= perMin
        && x + Spent(b, perMin, takes, j - 1) - Gain(now - t.now, perMin) <= Refill(BucketAt(b, perMin, takes, j - 1), perMin, t.now)
  {
    hide Gain, Rate, Ceil;
  }

  /** A window's room before a take, seen after it and the time since. */
  lemma WindowShifts(b: Option<Bucket>, perMin: real, takes: seq<Take>, k: nat, j: nat, now: int, x: real)
    requires perMin > 0.0 && k < j <= |takes|
    ensures var t := takes[j - 1];
      var x' := x + Spent(b, perMin, takes, j - 1) - Gain(now - t.now, perMin);
      (if k < j - 1 then WindowAllows(b, perMin, takes, k, j - 1, t.now, x') else x' <= perMin)
        <==> WindowAllows(b, perMin, takes, k, j, now, x)
  {
    hide Gain, VerdictAt;
    GainAdds(takes[j - 1].now - takes[k].now, now - takes[j - 1].now, perMin);
    assert Granted(b, perMin, takes, j - 1, j - 1) == 0.0;
  }

  lemma StartShifts(b: Option<Bucket>, perMin: real, takes: seq<Take>, j: nat, now: int, x: real)
    requires perMin > 0.0 && 0 < j <= |takes|
    ensures var t := takes[j - 1];
      var x' := x + Spent(b, perMin, takes, j - 1) - Gain(now - t.now, perMin);
      StartAllows(b, perMin, takes, j, now, x) <==> StartAllows(b, perMin, takes, j - 1, t.now, x')
  {
    hide Gain, VerdictAt;
    if b.Some? { GainAdds(takes[j - 1].now - b.value.at, now - takes[j - 1].now, perMin); }
  }

  /** The level before a take is the largest cost that every window and the start allow. */
  lemma {:induction false} LevelIs(b: Option<Bucket>, perMin: real, takes: seq<Take>, j: nat, now: int, x: real)
    requires perMin > 0.0 && j <= |takes|
    ensures x <= Refill(BucketAt(b, perMin, takes, j), perMin, now) <==>
      x <= perMin && WindowsAllow(b, perMin, takes, j, now, x) && StartAllows(b, perMin, takes, j, now, x)
  {
    if j == 0 {
      hide Gain, Rate;
    } else {
      hide Gain, Rate, Refill, BucketAt, VerdictAt, WindowAllows, StartAllows;
      var t := takes[j - 1];
      var x' := x + Spent(b, perMin, takes, j - 1) - Gain(now - t.now, perMin);
      AfterTake(b, perMin, takes, j, now, x);
      LevelIs(b, perMin, takes, j - 1, t.now, x');
      StartShifts(b, perMin, takes, j, now, x);
      forall k | 0 <= k < j
        ensures (if k < j - 1 then WindowAllows(b, perMin, takes, k, j - 1, t.now, x') else x' <= perMin)
          <==> WindowAllows(b, perMin, takes, k, j, now, x)
      {
        WindowShifts(b, perMin, takes, k, j, now, x);
      }
      hide Spent;
      WindowsMeet(b, perMin, takes, j - 1, j, t.now, x', now, x);
    }
  }

  lemma WindowsMeet(b: Option<Bucket>, perMin: real, takes: seq<Take>, h: nat, j: nat, before: int, x': real, now: int, x: real)
    requires perMin > 0.0 && j == h + 1 <= |takes|
    requires forall k :: 0 <= k < h ==>
      (WindowAllows(b, perMin, takes, k, j, now, x) <==> WindowAllows(b, perMin, takes, k, h, before, x'))
    requires WindowAllows(b, perMin, takes, h, j, now, x) <==> x' <= perMin
    ensures WindowsAllow(b, perMin, takes, j, now, x) <==> x' <= perMin && WindowsAllow(b, perMin, takes, h, before, x')
  {
    hide WindowAllows;
    if WindowsAllow(b, perMin, takes, j, now, x) {
      assert WindowAllows(b, perMin, takes, h, j, now, x);
      forall k | 0 <= k < h ensures WindowAllows(b, perMin, takes, k, h, before, x') {
        assert WindowAllows(b, perMin, takes, k, j, now, x);
      }
    }
    if x' <= perMin && WindowsAllow(b, perMin, takes, h, before, x') {
      forall k | 0 <= k < j ensures WindowAllows(b, perMin, takes, k, j, now, x) {
        if k < h { assert WindowAllows(b, perMin, takes, k, h, before, x'); }
      }
    }
  }

  /**
    The limiter is exact: over every run, a take is allowed if and only if its
    cost fits the bucket and granting it keeps what is granted in every window
    within one bucketful and the window's refill, and, when the bucket was not
    fresh, the whole within what it held and gained. So the tokens left by a
    grant are those it had, less the cost.
   */
  lemma AllowedIffWindowsAllow(b: Option<Bucket>, perMin: real, takes: seq<Take>, j: nat)
    requires perMin > 0.0 && j < |takes|
    ensures var t := takes[j];
      VerdictAt(b, perMin, takes, j).allowed <==>
        t.cost <= perMin && WindowsAllow(b, perMin, takes, j, t.now, t.cost) && StartAllows(b, perMin, takes, j, t.now, t.cost)
    ensures VerdictAt(b, perMin, takes, j).allowed ==> VerdictAt(b, perMin, takes, j).retryAfterS == 0
  {
    hide Gain, Rate, WindowsAllow, StartAllows, Ceil, Refill, BucketAt;
    LevelIs(b, perMin, takes, j, takes[j].now, takes[j].cost);
  }

  /** Two tokens can be taken at once from a fresh bucket of two, and no third. */
  lemma AFreshBucketGrantsItsSize()
    ensures var takes := [Take(1.0, 0), Take(1.0, 0), Take(1.0, 0)];
      && VerdictAt(None, 2.0, takes, 0).allowed && VerdictAt(None, 2.0, takes, 1).allowed
      && !VerdictAt(None, 2.0, takes, 2).allowed
  {
    var takes := [Take(1.0, 0), Take(1.0, 0), Take(1.0, 0)];
    GainMonotone(0, 0, 2.0);
    hide Gain, Rate, Ceil;
    assert BucketAt(None, 2.0, takes, 1) == Some(Bucket(1.0, 0));
    assert BucketAt(None, 2.0, takes, 2) == Some(Bucket(0.0, 0));
  }
}
