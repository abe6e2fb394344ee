/** The sweep alarm: armed whenever there are rows, always ahead of the clock, silent when the store is empty. */
module Wakes {
  import opened Prelude
  import opened Tables

  datatype Clocked = Clocked(rows: Rows, alarm: Option<int>)

  function Expiries(t: Rows): set<int> {
    (set m | m in t.messages :: m.expiresAt) + (set o | o in t.claims :: t.claims[o].until)
  }

  predicate IsEarliest(s: set<int>, m: int) {
    m in s && forall x :: x in s ==> m <= x
  }

  function Earliest(s: set<int>): (m: int)
    requires s != {}
    ensures IsEarliest(s, m)
  {
    HasEarliest(s);
    var m :| m in s && IsEarliest(s, m);
    m
  }

  lemma {:induction false} HasEarliest(s: set<int>)
    requires s != {}
    ensures exists m :: IsEarliest(s, m)
  {
    var y := Pick(s);
    if s == {y} {
      assert IsEarliest(s, y);
    } else {
      HasEarliest(s - {y});
      var z :| IsEarliest(s - {y}, z);
      assert forall x :: x in s ==> x == y || x in s - {y};
      assert IsEarliest(s, if y < z then y else z);
    }
  }

  /** `setAlarm` only when there is an expiry and no earlier alarm is pending. */
  function Schedule(t: Rows, alarm: Option<int>): Option<int> {
    var expiries := Expiries(t);
    if expiries == {} then alarm
    else
      var next := Earliest(expiries);
      if alarm.None? || next < alarm.value then Some(next) else alarm
  }

  /** The tables after a namespace's ops, in order. */
  function ApplyAll(t: Rows, calls: seq<Call>, n: nat): Rows
    requires n <= |calls|
  {
    if n == 0 then t else Apply(ApplyAll(t, calls, n - 1), calls[n - 1]).0
  }

  function ApplyMany(c: Clocked, calls: seq<Call>): Clocked {
    var t := ApplyAll(c.rows, calls, |calls|);
    Clocked(t, Schedule(t, c.alarm))
  }

  /** The alarm handler. A pending alarm is cleared as it starts. */
  function WakeUp(c: Clocked, now: int): Clocked {
    var t := Sweep(c.rows, now);
    Clocked(t, Schedule(t, None))
  }

  ghost predicate Armed(c: Clocked) {
    forall e :: e in Expiries(c.rows) ==> c.alarm.Some? && c.alarm.value <= e
  }

  /**
    Whatever was pending, after scheduling no row outlives the alarm, and the
    alarm is the one that was pending or some row's expiry. So it is the earlier
    of the two, and none where there was none and no row.
   */
  lemma ScheduleArms(t: Rows, alarm: Option<int>)
    ensures Armed(Clocked(t, Schedule(t, alarm)))
    ensures alarm.Some? ==> Schedule(t, alarm).Some? && Schedule(t, alarm).value <= alarm.value
    ensures Schedule(t, alarm) == alarm || (Schedule(t, alarm).Some? && Schedule(t, alarm).value in Expiries(t))
  {}

  /** An entry of the namespace object: a batch of ops, or the alarm going off. */
  datatype Entry = Batch(calls: seq<Call>) | Alarm(now: int)

  function AfterEntry(c: Clocked, e: Entry): Clocked {
    match e
    case Batch(calls) => ApplyMany(c, calls)
    case Alarm(now) => WakeUp(c, now)
  }

  function EntryAt(c: Clocked, entries: seq<Entry>, i: nat): Clocked
    requires i <= |entries|
  {
    if i == 0 then c else AfterEntry(EntryAt(c, entries, i - 1), entries[i - 1])
  }

  /** At every point of every life of a namespace, an alarm is pending no later than the earliest expiry. */
  lemma {:induction false} AlwaysArmed(entries: seq<Entry>, i: nat)
    requires i <= |entries|
    ensures Armed(EntryAt(Clocked(EMPTY, None), entries, i))
  {
    if i > 0 {
      var before := EntryAt(Clocked(EMPTY, None), entries, i - 1);
      match entries[i - 1]
      case Batch(calls) => ScheduleArms(ApplyAll(before.rows, calls, |calls|), before.alarm);
      case Alarm(now) => ScheduleArms(Sweep(before.rows, now), None);
    }
  }

  /** The steps of the tables that the first `i` entries take. */
  function StepsOf(entries: seq<Entry>, i: nat): seq<Step>
    requires i <= |entries|
  {
    if i == 0 then [] else StepsOf(entries, i - 1) + EntrySteps(entries[i - 1])
  }

  function EntrySteps(e: Entry): (steps: seq<Step>)
    ensures e.Batch? ==> |steps| == |e.calls|
  {
    match e
    case Batch(calls) => seq(|calls|, k requires 0 <= k < |calls| => Do(calls[k]))
    case Alarm(now) => [Wake(now)]
  }

  lemma {:induction false} SamePrefix(t: Rows, xs: seq<Step>, ys: seq<Step>, n: nat)
    requires n <= |xs|
    ensures At(t, xs + ys, n) == At(t, xs, n)
  {
    hide Next;
    if n > 0 {
      SamePrefix(t, xs, ys, n - 1);
      assert (xs + ys)[n - 1] == xs[n - 1];
    }
  }

  /** A batch behind the steps so far is its calls, one step each. */
  lemma {:induction false} BatchIsSteps(t: Rows, xs: seq<Step>, calls: seq<Call>, n: nat)
    requires n <= |calls|
    ensures At(t, xs + EntrySteps(Batch(calls)), |xs| + n) == ApplyAll(At(t, xs, |xs|), calls, n)
  {
    hide Apply, Sweep;
    var all := xs + EntrySteps(Batch(calls));
    if n == 0 {
      SamePrefix(t, xs, EntrySteps(Batch(calls)), |xs|);
    } else {
      BatchIsSteps(t, xs, calls, n - 1);
      assert all[|xs| + n - 1] == Do(calls[n - 1]);
    }
  }

  lemma AlarmIsAStep(t: Rows, xs: seq<Step>, now: int)
    ensures At(t, xs + EntrySteps(Alarm(now)), |xs| + 1) == Sweep(At(t, xs, |xs|), now)
  {
    hide Sweep;
    SamePrefix(t, xs, [Wake(now)], |xs|);
    assert (xs + [Wake(now)])[|xs|] == Wake(now);
  }

  /** The life of a namespace object is a run of its tables: batches are their ops, and alarms are sweeps. */
  lemma {:induction false} EntriesAreARun(c: Clocked, entries: seq<Entry>, i: nat)
    requires i <= |entries|
    ensures EntryAt(c, entries, i).rows == At(c.rows, StepsOf(entries, i), |StepsOf(entries, i)|)
  {
    hide Apply, Sweep, Schedule;
    if i > 0 {
      EntriesAreARun(c, entries, i - 1);
      hide At;
      var xs, e := StepsOf(entries, i - 1), entries[i - 1];
      match e
      case Batch(calls) => BatchIsSteps(c.rows, xs, calls, |calls|);
      case Alarm(now) =>
        AlarmIsAStep(c.rows, xs, now);
    }
  }

  /** What a sweep leaves is still to expire, so the handler re-arms strictly in the future, at a real expiry. */
  lemma WakeRearmsAhead(c: Clocked, now: int)
    ensures var c' := WakeUp(c, now);
      && (c'.alarm.Some? <==> RowCount(c'.rows) > 0)
      && (c'.alarm.Some? ==> c'.alarm.value > now && c'.alarm.value in Expiries(c'.rows))
  {
    var c' := WakeUp(c, now);
    OnlyUnexpired(c.rows.messages, now);
    if RowCount(c'.rows) > 0 {
      if c'.rows.messages != [] {
        assert c'.rows.messages[0].expiresAt in Expiries(c'.rows);
      } else {
        assert |c'.rows.claims.Keys| > 0;
        var o :| o in c'.rows.claims.Keys;
        assert c'.rows.claims[o].until in Expiries(c'.rows);
      }
    }
  }

  lemma {:induction false} OnlyUnexpired(rows: seq<Message>, now: int)
    ensures forall m :: m in Unexpired(rows, now) ==> m.expiresAt > now
  {
    if rows != [] { OnlyUnexpired(rows[..|rows| - 1], now); }
  }

  function RowCount(t: Rows): nat { |t.messages| + |t.claims| }

  lemma SweepNeverAdds(t: Rows, now: int)
    ensures RowCount(Sweep(t, now)) <= RowCount(t)
    ensures |Sweep(t, now).messages| <= |t.messages| && |Sweep(t, now).claims| <= |t.claims|
  {
    VisibleLength(t.messages, NegInfinity, now);
    assert Live(t.claims, now).Keys <= t.claims.Keys;
    SubsetSize(Live(t.claims, now).Keys, t.claims.Keys);
  }

  /** A wake at or after some row's expiry removes at least that row. */
  lemma DueWakeRemoves(t: Rows, now: int, e: int)
    requires e in Expiries(t) && e <= now
    ensures RowCount(Sweep(t, now)) < RowCount(t)
  {
    SweepNeverAdds(t, now);
    if m :| m in t.messages && m.expiresAt == e {
      VisibleDrops(t.messages, NegInfinity, now, m);
    } else {
      var o :| o in t.claims && t.claims[o].until == e;
      var left := Live(t.claims, now);
      assert left.Keys <= t.claims.Keys - {o};
      SubsetSize(left.Keys, t.claims.Keys - {o});
    }
  }

  /** The wakes at `times`, with no op in between. */
  function WakeAt(c: Clocked, times: seq<int>, i: nat): Clocked
    requires i <= |times|
  {
    if i == 0 then c else WakeUp(WakeAt(c, times, i - 1), times[i - 1])
  }

  /** Each wake happens because an alarm was pending, and not before its time. */
  ghost predicate Due(c: Clocked, times: seq<int>) {
    forall i :: 0 <= i < |times| ==> WakeAt(c, times, i).alarm.Some? && WakeAt(c, times, i).alarm.value <= times[i]
  }

  lemma {:induction false} WakesRemoveRows(c: Clocked, times: seq<int>, i: nat)
    requires Due(c, times) && 0 < i <= |times|
    ensures RowCount(WakeAt(c, times, i).rows) + i <= RowCount(c.rows) + 1
  {
    var before := WakeAt(c, times, i - 1);
    SweepNeverAdds(before.rows, times[i - 1]);
    if i > 1 {
      WakesRemoveRows(c, times, i - 1);
      WakeRearmsAhead(WakeAt(c, times, i - 2), times[i - 2]);
      DueWakeRemoves(before.rows, times[i - 1], before.alarm.value);
    }
  }

  /**
    Left alone, a namespace goes quiet: at most one wake per row and one more,
    and once no alarm is pending the store is empty.
   */
  lemma WakesTerminate(c: Clocked, times: seq<int>)
    requires Armed(c) && Due(c, times)
    ensures |times| <= RowCount(c.rows) + 1
    ensures WakeAt(c, times, |times|).alarm.None? ==> RowCount(WakeAt(c, times, |times|).rows) == 0
  {
    if times == [] {
      if c.rows.messages != [] { assert c.rows.messages[0].expiresAt in Expiries(c.rows); }
      if o :| o in c.rows.claims { assert c.rows.claims[o].until in Expiries(c.rows); }
    } else {
      WakesRemoveRows(c, times, |times|);
      WakeRearmsAhead(WakeAt(c, times, |times| - 1), times[|times| - 1]);
    }
  }
}
