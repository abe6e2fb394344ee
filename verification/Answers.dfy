/**
  What the answers of a namespace say, told from the ops of the run and the
  numbers of the contract rather than from the code that computes them.
 */
module Answers {
  import opened Prelude
  import opened Tables
  import opened Staleness
  import Cursor

  // --------------------------------------------------------------------- joining

  ghost predicate JoinedBefore(steps: seq<Step>, j: nat)
    requires j <= |steps|
  {
    exists k :: 0 <= k < j && steps[k].Do? && steps[k].call.op.Join?
  }

  lemma JoinedAfter(t: Rows, s: Step)
    ensures Next(t, s).joined <==> t.joined || (s.Do? && s.call.op.Join?)
  {}

  lemma {:induction false} JoinedByHistory(steps: seq<Step>, j: nat)
    requires j <= |steps|
    ensures At(EMPTY, steps, j).joined <==> JoinedBefore(steps, j)
  {
    if j > 0 {
      JoinedByHistory(steps, j - 1);
      JoinedAfter(At(EMPTY, steps, j - 1), steps[j - 1]);
      hide Next;
      if JoinedBefore(steps, j) { assert JoinedBefore(steps, j - 1) || (steps[j - 1].Do? && steps[j - 1].call.op.Join?); }
    }
  }

  /** A join says that it created the namespace exactly if it is the first; any other op is refused exactly before it. */
  lemma JoinsAnswer(steps: seq<Step>, j: nat)
    requires j < |steps| && steps[j].Do?
    ensures var a := AnswerAt(EMPTY, steps, j);
      if steps[j].call.op.Join? then a.Joined? && (a.created <==> !JoinedBefore(steps, j))
      else a == NotJoined <==> !JoinedBefore(steps, j)
  {
    JoinedByHistory(steps, j);
    RefusedIff(At(EMPTY, steps, j), steps[j].call);
    JoinAnswer(At(EMPTY, steps, j), steps[j].call);
    hide Apply, At, JoinedBefore;
  }

  lemma JoinAnswer(t: Rows, c: Call)
    ensures c.op.Join? ==> Apply(t, c).1.Joined? && Apply(t, c).1.created == !t.joined
  {}

  // ---------------------------------------------------------------- times to live

  /** `ttl` is what the field asks for in whole seconds, cut to 1 to `max`, or `dflt` if it is no finite number. */
  ghost predicate Asked(field: Json, dflt: int, max: int, ttl: int) {
    if !field.Number? then ttl == dflt
    else if field.n < 1.0 then ttl == 1
    else if field.n >= max as real then ttl == max
    else ttl as real <= field.n < ttl as real + 1.0
  }

  /** A message lives for six hours and at most a day, a claim for ten minutes and at most fifteen. */
  lemma TimesToLive(t: Rows, c: Call)
    ensures var a := Apply(t, c).1;
      && (a.Sent? ==> c.op.Send? && Asked(c.op.ttl, 21600, 86400, a.ttlS) && a.expiresAt == c.now + 1000 * a.ttlS)
      && (a.Granted? ==> c.op.Claim? && Asked(c.op.claimTtl, 600, 900, a.ttlS) && a.until == c.now + 1000 * a.ttlS)
  {}

  // ----------------------------------------------------------------- polls' fields

  /** A poll without a number for a cursor starts at 0; without one for a limit it asks for 100 messages. */
  lemma PollDefaults(t: Rows, c: Call)
    requires c.op.Recv?
    ensures c.op.since in {Absent, Other} || c.op.since.Text? ==>
      Apply(t, c).1 == Apply(t, c.(op := c.op.(since := Number(0.0)))).1
    ensures c.op.limit in {Absent, Other} || c.op.limit.Text? ==>
      Apply(t, c).1 == Apply(t, c.(op := c.op.(limit := Number(100.0)))).1
  {
    hide Visible;
    assert PageLimit(Number(100.0)) == 100;
  }

  /** A row that a poll from `since` at `now` may show. */
  predicate Showable(m: Message, since: Json, now: int) { m.expiresAt > now && Above(m, since) }

  /**
    From any cursor a poll returns only unexpired rows above it, all of them up
    to the last it returns, and all there are if these are no more than it asks
    for. It goes on from the last.
   */
  lemma AnyPoll(t: Rows, c: Call)
    requires c.op.Recv? && t.joined && Sorted(t.messages, t.lastSeq)
    ensures var a, limit := Apply(t, c).1, PageLimit(c.op.limit);
      && a.Received? && |a.msgs| <= limit
      && (forall m :: m in a.msgs ==> m in t.messages && Showable(m, c.op.since, c.now))
      && (|a.msgs| < limit ==> forall m :: m in t.messages && Showable(m, c.op.since, c.now) ==> m in a.msgs)
      && (if a.msgs == [] then a.next == Since(c.op.since)
          else
            var last := a.msgs[|a.msgs| - 1].num;
            && a.next == Number(last as real)
            && forall m :: m in t.messages && Showable(m, c.op.since, c.now) && m.num <= last ==> m in a.msgs)
  {
    hide *;
    var all, limit := Visible(t.messages, Since(c.op.since), c.now), PageLimit(c.op.limit);
    PollIsAPage(t, c);
    ShowableRows(t, c);
    FirstRows(all, limit, t.lastSeq);
    PageShows(t.messages, all, Cursor.First(all, limit), limit, c.op.since, c.now);
  }

  lemma PollIsAPage(t: Rows, c: Call)
    requires c.op.Recv? && t.joined
    ensures var a := Apply(t, c).1;
      && a.Received? && a.msgs == Cursor.First(Visible(t.messages, Since(c.op.since), c.now), PageLimit(c.op.limit))
      && a.next == if a.msgs == [] then Since(c.op.since) else Number(a.msgs[|a.msgs| - 1].num as real)
  {
    hide Visible, PageLimit, Since;
  }

  lemma ShowableRows(t: Rows, c: Call)
    requires c.op.Recv? && Sorted(t.messages, t.lastSeq)
    ensures var all := Visible(t.messages, Since(c.op.since), c.now);
      Sorted(all, t.lastSeq) && forall m :: m in all <==> m in t.messages && Showable(m, c.op.since, c.now)
  {
    VisibleIsExact(t.messages, Since(c.op.since), c.now, t.lastSeq);
    hide Visible;
    forall m ensures m in t.messages ==> (Above(m, c.op.since) <==> After(m.num, Since(c.op.since))) {
      if m in t.messages { assert m.num >= 1; }
    }
    hide Sorted;
  }

  lemma FirstRows(all: seq<Message>, limit: nat, last: nat)
    requires Sorted(all, last)
    ensures var page := Cursor.First(all, limit);
      && |page| <= limit && (|page| < limit ==> page == all)
      && (forall m :: m in page ==> m in all)
      && (page != [] ==> forall m :: m in all && m.num <= page[|page| - 1].num ==> m in page)
  {
    var page := Cursor.First(all, limit);
    if page != [] {
      assert page == all[..|page|];
      Cursor.PrefixOfSorted(all, |page|, last);
    }
    hide Sorted;
  }

  lemma PageShows(rows: seq<Message>, all: seq<Message>, page: seq<Message>, limit: nat, since: Json, now: int)
    requires forall m :: m in all <==> m in rows && Showable(m, since, now)
    requires (forall m :: m in page ==> m in all) && (|page| < limit ==> page == all)
    requires page != [] ==> forall m :: m in all && m.num <= page[|page| - 1].num ==> m in page
    ensures forall m :: m in page ==> m in rows && Showable(m, since, now)
    ensures |page| < limit ==> forall m :: m in rows && Showable(m, since, now) ==> m in page
    ensures page != [] ==> forall m :: m in rows && Showable(m, since, now) && m.num <= page[|page| - 1].num ==> m in page
  {
    hide Showable;
  }

  /** The row's number is above what the field says; nothing is above infinity, and everything is above no number. */
  predicate Above(m: Message, since: Json) {
    match since
    case Number(n) => m.num as real > n
    case PosInfinity => false
    case NegInfinity => true
    case _ => m.num > 0
  }

  // ------------------------------------------------------------------- freshness

  function FreshnessIn(a: Answer): Option<Freshness> {
    match a
    case Joined(_, f) => Some(f)
    case Received(_, _, f) => Some(f)
    case LiveClaims(_, f) => Some(f)
    case Synced(f) => Some(f)
    case OverviewIs(_, _, f) => Some(f)
    case _ => None
  }

  /** What the history up to step `i` makes an answer at `now` say. */
  ghost predicate TellsFreshness(steps: seq<Step>, i: nat, f: Freshness, head: Json, now: int, staleAfterS: real)
    requires i <= |steps|
  {
    var sync, put := LastSync(steps, i), LastPut(steps, i);
    && f.staleness == Bumps(steps, i)
    && (if sync.None? then f.syncedSha == None && f.syncedAt == None && f.ageS == None && f.mightBeOutdated
        else
          var sha, at := ShaOf(steps[sync.value].call.op), steps[sync.value].call.now;
          && f.syncedSha == Some(sha) && f.syncedAt == Some(at) && f.ageS.Some?
          && Age(f.ageS.value, at, now)
          && (f.mightBeOutdated <==>
                f.ageS.value as real > staleAfterS || put.None? || ShaOf(steps[put.value].call.op) != sha || !HeadFits(head, sha)))
  }

  /** Whole seconds since `at`, and none if the clock says earlier. */
  predicate Age(s: int, at: int, now: int) { if now < at then s == 0 else 1000 * s <= now - at < 1000 * s + 1000 }

  function HeadOf(op: Op): Json { if op.GetOverview? then op.clientHead else Absent }

  /** Every answer that carries freshness tells the history, a put's or bump's own sync included. */
  lemma EveryAnswerTellsFreshness(steps: seq<Step>, j: nat)
    requires j < |steps| && steps[j].Do? && FreshnessIn(AnswerAt(EMPTY, steps, j)).Some?
    ensures var a, c := AnswerAt(EMPTY, steps, j), steps[j].call;
      TellsFreshness(steps, if a.Synced? then j + 1 else j, FreshnessIn(a).value, HeadOf(c.op), c.now, c.staleAfterS)
  {
    var a, c := AnswerAt(EMPTY, steps, j), steps[j].call;
    var i := if a.Synced? then j + 1 else j;
    OverviewByHistory(steps, i);
    FreshnessOfRow(At(EMPTY, steps, j), c);
    assert At(EMPTY, steps, j + 1) == Apply(At(EMPTY, steps, j), c).0;
    hide Apply, At;
    RowTells(steps, i, HeadOf(c.op), c.now, c.staleAfterS);
  }

  lemma FreshnessOfRow(t: Rows, c: Call)
    ensures var (t', a) := Apply(t, c);
      FreshnessIn(a).Some? ==>
        FreshnessIn(a).value == FreshnessOf(if a.Synced? then t'.overview else t.overview, HeadOf(c.op), c.now, c.staleAfterS)
  {
    hide FreshnessOf;
  }

  lemma RowTells(steps: seq<Step>, i: nat, head: Json, now: int, staleAfterS: real)
    requires i <= |steps|
    ensures TellsFreshness(steps, i, FreshnessOf(RowByHistory(steps, i), head, now, staleAfterS), head, now, staleAfterS)
  {
    if LastSync(steps, i).None? { NoBumpsWithoutSync(steps, i); }
    hide ShaOf, LastSync, LastPut, Bumps, Brought, Syncs, Puts;
  }
}
