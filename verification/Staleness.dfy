/**
  The overview of a namespace over whole runs: what `overview.get` hands out and
  when an answer says that it might be outdated, told from the ops alone.
 */
module Staleness {
  import opened Prelude
  import opened Tables

  /** Step `k` was an accepted put or bump. */
  predicate Syncs(steps: seq<Step>, k: nat)
    requires k < |steps|
  {
    steps[k].Do? && AnswerAt(EMPTY, steps, k).Synced?
  }

  /** Step `k` brought an overview, and it was stored. */
  predicate Puts(steps: seq<Step>, k: nat)
    requires k < |steps|
  {
    Syncs(steps, k) && Brought(steps[k].call.op).Some?
  }

  function ShaOf(op: Op): string {
    match op
    case PutOverview(sha, _) => if sha.Text? then sha.s else ""
    case Bump(head, _) => if head.Text? then head.s else ""
    case _ => ""
  }

  /** The last step before `i` that synced. */
  function LastSync(steps: seq<Step>, i: nat): (k: Option<nat>)
    requires i <= |steps|
    ensures k.Some? ==> k.value < i && Syncs(steps, k.value) && forall m :: k.value < m < i ==> !Syncs(steps, m)
    ensures k.None? ==> forall m :: 0 <= m < i ==> !Syncs(steps, m)
  {
    if i == 0 then None else if Syncs(steps, i - 1) then Some(i - 1) else LastSync(steps, i - 1)
  }

  /** The last step before `i` that stored an overview. */
  function LastPut(steps: seq<Step>, i: nat): (k: Option<nat>)
    requires i <= |steps|
    ensures k.Some? ==> k.value < i && Puts(steps, k.value) && forall m :: k.value < m < i ==> !Puts(steps, m)
    ensures k.None? ==> forall m :: 0 <= m < i ==> !Puts(steps, m)
  {
    if i == 0 then None else if Puts(steps, i - 1) then Some(i - 1) else LastPut(steps, i - 1)
  }

  /** The accepted bumps since an overview was last stored, a storing one among them. */
  function Bumps(steps: seq<Step>, i: nat): nat
    requires i <= |steps|
  {
    if i == 0 then 0
    else
      var earlier := if Puts(steps, i - 1) then 0 else Bumps(steps, i - 1);
      if Syncs(steps, i - 1) && steps[i - 1].call.op.Bump? then earlier + 1 else earlier
  }

  /** The row after an accepted put or bump: an overview brought replaces the old one, and a bump counts. */
  function SyncedRow(row: Option<Overview>, op: Op, now: int): Overview {
    var brought, sha := Brought(op), ShaOf(op);
    Overview(if brought.Some? then brought else if row.Some? then row.value.body else None,
             if brought.Some? then Some(sha) else if row.Some? then row.value.bodySha else None,
             sha, now,
             (if brought.Some? || row.None? then 0 else row.value.staleness) + if op.Bump? then 1 else 0)
  }

  /** Only an op that answers `Synced` touches the overview row. */
  lemma OverviewAfter(t: Rows, c: Call)
    ensures var (t', a) := Apply(t, c);
      if a.Synced? then (c.op.PutOverview? || c.op.Bump?) && t'.overview == Some(SyncedRow(t.overview, c.op, c.now))
      else t'.overview == t.overview
  {}

  /** The row there should be: when and to what the last sync was, with the overview last stored. */
  function RowByHistory(steps: seq<Step>, i: nat): Option<Overview>
    requires i <= |steps|
  {
    var sync, put := LastSync(steps, i), LastPut(steps, i);
    if sync.None? then None
    else
      var op := steps[sync.value].call.op;
      Some(Overview(if put.Some? then Brought(steps[put.value].call.op) else None,
                    if put.Some? then Some(ShaOf(steps[put.value].call.op)) else None,
                    ShaOf(op), steps[sync.value].call.now, Bumps(steps, i)))
  }

  lemma {:induction false} NoBumpsWithoutSync(steps: seq<Step>, i: nat)
    requires i <= |steps| && LastSync(steps, i).None?
    ensures Bumps(steps, i) == 0 && LastPut(steps, i).None?
  {
    hide Syncs, Brought;
    if i > 0 { NoBumpsWithoutSync(steps, i - 1); }
  }

  lemma HistoryGrows(steps: seq<Step>, i: nat)
    requires i < |steps|
    ensures !Syncs(steps, i) ==> RowByHistory(steps, i + 1) == RowByHistory(steps, i)
    ensures Syncs(steps, i) && (steps[i].call.op.PutOverview? || steps[i].call.op.Bump?) ==>
      RowByHistory(steps, i + 1) == Some(SyncedRow(RowByHistory(steps, i), steps[i].call.op, steps[i].call.now))
  {
    if LastSync(steps, i).None? { NoBumpsWithoutSync(steps, i); }
    hide Syncs, ShaOf;
  }

  /** The overview row is what the history of accepted puts and bumps makes it. */
  lemma {:induction false} OverviewByHistory(steps: seq<Step>, i: nat)
    requires i <= |steps|
    ensures At(EMPTY, steps, i).overview == RowByHistory(steps, i)
  {
    hide RowByHistory, SyncedRow, Apply, Sweep;
    if i == 0 {
      NoRowYet(steps);
    } else {
      OverviewByHistory(steps, i - 1);
      HistoryGrows(steps, i - 1);
      var before, s := At(EMPTY, steps, i - 1), steps[i - 1];
      if s.Do? { OverviewAfter(before, s.call); } else { SweepKeepsOverview(before, s.at); }
    }
  }

  lemma NoRowYet(steps: seq<Step>)
    ensures RowByHistory(steps, 0) == None
  {}

  lemma SweepKeepsOverview(t: Rows, now: int)
    ensures Sweep(t, now).overview == t.overview
  {}

  /** The client's own head is none, or the one last synced. */
  predicate HeadFits(clientHead: Json, sha: string) { clientHead.Text? && clientHead.s != "" ==> clientHead.s == sha }

  /** The overview was stored under the sha last synced, that was lately enough, and the client is there too. */
  predicate Current(steps: seq<Step>, i: nat, c: Call)
    requires i <= |steps| && c.op.GetOverview?
  {
    var sync, put := LastSync(steps, i), LastPut(steps, i);
    && put.Some? && sync.Some?
    && ShaOf(steps[put.value].call.op) == ShaOf(steps[sync.value].call.op)
    && Max(0, (c.now - steps[sync.value].call.now) / 1000) as real <= c.staleAfterS
    && HeadFits(c.op.clientHead, ShaOf(steps[sync.value].call.op))
  }

  /**
    `overview.get` hands out the last overview stored. Its answer says that this
    is not outdated exactly when the last sync was of the very sha the overview
    was stored under, is not too old, and is where the client is; and its
    staleness counts the bumps since the overview was stored.
   */
  lemma GetTellsTheLastPut(steps: seq<Step>, i: nat)
    requires i < |steps| && steps[i].Do? && steps[i].call.op.GetOverview? && At(EMPTY, steps, i).joined
    ensures var a, c, put := AnswerAt(EMPTY, steps, i), steps[i].call, LastPut(steps, i);
      && a.OverviewIs? && a.freshness.staleness == Bumps(steps, i)
      && (put.Some? ==> Some(a.body) == Brought(steps[put.value].call.op) && a.bodySha == Some(ShaOf(steps[put.value].call.op)))
      && (put.None? ==> a.body == "null" && a.bodySha == None)
      && (!a.freshness.mightBeOutdated <==> Current(steps, i, c))
  {
    OverviewByHistory(steps, i);
    HistoryRow(steps, i, steps[i].call);
    GetAnswers(At(EMPTY, steps, i), steps[i].call);
    hide Apply, At, ShaOf, HeadFits, LastSync, LastPut, Bumps, Current, RowByHistory, Brought, UpToDate, Syncs, Puts;
  }

  /** What `FreshnessOf` looks at. */
  predicate UpToDate(row: Option<Overview>, c: Call)
    requires c.op.GetOverview?
  {
    && row.Some? && row.value.bodySha == Some(row.value.syncedSha)
    && Max(0, (c.now - row.value.syncedAt) / 1000) as real <= c.staleAfterS
    && HeadFits(c.op.clientHead, row.value.syncedSha)
  }

  lemma HistoryRow(steps: seq<Step>, i: nat, c: Call)
    requires i <= |steps| && c.op.GetOverview?
    ensures var row, put := RowByHistory(steps, i), LastPut(steps, i);
      && (row.None? ==> put.None? && Bumps(steps, i) == 0)
      && (row.Some? ==>
            row.value.staleness == Bumps(steps, i)
            && row.value.body == (if put.Some? then Brought(steps[put.value].call.op) else None)
            && row.value.bodySha == (if put.Some? then Some(ShaOf(steps[put.value].call.op)) else None))
      && (UpToDate(row, c) <==> Current(steps, i, c))
  {
    hide ShaOf, HeadFits, LastSync, LastPut, Bumps, Brought, Syncs, Puts, Max;
    if LastSync(steps, i).None? { NoBumpsWithoutSync(steps, i); }
  }

  lemma GetAnswers(t: Rows, c: Call)
    requires t.joined && c.op.GetOverview?
    ensures var a, row := Apply(t, c).1, t.overview;
      && a.OverviewIs?
      && a.freshness.staleness == (if row.Some? then row.value.staleness else 0)
      && a.body == (if row.Some? && row.value.body.Some? then row.value.body.value else "null")
      && a.bodySha == (if row.Some? then row.value.bodySha else None)
      && (!a.freshness.mightBeOutdated <==> UpToDate(row, c))
  {}
}
