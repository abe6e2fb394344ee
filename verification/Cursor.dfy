/**
  One client's polls, chained by `next` from cursor 0, in a run where anything
  else may happen to the namespace between them.
 */
module Cursor {
  import opened Tables

  /** A step of the namespace, or a poll by the client at its current cursor. */
  datatype Event = Other(step: Step) | Poll(limit: Json, now: int)

  function PollCall(cursor: nat, e: Event): Call
    requires e.Poll?
  {
    Call(Recv(Number(cursor as real), e.limit), "", e.now, "", 0.0)
  }

  function StateAt(t: Rows, events: seq<Event>, i: nat): Rows
    requires i <= |events|
  {
    if i == 0 then t
    else if events[i - 1].Poll? then StateAt(t, events, i - 1)
    else Next(StateAt(t, events, i - 1), events[i - 1].step)
  }

  /** The rows poll `i` returns. A refused poll returns none. */
  function Batch(t: Rows, cursor: nat, e: Event): (batch: seq<Message>)
    requires e.Poll?
  {
    var a := Apply(t, PollCall(cursor, e)).1;
    if a.Received? then a.msgs else []
  }

  function CursorAt(t: Rows, events: seq<Event>, i: nat): nat
    requires i <= |events|
  {
    if i == 0 then 0
    else
      var c := CursorAt(t, events, i - 1);
      if events[i - 1].Poll? then NextCursor(StateAt(t, events, i - 1), c, events[i - 1]) else c
  }

  /** The `next` the client passes to its following poll. */
  function NextCursor(t: Rows, cursor: nat, e: Event): nat
    requires e.Poll?
  {
    var batch := Batch(t, cursor, e);
    if batch == [] then cursor else batch[|batch| - 1].num
  }

  function Delivered(t: Rows, events: seq<Event>, i: nat): seq<Message>
    requires i <= |events|
  {
    if i == 0 then []
    else if events[i - 1].Poll? then
      Delivered(t, events, i - 1) + Batch(StateAt(t, events, i - 1), CursorAt(t, events, i - 1), events[i - 1])
    else Delivered(t, events, i - 1)
  }

  /** `next` in the answer is the cursor the client goes on with. */
  lemma NextIsTheAnswer(t: Rows, cursor: nat, e: Event)
    requires e.Poll? && t.joined
    ensures var a := Apply(t, PollCall(cursor, e)).1;
      a.Received? && a.next == Number(NextCursor(t, cursor, e) as real)
  {}

  /**
    One poll: sorted rows above the cursor, at most 100 of them, and up to the
    new cursor no unexpired row was left out. A page that is not full leaves no
    unexpired row above the new cursor either.
   */
  lemma PollIsExact(t: Rows, cursor: nat, e: Event)
    requires e.Poll? && t.joined && Sorted(t.messages, t.lastSeq) && cursor <= t.lastSeq
    ensures var batch, next := Batch(t, cursor, e), NextCursor(t, cursor, e);
      && Sorted(batch, t.lastSeq) && |batch| <= PageLimit(e.limit)
      && cursor <= next <= t.lastSeq
      && (forall m :: m in batch ==> m in t.messages && m.expiresAt > e.now && cursor < m.num <= next)
      && (forall m :: m in t.messages && m.expiresAt > e.now && cursor < m.num <= next ==> m in batch)
      && (|batch| < PageLimit(e.limit) ==> forall m :: m in t.messages && m.num > next ==> m.expiresAt <= e.now)
  {
    hide *;
    var all, limit := Visible(t.messages, Number(cursor as real), e.now), PageLimit(e.limit);
    VisibleAbove(t.messages, cursor, e.now, t.lastSeq);
    BatchIsAPage(t, cursor, e);
    PrefixOfPage(all, limit, cursor, t.lastSeq);
    PageDecides(t.messages, all, Batch(t, cursor, e), cursor, NextCursor(t, cursor, e), e.now, limit);
  }

  lemma VisibleAbove(rows: seq<Message>, cursor: nat, now: int, last: nat)
    requires Sorted(rows, last)
    ensures var all := Visible(rows, Number(cursor as real), now);
      Sorted(all, last) && forall m :: m in all <==> m in rows && m.num > cursor && m.expiresAt > now
  {
    VisibleIsExact(rows, Number(cursor as real), now, last);
    hide Visible, Sorted;
  }

  /** The batch is the first rows, and the new cursor the last one's number. */
  lemma BatchIsAPage(t: Rows, cursor: nat, e: Event)
    requires e.Poll? && t.joined
    ensures var all, limit := Visible(t.messages, Number(cursor as real), e.now), PageLimit(e.limit);
      Batch(t, cursor, e) == First(all, limit) && NextCursor(t, cursor, e) == NumberAfter(First(all, limit), cursor)
  {
    hide Visible, PageLimit;
  }

  function First(all: seq<Message>, limit: nat): seq<Message> { if |all| <= limit then all else all[..limit] }

  function NumberAfter(page: seq<Message>, cursor: nat): nat { if page == [] then cursor else page[|page| - 1].num }

  /** A page covers the visible rows up to its last number, or all of them. */
  ghost predicate Covers(all: seq<Message>, page: seq<Message>, cursor: nat, next: nat) {
    && (forall m :: m in page ==> m in all && m.num <= next)
    && (forall m :: m in all && m.num <= next ==> m in page)
    && (page == [] ==> all == [])
    && cursor <= next
  }

  /** Taking the first rows of a sorted table leaves only later keys. */
  lemma PrefixOfPage(all: seq<Message>, limit: nat, cursor: nat, last: nat)
    requires Sorted(all, last) && 1 <= limit && cursor <= last && forall m :: m in all ==> m.num > cursor
    ensures var page := First(all, limit);
      && Sorted(page, last) && |page| <= limit && (|page| < limit ==> page == all)
      && Covers(all, page, cursor, NumberAfter(page, cursor)) && NumberAfter(page, cursor) <= last
  {
    hide Sorted;
    var page := First(all, limit);
    assert page == [] <==> all == [];
    if all != [] {
      var n := |page|;
      assert page == all[..n] && NumberAfter(page, cursor) == all[n - 1].num;
      assert |page| < limit ==> page == all;
      hide First, NumberAfter;
      PrefixOfSorted(all, n, last);
      assert all[n - 1] in all;
    }
  }

  lemma PrefixOfSorted(all: seq<Message>, n: nat, last: nat)
    requires Sorted(all, last) && 0 < n <= |all|
    ensures Sorted(all[..n], last) && all[n - 1].num <= last
    ensures forall m :: m in all[..n] ==> m in all && m.num <= all[n - 1].num
    ensures forall m :: m in all && m.num <= all[n - 1].num ==> m in all[..n]
  {
    forall m | m in all && m.num <= all[n - 1].num ensures m in all[..n] {
      var k :| 0 <= k < |all| && all[k] == m;
      assert k < n && all[..n][k] == m;
    }
  }

  lemma PageDecides(rows: seq<Message>, all: seq<Message>, page: seq<Message>, cursor: nat, next: nat, now: int, limit: nat)
    requires forall m :: m in all <==> m in rows && m.num > cursor && m.expiresAt > now
    requires Covers(all, page, cursor, next) && (|page| < limit ==> page == all)
    ensures cursor <= next
    ensures forall m :: m in page ==> m in rows && m.expiresAt > now && cursor < m.num <= next
    ensures forall m :: m in rows && m.expiresAt > now && cursor < m.num <= next ==> m in page
    ensures |page| < limit ==> forall m :: m in rows && m.num > next ==> m.expiresAt <= now
  {}

  /** The cursor moved over `num` at poll `k`, where no unexpired row had that number. */
  ghost predicate PassedDead(t: Rows, events: seq<Event>, k: nat, num: nat)
    requires k < |events|
  {
    && events[k].Poll?
    && CursorAt(t, events, k) < num <= CursorAt(t, events, k + 1)
    && forall m :: m in StateAt(t, events, k).messages && m.num == num ==> m.expiresAt <= events[k].now
  }

  lemma {:induction false} StateIsSound(t: Rows, events: seq<Event>, i: nat)
    requires t.joined && Sorted(t.messages, t.lastSeq) && i <= |events|
    ensures var s := StateAt(t, events, i); s.joined && Sorted(s.messages, s.lastSeq) && t.lastSeq <= s.lastSeq
    ensures CursorAt(t, events, i) <= StateAt(t, events, i).lastSeq
  {
    if i > 0 {
      StateIsSound(t, events, i - 1);
      var before, e := StateAt(t, events, i - 1), events[i - 1];
      if e.Poll? {
        PollIsExact(before, CursorAt(t, events, i - 1), e);
      } else {
        StepKeepsOrder(before, e.step);
        StepStaysJoined(before, e.step);
      }
    }
  }

  /** `num` reached the client by step `i`, or died before the client's cursor came to it. */
  ghost predicate Accounted(t: Rows, events: seq<Event>, i: nat, num: nat)
    requires i <= |events|
  {
    || (exists m :: m in Delivered(t, events, i) && m.num == num)
    || (exists k :: 0 <= k < i && PassedDead(t, events, k, num))
  }

  /** Over any run the client receives strictly increasing sequence numbers, none above its cursor. */
  lemma {:induction false} DeliveredOnce(t: Rows, events: seq<Event>, i: nat)
    requires t.joined && Sorted(t.messages, t.lastSeq) && i <= |events|
    ensures Sorted(Delivered(t, events, i), CursorAt(t, events, i))
  {
    if i > 0 {
      DeliveredOnce(t, events, i - 1);
      StateIsSound(t, events, i - 1);
      if events[i - 1].Poll? {
        var before, cursor, e := StateAt(t, events, i - 1), CursorAt(t, events, i - 1), events[i - 1];
        PollIsExact(before, cursor, e);
        hide Batch, StateAt, PageLimit;
        DeliveredGrows(Delivered(t, events, i - 1), Batch(before, cursor, e), cursor, NextCursor(before, cursor, e), before.lastSeq);
      }
    }
  }

  /** Rows above the cursor, in order, go behind those below it. */
  lemma DeliveredGrows(got: seq<Message>, batch: seq<Message>, cursor: nat, next: nat, last: nat)
    requires Sorted(got, cursor) && Sorted(batch, last) && cursor <= next
    requires forall m :: m in batch ==> cursor < m.num <= next
    ensures Sorted(got + batch, next)
  {
    assert forall i :: 0 <= i < |batch| ==> batch[i] in batch;
  }

  /**
    Cursor delivery: every number the cursor has passed was either delivered or
    belonged to no unexpired row at the very poll that passed it.
   */
  lemma {:induction false} EveryNumberIsAccountedFor(t: Rows, events: seq<Event>, i: nat, num: nat)
    requires t.joined && Sorted(t.messages, t.lastSeq) && i <= |events|
    requires 1 <= num <= CursorAt(t, events, i)
    ensures Accounted(t, events, i, num)
  {
    var before, e := StateAt(t, events, i - 1), events[i - 1];
    var c := CursorAt(t, events, i - 1);
    if num <= c {
      EveryNumberIsAccountedFor(t, events, i - 1, num);
      if m: Message :| m in Delivered(t, events, i - 1) && m.num == num {
        assert m in Delivered(t, events, i);
      }
    } else {
      StateIsSound(t, events, i - 1);
      PollIsExact(before, c, e);
      if m: Message :| m in before.messages && m.num == num && m.expiresAt > e.now {
        assert m in Batch(before, c, e);
        assert m in Delivered(t, events, i);
      } else {
        assert PassedDead(t, events, i - 1, num);
      }
    }
  }

  /** A message sent after the cursor was last advanced always lies above it: it cannot be skipped unseen. */
  lemma SendsLandAboveTheCursor(t: Rows, events: seq<Event>, i: nat, c: Call)
    requires t.joined && Sorted(t.messages, t.lastSeq) && i <= |events|
    requires Apply(StateAt(t, events, i), c).1.Sent?
    ensures Apply(StateAt(t, events, i), c).1.num > CursorAt(t, events, i)
  {
    StateIsSound(t, events, i);
  }
}
