/**
  When polls can tell that a sweep has run: the cap on rows counts expired ones,
  so a store that sweeps may keep a message that one which does not has evicted.
 */
module SweptPolls {
  import opened Prelude
  import opened Tables
  import opened SweepErasure

  lemma SomeRow(rows: seq<Message>) returns (m: Message)
    requires rows != []
    ensures m in rows
  {
    m := rows[0];
  }

  lemma LastRow(rows: seq<Message>, last: nat)
    requires Sorted(rows, last) && rows != []
    ensures Sorted(rows[..|rows| - 1], last)
    ensures rows[|rows| - 1] in rows
    ensures forall m :: m in rows && m.num >= rows[|rows| - 1].num ==> m == rows[|rows| - 1]
    ensures forall m :: m in rows[..|rows| - 1] <==> m in rows && m != rows[|rows| - 1]
  {
    assert rows == rows[..|rows| - 1] + [rows[|rows| - 1]];
  }

  /** Two sorted tables with the same rows are the same table. */
  lemma {:induction false} SameRows(a: seq<Message>, b: seq<Message>, last: nat)
    requires Sorted(a, last) && Sorted(b, last)
    requires forall m :: m in a <==> m in b
    ensures a == b
  {
    hide Sorted;
    if a == [] {
      if b != [] {
        var m := SomeRow(b);
        assert false;
      }
    } else {
      var m := SomeRow(a);
      assert m in b;
      LastRow(a, last);
      LastRow(b, last);
      var a', b', x := a[..|a| - 1], b[..|b| - 1], a[|a| - 1];
      assert x in b && b[|b| - 1] in a;
      assert x == b[|b| - 1];
      forall m ensures m in a' <==> m in b' {
        assert m in a <==> m in b;
      }
      SameRows(a', b', last);
      assert a == a' + [x] && b == b' + [x];
    }
  }

  /** Every unexpired row is among the last 1000 numbers sent: what a caller can see of the live store. */
  ghost predicate NoneOverdue(s: Rows, now: int) {
    forall m :: m in s.messages && m.expiresAt > now ==> m.num > s.lastSeq - 1000
  }

  /** No poll at `now`, from whatever cursor and for however many rows, tells the stores apart. */
  ghost predicate PollAlike(s: Rows, u: Rows, now: int) {
    forall since: Json, limit: Json ::
      RecvPage(s, Since(since), PageLimit(limit), now) == RecvPage(u, Since(since), PageLimit(limit), now)
  }

  lemma SameVisible(s: Rows, u: Rows, since: Json, now: int)
    requires Agree(s, u, now) && NoneOverdue(s, now)
    ensures Visible(s.messages, since, now) == Visible(u.messages, since, now)
  {
    hide Visible;
    UnsweptIsSorted(u);
    VisibleIsExact(s.messages, since, now, s.lastSeq);
    VisibleIsExact(u.messages, since, now, u.lastSeq);
    SameRows(Visible(s.messages, since, now), Visible(u.messages, since, now), s.lastSeq);
  }

  lemma UnsweptIsSorted(u: Rows)
    requires Contiguous(u)
    ensures Sorted(u.messages, u.lastSeq)
    ensures forall m :: m in u.messages ==> m.num > u.lastSeq - MSGS_KEPT_MAX
  {}

  /** A poll from just below an overdue row finds it in the swept store only. */
  lemma OverdueIsSeen(s: Rows, u: Rows, now: int, m: Message)
    requires Agree(s, u, now) && m in s.messages && m.expiresAt > now && m.num <= s.lastSeq - MSGS_KEPT_MAX
    ensures var since, limit := Number((m.num - 1) as real), Absent;
      RecvPage(s, Since(since), PageLimit(limit), now) != RecvPage(u, Since(since), PageLimit(limit), now)
  {
    var since := Number((m.num - 1) as real);
    hide Visible;
    UnsweptIsSorted(u);
    VisibleIsExact(s.messages, since, now, s.lastSeq);
    VisibleIsExact(u.messages, since, now, u.lastSeq);
    var seen := Visible(s.messages, since, now);
    FirstIsLeast(seen, s.lastSeq, m);
    assert seen[0] in seen;
    var page := Page(s.messages, since, now, RECV_LIMIT_MAX);
    assert page[0] == seen[0];
    PageIsVisible(u.messages, since, now, RECV_LIMIT_MAX);
    assert page[0] !in Page(u.messages, since, now, RECV_LIMIT_MAX);
  }

  lemma PageIsVisible(rows: seq<Message>, since: Json, now: int, limit: nat)
    ensures forall m :: m in Page(rows, since, now, limit) ==> m in Visible(rows, since, now)
  {
    hide Visible;
  }

  lemma FirstIsLeast(rows: seq<Message>, last: nat, m: Message)
    requires Sorted(rows, last) && m in rows
    ensures |rows| > 0 && rows[0].num <= m.num
  {}

  /**
    When sweeping shows: in any run, polls at `now` answer as they would had no
    sweep ever run, if and only if no unexpired row of the store is older than
    the last 1000 sends.
   */
  lemma PollsAgreeIff(steps: seq<Step>, i: nat, now: int)
    requires i <= |steps| && Ordered(steps) && (i > 0 ==> TimeOf(steps[i - 1]) <= now)
    ensures PollAlike(At(EMPTY, steps, i), Unswept(EMPTY, steps, i), now) <==> NoneOverdue(At(EMPTY, steps, i), now)
  {
    RunsAgree(steps, i, now);
    var s, u := At(EMPTY, steps, i), Unswept(EMPTY, steps, i);
    hide At, Unswept, Agree, RecvPage, PageLimit, Since;
    if NoneOverdue(s, now) {
      forall since: Json, limit: Json
        ensures RecvPage(s, Since(since), PageLimit(limit), now) == RecvPage(u, Since(since), PageLimit(limit), now)
      {
        SameVisible(s, u, Since(since), now);
        SamePage(s, u, Since(since), PageLimit(limit), now);
      }
    } else {
      var m :| m in s.messages && m.expiresAt > now && m.num <= s.lastSeq - MSGS_KEPT_MAX;
      OverdueIsSeen(s, u, now, m);
    }
  }

  lemma SamePage(s: Rows, u: Rows, since: Json, limit: nat, now: int)
    requires Visible(s.messages, since, now) == Visible(u.messages, since, now)
    ensures RecvPage(s, since, limit, now) == RecvPage(u, since, limit, now)
  {
    hide Visible;
  }

  lemma RecvAnswers(t: Rows, c: Call)
    requires c.op.Recv? && t.joined
    ensures var page := RecvPage(t, Since(c.op.since), PageLimit(c.op.limit), c.now);
      Apply(t, c).1 == Received(page.0, page.1, Fresh(t, c))
  {}

  /** Until more messages were sent than the store keeps, polls cannot tell the stores apart. */
  lemma PollsAgreeBelowTheCap(steps: seq<Step>, i: nat)
    requires i < |steps| && Ordered(steps) && steps[i].Do?
    requires steps[i].call.op.Recv?
    requires Unswept(EMPTY, steps, i).lastSeq <= MSGS_KEPT_MAX
    ensures AnswerAt(EMPTY, steps, i) == Apply(Unswept(EMPTY, steps, i), steps[i].call).1
  {
    var c, s, u := steps[i].call, At(EMPTY, steps, i), Unswept(EMPTY, steps, i);
    RunsAgree(steps, i, c.now);
    PollsAgreeIff(steps, i, c.now);
    if s.joined {
      RecvAnswers(s, c);
      RecvAnswers(u, c);
      hide Apply, RecvPage, Since, PageLimit, At, Unswept;
    }
  }

  // ------------------------------------------------- where the stores do differ

  function Post(body: string, ttl: int, now: int): Step {
    Do(Call(Send(Text(body), Text("p"), Number(ttl as real)), "a", now, "", 0.0))
  }

  /** The row of the first post of `Crowd`: it lives for a day. */
  const FIRST := Message(1, "a", "p", "x", 0, 86400000)

  /** A long-lived message, a short-lived one, a sweep after the latter expired, and `k` messages more. */
  function Crowd(k: nat): seq<Step> {
    if k == 0 then [Do(Call(Join, "a", 0, "", 0.0)), Post("x", 86400, 0), Post("x", 1, 0), Wake(1000)]
    else Crowd(k - 1) + [Post("x", 86400, 1000)]
  }

  lemma {:induction false} CrowdIsOrdered(k: nat)
    ensures Ordered(Crowd(k)) && |Crowd(k)| == 4 + k && TimeOf(Crowd(k)[3 + k]) == 1000
    ensures forall i :: 0 <= i < |Crowd(k)| ==> TimeOf(Crowd(k)[i]) <= 1000
  {
    if k > 0 { CrowdIsOrdered(k - 1); }
  }

  lemma {:induction false} SameStart(t: Rows, xs: seq<Step>, more: seq<Step>, i: nat)
    requires i <= |xs|
    ensures At(t, xs + more, i) == At(t, xs, i) && Unswept(t, xs + more, i) == Unswept(t, xs, i)
  {
    hide Next, Apply;
    if i > 0 {
      SameStart(t, xs, more, i - 1);
      assert (xs + more)[i - 1] == xs[i - 1];
    }
  }

  lemma PostAdds(t: Rows, body: string, ttl: int, now: int)
    requires t.joined && 0 < |body| <= MSG_BODY_MAX && 1 <= ttl <= MSG_TTL_MAX_S
    ensures var m := Message(t.lastSeq + 1, "a", "p", body, now, now + ttl * 1000);
      Apply(t, Post(body, ttl, now).call).0
        == t.(messages := Newest(t.messages + [m], MSGS_KEPT_MAX), lastSeq := t.lastSeq + 1)
  {}

  /** The sweep leaves the first post alone in the swept store. */
  lemma CrowdStarts()
    ensures At(EMPTY, Crowd(0), 4) == Rows(true, [FIRST], 2, map[], None)
    ensures Unswept(EMPTY, Crowd(0), 4).joined && Unswept(EMPTY, Crowd(0), 4).lastSeq == 2
  {
    var steps, joined := Crowd(0), Rows(true, [], 0, map[], None);
    var one := Rows(true, [FIRST], 1, map[], None);
    var second := Message(2, "a", "p", "x", 0, 1000);
    var two := Rows(true, [FIRST, second], 2, map[], None);
    PostAdds(joined, "x", 86400, 0);
    PostAdds(one, "x", 1, 0);
    assert [] + [FIRST] == [FIRST] && [FIRST] + [second] == [FIRST, second];
    assert Apply(EMPTY, steps[0].call).0 == joined;
    SweepOfTwo(FIRST, second);
    assert Live(map[], 1000) == map[];
    hide Apply, Sweep, Visible;
    assert At(EMPTY, steps, 1) == joined && Unswept(EMPTY, steps, 1) == joined;
    assert At(EMPTY, steps, 2) == one && Unswept(EMPTY, steps, 2) == one;
    assert At(EMPTY, steps, 3) == two && Unswept(EMPTY, steps, 3) == two;
    SweepOfRows(two, [FIRST]);
  }

  lemma SweepOfRows(t: Rows, left: seq<Message>)
    requires Unexpired(t.messages, 1000) == left && t.claims == map[]
    ensures Sweep(t, 1000) == t.(messages := left)
  {
    assert Live(t.claims, 1000) == t.claims;
  }

  lemma SweepOfTwo(a: Message, b: Message)
    requires a.expiresAt > 1000 >= b.expiresAt
    ensures Unexpired([a, b], 1000) == [a]
  {
    assert [a, b][..1] == [a] && [a][..0] == [];
    assert Visible([a], NegInfinity, 1000) == [] + [a];
  }

  lemma {:induction false} CrowdFills(k: nat)
    requires k < MSGS_KEPT_MAX
    ensures |Crowd(k)| == 4 + k
    ensures var s, u := At(EMPTY, Crowd(k), 4 + k), Unswept(EMPTY, Crowd(k), 4 + k);
      && s.joined && s.lastSeq == 2 + k && |s.messages| == 1 + k && s.messages[0] == FIRST
      && u.joined && u.lastSeq == 2 + k
  {
    CrowdIsOrdered(k);
    if k == 0 {
      CrowdStarts();
    } else {
      var earlier := Crowd(k - 1);
      CrowdFills(k - 1);
      var s, u := At(EMPTY, earlier, 3 + k), Unswept(EMPTY, earlier, 3 + k);
      SameStart(EMPTY, earlier, [Post("x", 86400, 1000)], 3 + k);
      assert Crowd(k)[3 + k] == Post("x", 86400, 1000);
      PostAdds(s, "x", 86400, 1000);
      PostAdds(u, "x", 86400, 1000);
      hide Apply;
    }
  }

  /**
    Why the converse fails: expired rows count towards the cap. After a thousand
    further sends the unswept store has evicted a live message, which the store
    that swept one expired row still shows.
   */
  lemma SweptStoreCanShowMore(k: nat)
    requires k == MSGS_KEPT_MAX - 1
    ensures var steps := Crowd(k);
      && Ordered(steps) && |steps| == 4 + k
      && FIRST in Visible(At(EMPTY, steps, 4 + k).messages, Number(0.0), 1000)
      && FIRST !in Visible(Unswept(EMPTY, steps, 4 + k).messages, Number(0.0), 1000)
  {
    hide Crowd, Visible, At, Unswept;
    CrowdIsOrdered(k);
    CrowdFills(k);
    RunsAgree(Crowd(k), 4 + k, 1000);
    var s, u := At(EMPTY, Crowd(k), 4 + k), Unswept(EMPTY, Crowd(k), 4 + k);
    VisibleIsExact(s.messages, Number(0.0), 1000, s.lastSeq);
    VisibleIsExact(u.messages, Number(0.0), 1000, u.lastSeq);
  }
}
