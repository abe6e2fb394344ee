/**
  A run with sweeps against the same run with none. Sweeping is garbage
  collection for claims: no claim, release of a live claim or listing answers
  differently. It is not for messages, because the row cap counts expired rows:
  the swept store may show a message the unswept one has evicted, never the
  other way round.
 */
module SweepErasure {
  import opened Prelude
  import opened Tables
  import opened Leases

  /** The tables before step `i` had no sweep ever run. */
  function Unswept(t: Rows, steps: seq<Step>, i: nat): Rows
    requires i <= |steps|
  {
    if i == 0 then t
    else if steps[i - 1].Wake? then Unswept(t, steps, i - 1)
    else Apply(Unswept(t, steps, i - 1), steps[i - 1].call).0
  }

  /** An unswept table holds the last rows sent, with no gap. */
  ghost predicate Contiguous(t: Rows) {
    && |t.messages| == Min(t.lastSeq, MSGS_KEPT_MAX)
    && forall k :: 0 <= k < |t.messages| ==> t.messages[k].num == t.lastSeq - |t.messages| + 1 + k
  }

  /** A visible row of `u` is a row of `s`. */
  ghost predicate Shows(s: Rows, u: Rows, now: int) {
    forall m :: m in u.messages && m.expiresAt > now ==> m in s.messages
  }

  /** How a swept store relates to the unswept one at `now`. */
  ghost predicate Agree(s: Rows, u: Rows, now: int) {
    && s.joined == u.joined && s.lastSeq == u.lastSeq && s.overview == u.overview
    && Live(s.claims, now) == Live(u.claims, now)
    && (forall o :: o in s.claims ==> o in u.claims && u.claims[o] == s.claims[o])
    && Sorted(s.messages, s.lastSeq) && Contiguous(u)
    && Shows(s, u, now)
    && KeepsRecent(s, u)
  }

  /** A row of `s` that the cap alone would not have evicted is a row of `u`. */
  ghost predicate KeepsRecent(s: Rows, u: Rows) {
    forall m :: m in s.messages && m.num > s.lastSeq - MSGS_KEPT_MAX ==> m in u.messages
  }

  lemma Later(s: Rows, u: Rows, now: int, later: int)
    requires Agree(s, u, now) && now <= later
    ensures Agree(s, u, later)
  {
    var a, b := Live(s.claims, later), Live(u.claims, later);
    assert a == b by {
      forall o ensures (o in a <==> o in b) && (o in a ==> a[o] == b[o]) {
        assert o in a ==> o in Live(s.claims, now);
        assert o in b ==> o in Live(u.claims, now);
        assert o in Live(s.claims, now) <==> o in Live(u.claims, now);
      }
    }
  }

  lemma SweptAgrees(s: Rows, u: Rows, now: int)
    requires Agree(s, u, now)
    ensures Agree(Sweep(s, now), u, now)
  {
    VisibleIsExact(s.messages, NegInfinity, now, s.lastSeq);
    assert Live(Live(s.claims, now), now) == Live(s.claims, now);
  }

  lemma ContiguousAfterSend(u: Rows, m: Message)
    requires Contiguous(u) && m.num == u.lastSeq + 1
    ensures Contiguous(u.(messages := Newest(u.messages + [m], MSGS_KEPT_MAX), lastSeq := m.num))
  {}

  /** The row cap never evicts from the swept table a visible row the unswept one keeps. */
  lemma KeptAfterSend(s: Rows, u: Rows, m: Message, x: Message)
    requires Sorted(s.messages, s.lastSeq) && s.lastSeq == u.lastSeq && Contiguous(u)
    requires m.num == u.lastSeq + 1 && x in s.messages
    requires x in Newest(u.messages + [m], MSGS_KEPT_MAX)
    ensures x in Newest(s.messages + [m], MSGS_KEPT_MAX)
  {
    var ss := s.messages + [m];
    ContiguousAfterSend(u, m);
    assert m.num - x.num < MSGS_KEPT_MAX;
    var k :| 0 <= k < |s.messages| && s.messages[k] == x;
    RoomAbove(s.messages, k, s.lastSeq);
    if |ss| > MSGS_KEPT_MAX {
      assert ss[k] == x && k >= |ss| - MSGS_KEPT_MAX;
      assert ss[|ss| - MSGS_KEPT_MAX..][k - (|ss| - MSGS_KEPT_MAX)] == x;
    }
  }

  lemma ShowsAfterSend(s: Rows, u: Rows, m: Message, now: int)
    requires Sorted(s.messages, s.lastSeq) && s.lastSeq == u.lastSeq && Contiguous(u) && Shows(s, u, now)
    requires m.num == u.lastSeq + 1
    ensures Shows(s.(messages := Newest(s.messages + [m], MSGS_KEPT_MAX)),
                  u.(messages := Newest(u.messages + [m], MSGS_KEPT_MAX)), now)
  {
    var ss, su := Newest(s.messages + [m], MSGS_KEPT_MAX), Newest(u.messages + [m], MSGS_KEPT_MAX);
    assert ss[|ss| - 1] == m;
    forall x | x in su && x.expiresAt > now ensures x in ss {
      if x != m { KeptAfterSend(s, u, m, x); }
    }
  }

  lemma RecentAfterSend(s: Rows, u: Rows, m: Message)
    requires s.lastSeq == u.lastSeq && Contiguous(u) && KeepsRecent(s, u) && m.num == u.lastSeq + 1
    ensures KeepsRecent(s.(messages := Newest(s.messages + [m], MSGS_KEPT_MAX), lastSeq := m.num),
                        u.(messages := Newest(u.messages + [m], MSGS_KEPT_MAX), lastSeq := m.num))
  {
    var ss, su := Newest(s.messages + [m], MSGS_KEPT_MAX), Newest(u.messages + [m], MSGS_KEPT_MAX);
    assert su[|su| - 1] == m;
    forall x | x in ss && x.num > m.num - MSGS_KEPT_MAX ensures x in su {
      if x != m {
        assert x in s.messages && x in u.messages;
        var k :| 0 <= k < |u.messages| && u.messages[k] == x;
        var cut := |u.messages| + 1 - |su|;
        assert k >= cut && su[k - cut] == (u.messages + [m])[k];
      }
    }
  }

  /** Above row `k` of a sorted table there is room for at most `last - num` rows. */
  lemma {:induction false} RoomAbove(rows: seq<Message>, k: nat, last: nat)
    requires Sorted(rows, last) && k < |rows|
    ensures |rows| - k <= last - rows[k].num + 1
    decreases |rows| - k
  {
    if k + 1 < |rows| { RoomAbove(rows, k + 1, last); }
  }

  /** A well-formed release whose token is that of a lease in `u` that `s` has swept. */
  predicate FindsSweptLease(s: Rows, u: Rows, op: Op) {
    && u.joined && op.Release? && !Malformed(op)
    && op.released.s in u.claims && u.claims[op.released.s].token == op.token.s
    && op.released.s !in s.claims
  }

  /** A lease that is live in one store is in both. */
  lemma LiveIsInBoth(s: Rows, u: Rows, now: int, ord: string)
    requires Agree(s, u, now)
    ensures ord in u.claims && u.claims[ord].until > now ==> ord in s.claims
  {
    assert ord in Live(s.claims, now) <==> ord in Live(u.claims, now);
  }

  lemma ReleaseAnswers(s: Rows, u: Rows, c: Call)
    requires Agree(s, u, c.now) && c.op.Release?
    ensures Apply(s, c).1 == Apply(u, c).1 <==> !FindsSweptLease(s, u, c.op)
  {}

  lemma ClaimAnswers(s: Rows, u: Rows, c: Call)
    requires Agree(s, u, c.now) && c.op.Claim?
    ensures Apply(s, c).1 == Apply(u, c).1
  {
    if c.op.order.Text? { LiveIsInBoth(s, u, c.now, c.op.order.s); }
    assert Live(s.claims, c.now) == Live(u.claims, c.now);
    hide Live, Shows, KeepsRecent, Contiguous, Sorted;
  }

  lemma ListingAnswers(s: Rows, u: Rows, now: int)
    requires Agree(s, u, now)
    ensures Listing(s.claims, now) == Listing(u.claims, now)
  {
    var a, b := Listing(s.claims, now), Listing(u.claims, now);
    forall o ensures (o in a <==> o in b) && (o in a ==> a[o] == b[o]) {
      assert o in Live(s.claims, now) <==> o in Live(u.claims, now);
    }
  }

  /** Both stores answer alike, save for polls and releases of a lease that was swept. */
  lemma AnswersAgreeIff(s: Rows, u: Rows, c: Call)
    requires Agree(s, u, c.now) && !c.op.Recv?
    ensures Apply(s, c).1 == Apply(u, c).1 <==> !FindsSweptLease(s, u, c.op)
  {
    if c.op.Release? {
      ReleaseAnswers(s, u, c);
    } else if c.op.Claim? {
      ClaimAnswers(s, u, c);
    } else {
      ListingAnswers(s, u, c.now);
      hide Agree, Listing, Malformed;
      OtherAnswers(s, u, c);
    }
  }

  lemma OtherAnswers(s: Rows, u: Rows, c: Call)
    requires s.joined == u.joined && s.lastSeq == u.lastSeq && s.overview == u.overview
    requires Listing(s.claims, c.now) == Listing(u.claims, c.now)
    requires !c.op.Recv? && !c.op.Release? && !c.op.Claim?
    ensures Apply(s, c).1 == Apply(u, c).1
  {
    hide Listing, FreshnessOf;
  }

  lemma ClaimsAfterOp(s: Rows, u: Rows, c: Call)
    requires Agree(s, u, c.now)
    ensures var s', u' := Apply(s, c).0, Apply(u, c).0;
      && Live(s'.claims, c.now) == Live(u'.claims, c.now)
      && forall o :: o in s'.claims ==> o in u'.claims && u'.claims[o] == s'.claims[o]
  {
    var s', u' := Apply(s, c).0, Apply(u, c).0;
    if c.op.Claim? { ClaimAnswers(s, u, c); }
    forall o ensures (o in Live(s'.claims, c.now) <==> o in Live(u'.claims, c.now))
                  && (o in Live(s'.claims, c.now) ==> s'.claims[o] == u'.claims[o])
                  && (o in s'.claims ==> o in u'.claims && u'.claims[o] == s'.claims[o])
    {
      assert o in Live(s.claims, c.now) <==> o in Live(u.claims, c.now);
      LeaseAfter(s, c, o);
      LeaseAfter(u, c, o);
    }
  }

  /** The row a send would insert into a table whose mark is `last`. */
  function SentRow(last: nat, c: Call): Option<Message> {
    if c.op.Send? && Str(c.op.body, MSG_BODY_MAX).Some? && Str(c.op.provider, 64).Some? then
      var ttl := ClampTtl(c.op.ttl, MSG_TTL_DEFAULT_S, MSG_TTL_MAX_S);
      Some(Message(last + 1, c.identity, c.op.provider.s, c.op.body.s, c.now, c.now + ttl * 1000))
    else None
  }

  lemma MessagesAfterOp(t: Rows, c: Call)
    ensures var t' := Apply(t, c).0;
      if t.joined && SentRow(t.lastSeq, c).Some? then
        t'.messages == Newest(t.messages + [SentRow(t.lastSeq, c).value], MSGS_KEPT_MAX) && t'.lastSeq == t.lastSeq + 1
      else t'.messages == t.messages && t'.lastSeq == t.lastSeq
  {}

  lemma MessagesAgreeAfterOp(s: Rows, u: Rows, c: Call)
    requires Agree(s, u, c.now)
    ensures var s', u' := Apply(s, c).0, Apply(u, c).0;
      && s'.lastSeq == u'.lastSeq && Contiguous(u') && Shows(s', u', c.now)
      && KeepsRecent(s', u')
  {
    MessagesAfterOp(s, c);
    MessagesAfterOp(u, c);
    hide Apply;
    if u.joined && SentRow(u.lastSeq, c).Some? {
      var m := SentRow(u.lastSeq, c).value;
      ContiguousAfterSend(u, m);
      ShowsAfterSend(s, u, m, c.now);
      RecentAfterSend(s, u, m);
    }
  }

  lemma OpAgrees(s: Rows, u: Rows, c: Call)
    requires Agree(s, u, c.now)
    ensures Agree(Apply(s, c).0, Apply(u, c).0, c.now)
  {
    StepKeepsOrder(s, Do(c));
    ClaimsAfterOp(s, u, c);
    MessagesAgreeAfterOp(s, u, c);
    OverviewAgreesAfterOp(s, u, c);
    hide Apply, Live, Contiguous, Shows, KeepsRecent, Sorted;
  }

  /** Joining and the overview row depend on the op and on themselves alone. */
  lemma OverviewAgreesAfterOp(s: Rows, u: Rows, c: Call)
    requires s.joined == u.joined && s.overview == u.overview
    ensures Apply(s, c).0.joined == Apply(u, c).0.joined && Apply(s, c).0.overview == Apply(u, c).0.overview
  {}

  lemma {:induction false} RunsAgree(steps: seq<Step>, i: nat, now: int)
    requires i <= |steps| && Ordered(steps)
    requires i > 0 ==> TimeOf(steps[i - 1]) <= now
    ensures Agree(At(EMPTY, steps, i), Unswept(EMPTY, steps, i), now)
  {
    if i > 0 {
      var s := steps[i - 1];
      RunsAgree(steps, i - 1, TimeOf(s));
      var swept, unswept := At(EMPTY, steps, i - 1), Unswept(EMPTY, steps, i - 1);
      if s.Do? {
        OpAgrees(swept, unswept, s.call);
      } else {
        SweptAgrees(swept, unswept, s.at);
      }
      Later(At(EMPTY, steps, i), Unswept(EMPTY, steps, i), TimeOf(s), now);
    }
  }

  /**
    Sweeps never change what an op answers, polls apart, but for one kind: a
    release, with its token, of a lease that only a sweep has removed.
   */
  lemma SweepsAreInvisible(steps: seq<Step>, i: nat)
    requires i < |steps| && Ordered(steps) && steps[i].Do? && !steps[i].call.op.Recv?
    ensures var s, u := At(EMPTY, steps, i), Unswept(EMPTY, steps, i);
      AnswerAt(EMPTY, steps, i) == Apply(u, steps[i].call).1 <==> !FindsSweptLease(s, u, steps[i].call.op)
  {
    RunsAgree(steps, i, steps[i].call.now);
    AnswersAgreeIff(At(EMPTY, steps, i), Unswept(EMPTY, steps, i), steps[i].call);
    hide Apply, Agree, FindsSweptLease;
  }

  /** If the op is a release, the order it names has no expired lease. */
  predicate ReleasesNoExpired(u: Rows, c: Call) {
    c.op.Release? && c.op.released.Text? && c.op.released.s in u.claims ==> u.claims[c.op.released.s].until > c.now
  }

  /** In particular none notices whose release, if it is one, names a lease still live, or an order with none. */
  lemma LiveReleasesAreSafe(steps: seq<Step>, i: nat)
    requires i < |steps| && Ordered(steps) && steps[i].Do? && !steps[i].call.op.Recv?
    requires ReleasesNoExpired(Unswept(EMPTY, steps, i), steps[i].call)
    ensures AnswerAt(EMPTY, steps, i) == Apply(Unswept(EMPTY, steps, i), steps[i].call).1
  {
    var c, s, u := steps[i].call, At(EMPTY, steps, i), Unswept(EMPTY, steps, i);
    RunsAgree(steps, i, c.now);
    if c.op.Release? && c.op.released.Text? { LiveIsInBoth(s, u, c.now, c.op.released.s); }
    SweepsAreInvisible(steps, i);
    hide Apply, Agree, At, Unswept;
  }

  /** A message the unswept store would show is one the swept store shows. */
  lemma SweepsHideNoMessage(steps: seq<Step>, i: nat, since: Json, now: int, m: Message)
    requires i <= |steps| && Ordered(steps) && (i > 0 ==> TimeOf(steps[i - 1]) <= now)
    requires m in Visible(Unswept(EMPTY, steps, i).messages, since, now)
    ensures m in Visible(At(EMPTY, steps, i).messages, since, now)
  {
    RunsAgree(steps, i, now);
    var s, u := At(EMPTY, steps, i), Unswept(EMPTY, steps, i);
    VisibleIsExact(s.messages, since, now, s.lastSeq);
    VisibleIsExact(u.messages, since, now, u.lastSeq);
  }
}
