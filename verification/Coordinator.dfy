/**
  The Durable Object class: its tables, its bucket row and its alarm, updated in
  place. Each method is proved against the function that specifies it; what
  whole runs of those functions guarantee is proved in the modules beside it.
 */
module Coordinators {
  import opened Prelude
  import opened Tables
  import opened Wakes
  import TB = TokenBucket

  class Coordinator {
    var joined: bool
    var messages: seq<Message>
    var lastSeq: nat
    var claims: map<string, Lease>
    var overview: Option<Overview>
    var bucket: Option<TB.Bucket>
    var alarm: Option<int>

    ghost predicate Valid()
      reads this
    {
      Sorted(messages, lastSeq)
    }

    function View(): Rows
      reads this
    {
      Rows(joined, messages, lastSeq, claims, overview)
    }

    constructor ()
      ensures Valid() && View() == EMPTY && alarm == None && bucket == None
    {
      joined, messages, lastSeq, claims, overview := false, [], 0, map[], None;
      bucket, alarm := None, None;
    }

    method Take(cost: real, perMin: real, now: int) returns (v: TB.Verdict)
      requires perMin > 0.0
      modifies `bucket
      ensures bucket.Some? && (bucket.value, v) == TB.TakeFrom(old(bucket), perMin, TB.Take(cost, now))
    {
      hide TB.Gain;
      var rate := TB.Rate(perMin);
      var tokens := perMin;
      if bucket.Some? {
        tokens := bucket.value.tokens + TB.Gain(now - bucket.value.at, perMin);
        if tokens >= perMin { tokens := perMin; }
      }
      var allowed := tokens >= cost;
      if allowed { tokens := tokens - cost; }
      bucket := Some(TB.Bucket(tokens, now));
      v := TB.Verdict(allowed, if allowed then 0 else TB.Ceil((cost - tokens) / rate / 1000.0));
    }

    /** Inserts the row, then deletes up to the key just past the newest 1000. */
    method InsertMessage(sender: string, provider: string, body: string, now: int, expiresAt: int) returns (num: nat)
      requires Valid()
      modifies `messages, `lastSeq
      ensures Valid()
      ensures num == lastSeq == old(lastSeq) + 1
      ensures messages == Newest(old(messages) + [Message(num, sender, provider, body, now, expiresAt)], MSGS_KEPT_MAX)
    {
      num := lastSeq + 1;
      var m := Message(num, sender, provider, body, now, expiresAt);
      SendKeepsOrder(messages, m, lastSeq, MSGS_KEPT_MAX);
      messages, lastSeq := messages + [m], num;
      if |messages| > MSGS_KEPT_MAX {
        var k := |messages| - 1 - MSGS_KEPT_MAX;
        RowsAfterAreASuffix(messages, k, lastSeq);
        messages := RowsAfter(messages, messages[k].num);
      }
    }

    /** Scans the table in key order until the page is full. */
    method SelectPage(since: Json, now: int, limit: nat) returns (msgs: seq<Message>)
      requires 1 <= limit
      ensures msgs == Page(messages, since, now, limit)
    {
      msgs := [];
      var i := 0;
      while i < |messages| && |msgs| < limit
        invariant i <= |messages|
        invariant msgs == Visible(messages[..i], since, now) && |msgs| <= limit
      {
        var m := messages[i];
        assert messages[..i + 1][..i] == messages[..i];
        if After(m.num, since) && m.expiresAt > now { msgs := msgs + [m]; }
        i := i + 1;
      }
      VisiblePrefix(messages, i, since, now);
      if i == |messages| { assert messages[..i] == messages; }
    }

    function Freshness(clientHead: Json, c: Call): Freshness
      reads this
    {
      FreshnessOf(overview, clientHead, c.now, c.staleAfterS)
    }

    /** Stores an overview and its sync under `sha`, unless it is too large. */
    method StoreOverview(text: string, sha: string, now: int) returns (ok: bool)
      modifies `overview
      ensures ok <==> |text| <= OVERVIEW_MAX
      ensures overview == if ok then Some(Stored(text, sha, now)) else old(overview)
    {
      ok := |text| <= OVERVIEW_MAX;
      if ok { overview := Some(Overview(Some(text), Some(sha), sha, now, 0)); }
    }

    method ApplyOverviewOp(c: Call) returns (a: Answer)
      requires joined && (c.op.PutOverview? || c.op.GetOverview? || c.op.Bump?)
      modifies `overview
      ensures (View(), a) == ApplyOverview(old(View()), c)
    {
      match c.op {
        case PutOverview(shaField, text) =>
          var sha := Str(shaField, 64);
          if sha.None? { return BadRequest; }
          var ok := StoreOverview(if text.Some? then text.value else "null", sha.value, c.now);
          if !ok { return OverviewTooLarge; }
          a := Synced(Freshness(Absent, c));
        case GetOverview(clientHead) =>
          var there := overview.Some?;
          a := OverviewIs(if there && overview.value.body.Some? then overview.value.body.value else "null",
                          if there then overview.value.bodySha else None, Freshness(clientHead, c));
        case Bump(headField, text) =>
          var head := Str(headField, 64);
          if head.None? { return BadRequest; }
          if text.Some? {
            var ok := StoreOverview(text.value, head.value, c.now);
            if !ok { return OverviewTooLarge; }
            overview := Some(overview.value.(staleness := overview.value.staleness + 1));
          } else if overview.None? {
            overview := Some(Overview(None, None, head.value, c.now, 1));
          } else {
            var staleness := overview.value.staleness + 1;
            overview := Some(overview.value.(syncedSha := head.value, syncedAt := c.now, staleness := staleness));
          }
          a := Synced(Freshness(Absent, c));
      }
    }

    method ApplyOp(c: Call) returns (a: Answer)
      requires Valid()
      modifies `joined, `messages, `lastSeq, `claims, `overview
      ensures Valid()
      ensures (View(), a) == Apply(old(View()), c)
    {
      if c.op.Join? {
        a := Joined(!joined, Freshness(Absent, c));
        joined := true;
        return;
      }
      if !joined { return NotJoined; }
      if c.op.PutOverview? || c.op.GetOverview? || c.op.Bump? {
        a := ApplyOverviewOp(c);
        return;
      }
      match c.op {
        case Send(bodyField, providerField, ttlField) =>
          var body, provider := Str(bodyField, MSG_BODY_MAX), Str(providerField, 64);
          if body.None? || provider.None? { return BadRequest; }
          var ttl := ClampTtl(ttlField, MSG_TTL_DEFAULT_S, MSG_TTL_MAX_S);
          var num := InsertMessage(c.identity, provider.value, body.value, c.now, c.now + ttl * 1000);
          a := Sent(num, c.now + ttl * 1000, ttl);
        case Recv(sinceField, limitField) =>
          var since := Since(sinceField);
          var msgs := SelectPage(since, c.now, PageLimit(limitField));
          a := Received(msgs, if |msgs| > 0 then Number(msgs[|msgs| - 1].num as real) else since, Freshness(Absent, c));
        case Claim(orderField, ttlField) =>
          a := ApplyClaimOp(orderField, ttlField, c);
        case Release(orderField, tokenField) =>
          var ord, token := Str(orderField, 128), Str(tokenField, 64);
          if ord.None? || token.None? { return BadRequest; }
          var deleted := ord.value in claims && claims[ord.value].token == token.value;
          if deleted { claims := claims - {ord.value}; }
          a := Released(deleted);
        case Claims =>
          a := LiveClaims(Listing(claims, c.now), Freshness(Absent, c));
        case _ =>
          a := UnknownOp;
      }
    }

    method ApplyClaimOp(orderField: Json, ttlField: Json, c: Call) returns (a: Answer)
      requires Valid() && joined && c.op == Claim(orderField, ttlField)
      modifies `claims
      ensures (View(), a) == Apply(old(View()), c)
    {
      var ord := Str(orderField, 128);
      if ord.None? { return BadRequest; }
      var ttl := ClampTtl(ttlField, CLAIM_TTL_DEFAULT_S, CLAIM_TTL_MAX_S);
      var held := ord.value in claims && claims[ord.value].until > c.now;
      if held && claims[ord.value].holder != c.identity {
        return Held(claims[ord.value].holder, claims[ord.value].until);
      }
      if !held && |Live(claims, c.now)| >= CLAIMS_KEPT_MAX { return TooManyClaims; }
      var until := c.now + ttl * 1000;
      claims := claims[ord.value := Lease(c.identity, c.uuid, until)];
      a := Granted(c.uuid, until, ttl);
    }

    method ScheduleSweep()
      modifies `alarm
      ensures alarm == Schedule(View(), old(alarm))
    {
      var expiries := Expiries(View());
      if expiries == {} { return; }
      var next := Earliest(expiries);
      if alarm.None? || next < alarm.value { alarm := Some(next); }
    }

    method ApplyOps(calls: seq<Call>) returns (out: seq<Answer>)
      requires Valid()
      modifies `joined, `messages, `lastSeq, `claims, `overview, `alarm
      ensures Valid()
      ensures Clocked(View(), alarm) == ApplyMany(old(Clocked(View(), alarm)), calls)
      ensures |out| == |calls|
      ensures forall k :: 0 <= k < |calls| ==> out[k] == Apply(ApplyAll(old(View()), calls, k), calls[k]).1
    {
      hide Apply, Schedule;
      out := [];
      for k := 0 to |calls|
        invariant Valid() && alarm == old(alarm) && |out| == k
        invariant View() == ApplyAll(old(View()), calls, k)
        invariant forall i :: 0 <= i < k ==> out[i] == Apply(ApplyAll(old(View()), calls, i), calls[i]).1
      {
        var a := ApplyOp(calls[k]);
        out := out + [a];
      }
      ScheduleSweep();
    }

    /** The alarm going off: the platform has cleared the pending alarm by now. */
    method AlarmHandler(now: int)
      requires Valid()
      modifies `messages, `claims, `alarm
      ensures Valid()
      ensures Clocked(View(), alarm) == WakeUp(old(Clocked(View(), alarm)), now)
    {
      hide Schedule, Visible;
      alarm := None;
      VisibleIsExact(messages, NegInfinity, now, lastSeq);
      messages := Unexpired(messages, now);
      claims := Live(claims, now);
      ScheduleSweep();
    }
  }

  /** The matches among the first rows are the first matches. */
  lemma {:induction false} VisiblePrefix(rows: seq<Message>, i: nat, since: Json, now: int)
    requires i <= |rows|
    ensures Visible(rows[..i], since, now) <= Visible(rows, since, now)
  {
    if i == |rows| {
      assert rows[..i] == rows;
    } else {
      var init := rows[..|rows| - 1];
      assert rows[..i] == init[..i];
      VisiblePrefix(init, i, since, now);
    }
  }
}
