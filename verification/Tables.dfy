/**
  The tables of one coordinator namespace and what one op does to them.

  Every op is a pure function of the tables, the op, the caller's identity, the
  clock reading and the UUID the op would draw. The class in Coordinator.dfy
  updates its rows step by step and is proved against this function.
 */
module Tables {
  import opened Prelude

  const MSG_TTL_DEFAULT_S := 6 * 3600
  const MSG_TTL_MAX_S := 24 * 3600
  const CLAIM_TTL_DEFAULT_S := 600
  const CLAIM_TTL_MAX_S := 900
  const MSG_BODY_MAX := 8 * 1024
  const MSGS_KEPT_MAX := 1000
  const CLAIMS_KEPT_MAX := 500
  const RECV_LIMIT_MAX := 100
  const OVERVIEW_MAX := 256 * 1024

  /** A field of an op, as parsed JSON delivers it: an overlong literal such as 1e999 is an infinity. */
  datatype Json = Absent | Text(s: string) | Number(n: real) | PosInfinity | NegInfinity | Other

  /** An overview is the text `JSON.stringify` gives for it, and `None` where the op has none. */
  datatype Op =
    | Join
    | Send(body: Json, provider: Json, ttl: Json)
    | Recv(since: Json, limit: Json)
    | Claim(order: Json, claimTtl: Json)
    | Release(released: Json, token: Json)
    | Claims
    | PutOverview(sha: Json, overview: Option<string>)
    | GetOverview(clientHead: Json)
    | Bump(head: Json, newOverview: Option<string>)
    | Unknown(name: string)

  /**
    One op as the Durable Object executes it. `uuid` is what `crypto.randomUUID`
    would return, and `staleAfterS` the deployment's STALE_AFTER_S.
   */
  datatype Call = Call(op: Op, identity: string, now: int, uuid: string, staleAfterS: real)

  datatype Message = Message(num: nat, sender: string, provider: string, body: string, sentAt: int, expiresAt: int)
  datatype Lease = Lease(holder: string, token: string, until: int)

  /** `lastSeq` is the AUTOINCREMENT high-water mark: it outlives the rows. */
  datatype Rows = Rows(
    joined: bool, messages: seq<Message>, lastSeq: nat, claims: map<string, Lease>, overview: Option<Overview>)

  /** The overview row: the last overview and its sha, the last sync, and the bumps since the overview was put. */
  datatype Overview = Overview(body: Option<string>, bodySha: Option<string>, syncedSha: string, syncedAt: int, staleness: nat)

  datatype Freshness = Freshness(
    syncedSha: Option<string>, syncedAt: Option<int>, ageS: Option<int>, staleness: nat, mightBeOutdated: bool)

  datatype Answer =
    | Joined(created: bool, joinFreshness: Freshness)
    | NotJoined
    | BadRequest
    | UnknownOp
    | OverviewTooLarge
    | Sent(num: nat, expiresAt: int, ttlS: int)
    | Received(msgs: seq<Message>, next: Json, recvFreshness: Freshness)
    | Granted(token: string, until: int, ttlS: int)
    | Held(holder: string, until: int)
    | TooManyClaims
    | Released(released: bool)
    | LiveClaims(live: map<string, (string, int)>, claimsFreshness: Freshness)
    | Synced(syncFreshness: Freshness)
    | OverviewIs(body: string, bodySha: Option<string>, freshness: Freshness)

  const EMPTY := Rows(false, [], 0, map[], None)

  // ---------------------------------------------------------------- op fields

  function ClampTtl(v: Json, dflt: int, max: int): (ttl: int)
    requires 1 <= dflt <= max
    ensures 1 <= ttl <= max
    ensures v.Number? && 1.0 <= v.n < (max + 1) as real ==> ttl as real <= v.n < ttl as real + 1.0
    ensures v.Number? && v.n < 1.0 ==> ttl == 1
    ensures v.Number? && v.n >= max as real ==> ttl == max
    ensures !v.Number? ==> ttl == dflt
  {
    var n := if v.Number? then v.n.Floor else dflt;
    Min(Max(n, 1), max)
  }

  function Str(v: Json, max: nat): Option<string> {
    if v.Text? && 0 < |v.s| <= max then Some(v.s) else None
  }

  function Since(v: Json): Json {
    if v.Number? || v.PosInfinity? || v.NegInfinity? then v else Number(0.0)
  }

  function PageLimit(v: Json): (limit: nat)
    ensures 1 <= limit <= 100
    ensures v.Number? && 1.0 <= v.n < 101.0 ==> limit as real <= v.n < limit as real + 1.0
    ensures (v.Number? && v.n < 1.0) || v.NegInfinity? ==> limit == 1
    ensures !v.NegInfinity? && (v.Number? ==> v.n >= 100.0) ==> limit == 100
  {
    var n := match v
      case Number(n) => n.Floor
      case NegInfinity => 0
      case _ => RECV_LIMIT_MAX;
    Min(Max(n, 1), RECV_LIMIT_MAX)
  }

  function Min(a: int, b: int): int { if a < b then a else b }
  function Max(a: int, b: int): int { if a < b then b else a }

  // ------------------------------------------------------------------ messages

  predicate After(num: nat, since: Json) {
    match since
    case Number(n) => num as real > n
    case NegInfinity => true
    case _ => false
  }

  /** The rows a poll may return: newer than the cursor and not expired. */
  function Visible(rows: seq<Message>, since: Json, now: int): seq<Message> {
    if rows == [] then []
    else
      var rest := Visible(rows[..|rows| - 1], since, now);
      var m := rows[|rows| - 1];
      if After(m.num, since) && m.expiresAt > now then rest + [m] else rest
  }

  function Newest(rows: seq<Message>, keep: nat): seq<Message> {
    if |rows| <= keep then rows else rows[|rows| - keep..]
  }

  function Unexpired(rows: seq<Message>, now: int): seq<Message> {
    Visible(rows, NegInfinity, now)
  }

  function Page(rows: seq<Message>, since: Json, now: int, limit: nat): seq<Message> {
    var all := Visible(rows, since, now);
    if |all| <= limit then all else all[..limit]
  }

  /** The primary key order of the messages table, under its AUTOINCREMENT mark. */
  ghost predicate Sorted(rows: seq<Message>, last: nat) {
    && (forall i, j :: 0 <= i < j < |rows| ==> rows[i].num < rows[j].num)
    && (forall i :: 0 <= i < |rows| ==> 1 <= rows[i].num <= last)
  }

  // -------------------------------------------------------------------- claims

  function Live(claims: map<string, Lease>, now: int): map<string, Lease> {
    map o | o in claims && claims[o].until > now :: claims[o]
  }

  function Listing(claims: map<string, Lease>, now: int): map<string, (string, int)> {
    map o | o in claims && claims[o].until > now :: (claims[o].holder, claims[o].until)
  }

  // ------------------------------------------------------------------ overview

  /** `clientHead` matters only if it is a non-empty text. */
  function FreshnessOf(row: Option<Overview>, clientHead: Json, now: int, staleAfterS: real): Freshness {
    match row
    case None => Freshness(None, None, None, 0, true)
    case Some(o) =>
      var age := Max(0, (now - o.syncedAt) / 1000);
      Freshness(Some(o.syncedSha), Some(o.syncedAt), Some(age), o.staleness,
                age as real > staleAfterS || o.bodySha != Some(o.syncedSha)
                || (clientHead.Text? && clientHead.s != "" && clientHead.s != o.syncedSha))
  }

  function Fresh(t: Rows, c: Call): Freshness { FreshnessOf(t.overview, Absent, c.now, c.staleAfterS) }

  function Stored(text: string, sha: string, now: int): Overview { Overview(Some(text), Some(sha), sha, now, 0) }

  /** A row there keeps its overview; a missing one begins without. */
  function Resynced(row: Option<Overview>, head: string, now: int): Overview {
    match row
    case None => Overview(None, None, head, now, 1)
    case Some(o) => Overview(o.body, o.bodySha, head, now, o.staleness + 1)
  }

  function ApplyOverview(t: Rows, c: Call): (Rows, Answer)
    requires c.op.PutOverview? || c.op.GetOverview? || c.op.Bump?
  {
    match c.op
    case PutOverview(shaField, overview) =>
      var sha := Str(shaField, 64);
      var text := if overview.Some? then overview.value else "null";
      if sha.None? then (t, BadRequest)
      else if |text| > OVERVIEW_MAX then (t, OverviewTooLarge)
      else
        var t' := t.(overview := Some(Stored(text, sha.value, c.now)));
        (t', Synced(Fresh(t', c)))
    case GetOverview(clientHead) =>
      var body := if t.overview.Some? && t.overview.value.body.Some? then t.overview.value.body.value else "null";
      var sha := if t.overview.Some? then t.overview.value.bodySha else None;
      (t, OverviewIs(body, sha, FreshnessOf(t.overview, clientHead, c.now, c.staleAfterS)))
    case Bump(headField, overview) =>
      var head := Str(headField, 64);
      if head.None? then (t, BadRequest)
      else if overview.Some? && |overview.value| > OVERVIEW_MAX then (t, OverviewTooLarge)
      else
        var t' := t.(overview := Some(
          if overview.Some? then Stored(overview.value, head.value, c.now).(staleness := 1)
          else Resynced(t.overview, head.value, c.now)));
        (t', Synced(Fresh(t', c)))
  }

  // ------------------------------------------------------------------ one op

  function ApplySend(t: Rows, body: string, provider: string, ttl: int, c: Call): (Rows, Answer) {
    var m := Message(t.lastSeq + 1, c.identity, provider, body, c.now, c.now + ttl * 1000);
    (t.(messages := Newest(t.messages + [m], MSGS_KEPT_MAX), lastSeq := t.lastSeq + 1),
     Sent(m.num, m.expiresAt, ttl))
  }

  /** What a poll returns, and the cursor to go on with. */
  function RecvPage(t: Rows, since: Json, limit: nat, now: int): (seq<Message>, Json) {
    var msgs := Page(t.messages, since, now, limit);
    (msgs, if msgs == [] then since else Number(msgs[|msgs| - 1].num as real))
  }

  function ApplyRecv(t: Rows, c: Call): Answer
    requires c.op.Recv?
  {
    var page := RecvPage(t, Since(c.op.since), PageLimit(c.op.limit), c.now);
    Received(page.0, page.1, Fresh(t, c))
  }

  function ApplyClaim(t: Rows, ord: string, ttl: int, c: Call): (Rows, Answer) {
    var live := Live(t.claims, c.now);
    if ord in live && live[ord].holder != c.identity then
      (t, Held(live[ord].holder, live[ord].until))
    else if ord !in live && |live| >= CLAIMS_KEPT_MAX then
      (t, TooManyClaims)
    else
      var lease := Lease(c.identity, c.uuid, c.now + ttl * 1000);
      (t.(claims := t.claims[ord := lease]), Granted(lease.token, lease.until, ttl))
  }

  function ApplyRelease(t: Rows, ord: string, token: string): (Rows, Answer) {
    if ord in t.claims && t.claims[ord].token == token
    then (t.(claims := t.claims - {ord}), Released(true))
    else (t, Released(false))
  }

  function Apply(t: Rows, c: Call): (Rows, Answer) {
    if c.op.Join? then (t.(joined := true), Joined(!t.joined, Fresh(t, c)))
    else if !t.joined then (t, NotJoined)
    else match c.op
      case Join => (t, Joined(false, Fresh(t, c)))
      case Send(body, provider, ttl) =>
        var b, p := Str(body, MSG_BODY_MAX), Str(provider, 64);
        if b.None? || p.None? then (t, BadRequest)
        else ApplySend(t, b.value, p.value, ClampTtl(ttl, MSG_TTL_DEFAULT_S, MSG_TTL_MAX_S), c)
      case Recv(_, _) => (t, ApplyRecv(t, c))
      case Claim(order, ttl) =>
        var ord := Str(order, 128);
        if ord.None? then (t, BadRequest)
        else ApplyClaim(t, ord.value, ClampTtl(ttl, CLAIM_TTL_DEFAULT_S, CLAIM_TTL_MAX_S), c)
      case Release(order, token) =>
        var ord, tok := Str(order, 128), Str(token, 64);
        if ord.None? || tok.None? then (t, BadRequest) else ApplyRelease(t, ord.value, tok.value)
      case Claims => (t, LiveClaims(Listing(t.claims, c.now), Fresh(t, c)))
      case PutOverview(_, _) => ApplyOverview(t, c)
      case GetOverview(_) => ApplyOverview(t, c)
      case Bump(_, _) => ApplyOverview(t, c)
      case Unknown(_) => (t, UnknownOp)
  }

  /** The alarm's deletions. */
  function Sweep(t: Rows, now: int): Rows {
    t.(messages := Unexpired(t.messages, now), claims := Live(t.claims, now))
  }

  // ---------------------------------------------------------------------- runs

  datatype Step = Do(call: Call) | Wake(at: int)

  function TimeOf(s: Step): int { if s.Do? then s.call.now else s.at }

  function Next(t: Rows, s: Step): Rows {
    if s.Do? then Apply(t, s.call).0 else Sweep(t, s.at)
  }

  /** The tables before step `i` of a run that starts from `t`. */
  function At(t: Rows, steps: seq<Step>, i: nat): Rows
    requires i <= |steps|
  {
    if i == 0 then t else Next(At(t, steps, i - 1), steps[i - 1])
  }

  /** What the op at step `i` answers. */
  function AnswerAt(t: Rows, steps: seq<Step>, i: nat): Answer
    requires i < |steps| && steps[i].Do?
  {
    Apply(At(t, steps, i), steps[i].call).1
  }

  ghost predicate Ordered(steps: seq<Step>) {
    forall i, j :: 0 <= i < j < |steps| ==> TimeOf(steps[i]) <= TimeOf(steps[j])
  }

  // ------------------------------------------------- what the row functions mean

  /** A filtered table holds exactly the qualifying rows, still in key order. */
  lemma {:induction false} VisibleIsExact(rows: seq<Message>, since: Json, now: int, last: nat)
    requires Sorted(rows, last)
    ensures Sorted(Visible(rows, since, now), last)
    ensures |Visible(rows, since, now)| <= |rows|
    ensures forall m :: m in Visible(rows, since, now) <==> m in rows && After(m.num, since) && m.expiresAt > now
  {
    if rows != [] {
      var init, m := rows[..|rows| - 1], rows[|rows| - 1];
      SortedInit(rows, last);
      VisibleIsExact(init, since, now, m.num - 1);
      hide Sorted, After;
      SortedSnoc(Visible(init, since, now), m, last);
      assert rows == init + [m];
    }
  }

  lemma SortedInit(rows: seq<Message>, last: nat)
    requires Sorted(rows, last) && rows != []
    ensures var m := rows[|rows| - 1]; 1 <= m.num <= last && Sorted(rows[..|rows| - 1], m.num - 1)
  {}

  lemma SortedSnoc(rows: seq<Message>, m: Message, last: nat)
    requires 1 <= m.num <= last && Sorted(rows, m.num - 1)
    ensures Sorted(rows, last) && Sorted(rows + [m], last)
  {}

  /** A row that does not qualify is missing from what a filter leaves. */
  lemma {:induction false} VisibleDrops(rows: seq<Message>, since: Json, now: int, m: Message)
    requires m in rows && !(After(m.num, since) && m.expiresAt > now)
    ensures |Visible(rows, since, now)| < |rows|
  {
    var init, l := rows[..|rows| - 1], rows[|rows| - 1];
    assert rows == init + [l];
    VisibleLength(init, since, now);
    if m in init {
      VisibleDrops(init, since, now, m);
    }
  }

  lemma VisibleLength(rows: seq<Message>, since: Json, now: int)
    ensures |Visible(rows, since, now)| <= |rows|
  {}

  /** SQL's `seq <= cutoff` deletion on a table in key order is a suffix. */
  lemma {:induction false} RowsAfterAreASuffix(rows: seq<Message>, k: nat, last: nat)
    requires Sorted(rows, last) && k < |rows|
    ensures RowsAfter(rows, rows[k].num) == rows[k + 1..]
  {
    var init, m := rows[..|rows| - 1], rows[|rows| - 1];
    assert rows == init + [m];
    if k == |init| {
      RowsAfterNone(init, m.num);
    } else {
      RowsAfterAreASuffix(init, k, last);
      assert rows[k + 1..] == init[k + 1..] + [m];
    }
  }

  lemma {:induction false} RowsAfterNone(rows: seq<Message>, cutoff: nat)
    requires forall i :: 0 <= i < |rows| ==> rows[i].num <= cutoff
    ensures RowsAfter(rows, cutoff) == []
  {
    if rows != [] { RowsAfterNone(rows[..|rows| - 1], cutoff); }
  }

  /** What `DELETE FROM messages WHERE seq <= cutoff` leaves. */
  function RowsAfter(rows: seq<Message>, cutoff: nat): seq<Message> {
    if rows == [] then []
    else
      var rest := RowsAfter(rows[..|rows| - 1], cutoff);
      var m := rows[|rows| - 1];
      if m.num <= cutoff then rest else rest + [m]
  }

  /** A send appends under the next key and keeps the newest rows. */
  lemma SendKeepsOrder(rows: seq<Message>, m: Message, last: nat, keep: nat)
    requires Sorted(rows, last) && m.num == last + 1
    ensures Sorted(rows + [m], last + 1)
    ensures Sorted(Newest(rows + [m], keep), last + 1)
  {}

  /**
    A field the op needs is not a non-empty text within its limit: the body and
    provider of a send, the order of a claim, the order and token of a release,
    the sha of an overview, the head of a bump.
   */
  predicate Malformed(op: Op) {
    match op
    case Send(body, provider, _) => !TextWithin(body, 8192) || !TextWithin(provider, 64)
    case Claim(order, _) => !TextWithin(order, 128)
    case Release(order, token) => !TextWithin(order, 128) || !TextWithin(token, 64)
    case PutOverview(sha, _) => !TextWithin(sha, 64)
    case Bump(head, _) => !TextWithin(head, 64)
    case _ => false
  }

  /** The overview that the op brings. A put without one puts null. */
  function Brought(op: Op): Option<string> {
    match op
    case PutOverview(_, overview) => Some(if overview.Some? then overview.value else "null")
    case Bump(_, overview) => overview
    case _ => None
  }

  predicate Oversized(op: Op) { Brought(op).Some? && |Brought(op).value| > 262144 }

  predicate TextWithin(v: Json, max: nat) { v.Text? && v.s != "" && |v.s| <= max }

  /** The error answers, one for one with their causes; none of them changes a table. */
  lemma RefusedIff(t: Rows, c: Call)
    ensures var (t', a) := Apply(t, c);
      && (a == NotJoined <==> !t.joined && !c.op.Join?)
      && (a == BadRequest <==> t.joined && Malformed(c.op))
      && (a == UnknownOp <==> t.joined && c.op.Unknown?)
      && (a == OverviewTooLarge <==> t.joined && !Malformed(c.op) && Oversized(c.op))
      && (a in {NotJoined, BadRequest, UnknownOp, OverviewTooLarge} ==> t' == t)
  {}

  /** Only an accepted send touches the messages, and it adds the sender's own words under the next key. */
  lemma MessagesAfter(t: Rows, c: Call)
    ensures var (t', a) := Apply(t, c);
      if a.Sent? then
        && c.op.Send? && c.op.body.Text? && c.op.provider.Text? && a.num == t'.lastSeq == t.lastSeq + 1 && a.expiresAt > c.now
        && var m := Message(a.num, c.identity, c.op.provider.s, c.op.body.s, c.now, a.expiresAt);
        t'.messages == Newest(t.messages + [m], 1000)
      else t'.messages == t.messages && t'.lastSeq == t.lastSeq
  {}

  /** Every step keeps the messages in key order under a mark that never goes back. */
  lemma StepKeepsOrder(t: Rows, s: Step)
    requires Sorted(t.messages, t.lastSeq)
    ensures Sorted(Next(t, s).messages, Next(t, s).lastSeq)
    ensures t.lastSeq <= Next(t, s).lastSeq
  {
    if s.Wake? {
      VisibleIsExact(t.messages, NegInfinity, s.at, t.lastSeq);
    } else {
      MessagesAfter(t, s.call);
      var (t', a) := Apply(t, s.call);
      if a.Sent? {
        var m := Message(a.num, s.call.identity, s.call.op.provider.s, s.call.op.body.s, s.call.now, a.expiresAt);
        SendKeepsOrder(t.messages, m, t.lastSeq, MSGS_KEPT_MAX);
      }
    }
  }

  lemma {:induction false} RunKeepsOrder(t: Rows, steps: seq<Step>, i: nat)
    requires Sorted(t.messages, t.lastSeq) && i <= |steps|
    ensures Sorted(At(t, steps, i).messages, At(t, steps, i).lastSeq)
  {
    if i > 0 {
      RunKeepsOrder(t, steps, i - 1);
      StepKeepsOrder(At(t, steps, i - 1), steps[i - 1]);
    }
  }

  lemma StepStaysJoined(t: Rows, s: Step)
    requires t.joined
    ensures Next(t, s).joined
  {}

  /** Row `m` is what step `k` sent: the sender's own words, under the number the sender was told. */
  ghost predicate SentBy(steps: seq<Step>, k: nat, m: Message)
    requires k < |steps|
  {
    && steps[k].Do? && steps[k].call.op.Send?
    && var c := steps[k].call;
    && c.op.body == Text(m.body) && c.op.provider == Text(m.provider)
    && c.identity == m.sender && c.now == m.sentAt
    && var a := AnswerAt(EMPTY, steps, k);
    a.Sent? && a.num == m.num && a.expiresAt == m.expiresAt == m.sentAt + 1000 * a.ttlS && 1 <= a.ttlS <= MSG_TTL_MAX_S
  }

  lemma RowsAfterOp(t: Rows, c: Call, m: Message)
    requires m in Apply(t, c).0.messages && m !in t.messages
    ensures var a := Apply(t, c).1;
      && c.op.Send? && c.op.body == Text(m.body) && c.op.provider == Text(m.provider)
      && c.identity == m.sender && c.now == m.sentAt && a.Sent? && a.num == m.num
      && a.expiresAt == m.expiresAt == m.sentAt + 1000 * a.ttlS && 1 <= a.ttlS <= MSG_TTL_MAX_S
  {}

  lemma SweepAddsNoRow(steps: seq<Step>, i: nat, m: Message)
    requires 0 < i <= |steps| && m in At(EMPTY, steps, i).messages
    ensures steps[i - 1].Wake? ==> m in At(EMPTY, steps, i - 1).messages
    ensures steps[i - 1].Do? ==> At(EMPTY, steps, i) == Apply(At(EMPTY, steps, i - 1), steps[i - 1].call).0
  {
    RunKeepsOrder(EMPTY, steps, i - 1);
    var before, s := At(EMPTY, steps, i - 1), steps[i - 1];
    hide Apply, Visible;
    if s.Wake? { VisibleIsExact(before.messages, NegInfinity, s.at, before.lastSeq); }
  }

  /** Nothing is made up: every row of every run from an empty store was sent, as it stands, by one op of the run. */
  lemma {:induction false} RowsWereSent(steps: seq<Step>, i: nat, m: Message)
    requires i <= |steps| && m in At(EMPTY, steps, i).messages
    ensures exists k :: 0 <= k < i && SentBy(steps, k, m)
  {
    var before, s := At(EMPTY, steps, i - 1), steps[i - 1];
    SweepAddsNoRow(steps, i, m);
    if m in before.messages {
      hide At, SentBy, Apply;
      RowsWereSent(steps, i - 1, m);
    } else {
      RowsAfterOp(before, s.call, m);
      hide Apply;
      assert SentBy(steps, i - 1, m);
    }
  }
}
