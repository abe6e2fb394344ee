/** Claims over whole runs of one namespace: exclusion, dead tokens, the cap. */
module Leases {
  import opened Prelude
  import opened Tables

  predicate IsClaim(s: Step, ord: string) {
    s.Do? && s.call.op.Claim? && s.call.op.order == Text(ord)
  }

  predicate IsRelease(s: Step, ord: string, token: string) {
    s.Do? && s.call.op.Release? && s.call.op.released == Text(ord) && s.call.op.token == Text(token)
  }

  /** Step `i` granted `ord`. */
  predicate Grants(t: Rows, steps: seq<Step>, i: nat, ord: string)
    requires i < |steps|
  {
    IsClaim(steps[i], ord) && AnswerAt(t, steps, i).Granted?
  }

  /** Step `k` is the holder of grant `i` claiming again, or a release that shows that grant's token. */
  predicate GivesUp(steps: seq<Step>, i: nat, k: nat, ord: string)
    requires i < |steps| && k < |steps| && steps[i].Do?
  {
    || (IsClaim(steps[k], ord) && steps[k].call.identity == steps[i].call.identity)
    || IsRelease(steps[k], ord, steps[i].call.uuid)
  }

  /** What one op does to the lease on `ord`. */
  lemma LeaseAfter(t: Rows, c: Call, ord: string)
    ensures var (t', a) := Apply(t, c);
      if IsClaim(Do(c), ord) && a.Granted? then
        && ord in t'.claims && t'.claims[ord] == Lease(c.identity, c.uuid, a.until) && a.token == c.uuid
        && a.until == c.now + 1000 * a.ttlS && 1 <= a.ttlS <= CLAIM_TTL_MAX_S
        && (ord in t.claims && t.claims[ord].until > c.now ==> t.claims[ord].holder == c.identity)
      else if ord in t.claims && IsRelease(Do(c), ord, t.claims[ord].token) && a == Released(true) then
        ord !in t'.claims
      else
        (ord in t'.claims <==> ord in t.claims) && (ord in t.claims ==> t'.claims[ord] == t.claims[ord])
  {}

  /** A sweep removes a lease exactly when it has expired. */
  lemma LeaseAfterSweep(t: Rows, now: int, ord: string)
    ensures ord in Sweep(t, now).claims <==> ord in t.claims && t.claims[ord].until > now
    ensures ord in Sweep(t, now).claims ==> Sweep(t, now).claims[ord] == t.claims[ord]
  {}

  lemma {:induction false} LeaseStands(t: Rows, steps: seq<Step>, i: nat, j: nat, ord: string)
    requires i < j <= |steps| && Grants(t, steps, i, ord)
    requires forall k :: i < k < j ==> TimeOf(steps[k]) < AnswerAt(t, steps, i).until && !GivesUp(steps, i, k, ord)
    ensures var claims := At(t, steps, j).claims;
      ord in claims && claims[ord] == Lease(steps[i].call.identity, steps[i].call.uuid, AnswerAt(t, steps, i).until)
  {
    if j == i + 1 {
      LeaseAfter(At(t, steps, i), steps[i].call, ord);
    } else {
      LeaseStands(t, steps, i, j - 1, ord);
      assert !GivesUp(steps, i, j - 1, ord);
      hide AnswerAt;
      LeaseHolds(t, steps, j - 1, ord, steps[i].call, AnswerAt(t, steps, i).until);
    }
  }

  /** A step before the expiry that is no claim of the holder's and no release with its token leaves the lease. */
  lemma LeaseHolds(t: Rows, steps: seq<Step>, j: nat, ord: string, c: Call, until: int)
    requires j < |steps| && TimeOf(steps[j]) < until
    requires ord in At(t, steps, j).claims && At(t, steps, j).claims[ord] == Lease(c.identity, c.uuid, until)
    requires !(IsClaim(steps[j], ord) && steps[j].call.identity == c.identity) && !IsRelease(steps[j], ord, c.uuid)
    ensures var claims := At(t, steps, j + 1).claims; ord in claims && claims[ord] == Lease(c.identity, c.uuid, until)
  {
    var before, s := At(t, steps, j), steps[j];
    if s.Do? { LeaseAfter(before, s.call, ord); } else { LeaseAfterSweep(before, s.at, ord); }
    hide Apply, Sweep;
  }

  /**
    Lease safety. After `ord` is granted until `u`, nobody else is granted it
    before `u` unless, in between, the holder claimed it again or its token was
    released. Sweeps are steps of the run like any other.
   */
  lemma LeaseSafety(t: Rows, steps: seq<Step>, i: nat, j: nat, ord: string)
    requires i < j < |steps| && Ordered(steps)
    requires Grants(t, steps, i, ord) && Grants(t, steps, j, ord)
    requires steps[j].call.identity != steps[i].call.identity
    requires TimeOf(steps[j]) < AnswerAt(t, steps, i).until
    ensures AnswerAt(t, steps, i).token == steps[i].call.uuid
    ensures exists k :: i < k < j && GivesUp(steps, i, k, ord)
  {
    LeaseAfter(At(t, steps, i), steps[i].call, ord);
    if forall k :: i < k < j ==> !GivesUp(steps, i, k, ord) {
      forall k | i < k < j ensures TimeOf(steps[k]) < AnswerAt(t, steps, i).until {
        assert TimeOf(steps[k]) <= TimeOf(steps[j]);
      }
      LeaseStands(t, steps, i, j, ord);
      LeaseAfter(At(t, steps, j), steps[j].call, ord);
      assert false;
    }
  }

  /** While the lease stands, every rival's claim is told who holds it and until when. */
  lemma RivalIsTold(t: Rows, steps: seq<Step>, i: nat, j: nat, ord: string)
    requires i < j < |steps| && Ordered(steps) && Grants(t, steps, i, ord)
    requires IsClaim(steps[j], ord) && steps[j].call.identity != steps[i].call.identity
    requires TimeOf(steps[j]) < AnswerAt(t, steps, i).until
    requires forall k :: i < k < j ==> !GivesUp(steps, i, k, ord)
    ensures AnswerAt(t, steps, j) == Held(steps[i].call.identity, AnswerAt(t, steps, i).until)
    ensures At(t, steps, j + 1) == At(t, steps, j)
  {
    forall k | i < k < j ensures TimeOf(steps[k]) < AnswerAt(t, steps, i).until {
      assert TimeOf(steps[k]) <= TimeOf(steps[j]);
    }
    LeaseStands(t, steps, i, j, ord);
    StaysJoined(t, steps, i, j);
  }

  lemma {:induction false} StaysJoined(t: Rows, steps: seq<Step>, i: nat, j: nat)
    requires i < j <= |steps| && steps[i].Do? && AnswerAt(t, steps, i) != NotJoined
    ensures At(t, steps, j).joined
  {
    if j > i + 1 {
      StaysJoined(t, steps, i, j - 1);
      StepStaysJoined(At(t, steps, j - 1), steps[j - 1]);
      hide Next;
    }
  }

  // ------------------------------------------------------- claims by history alone

  /** Step `k` ended the grant of step `i`: the order was granted again, or its token released it. */
  predicate EndsGrant(steps: seq<Step>, i: nat, k: nat, ord: string)
    requires i < |steps| && k < |steps| && steps[i].Do?
  {
    || Grants(EMPTY, steps, k, ord)
    || (IsRelease(steps[k], ord, steps[i].call.uuid) && AnswerAt(EMPTY, steps, k) == Released(true))
  }

  /** The grant of step `i` still stands before step `j`. */
  ghost predicate Stands(steps: seq<Step>, i: nat, j: nat, ord: string)
    requires j <= |steps|
  {
    i < j && Grants(EMPTY, steps, i, ord) && forall k :: i < k < j ==> !EndsGrant(steps, i, k, ord)
  }

  function GrantedLease(steps: seq<Step>, i: nat, ord: string): Lease
    requires i < |steps| && Grants(EMPTY, steps, i, ord)
  {
    Lease(steps[i].call.identity, steps[i].call.uuid, AnswerAt(EMPTY, steps, i).until)
  }

  ghost predicate StandsAt(steps: seq<Step>, i: nat, j: nat, ord: string, now: int)
    requires j <= |steps|
  {
    Stands(steps, i, j, ord) && GrantedLease(steps, i, ord).until > now
  }

  /** A standing grant is in the table, whatever sweeps ran. */
  lemma {:induction false} StandingIsStored(steps: seq<Step>, i: nat, j: nat, ord: string, now: int)
    requires j <= |steps| && Ordered(steps) && (j > 0 ==> TimeOf(steps[j - 1]) <= now)
    requires StandsAt(steps, i, j, ord, now)
    ensures var claims := At(EMPTY, steps, j).claims; ord in claims && claims[ord] == GrantedLease(steps, i, ord)
  {
    var before, s := At(EMPTY, steps, j - 1), steps[j - 1];
    if i == j - 1 {
      LeaseAfter(before, s.call, ord);
    } else {
      assert !EndsGrant(steps, i, j - 1, ord);
      assert TimeOf(steps[j - 2]) <= TimeOf(s);
      StandingIsStored(steps, i, j - 1, ord, now);
      hide Apply, Sweep;
      if s.Do? {
        LeaseAfter(before, s.call, ord);
      } else {
        LeaseAfterSweep(before, s.at, ord);
      }
    }
  }

  /** A lease in the table is that of a standing grant. */
  lemma {:induction false} StoredIsStanding(steps: seq<Step>, j: nat, ord: string) returns (i: nat)
    requires j <= |steps| && ord in At(EMPTY, steps, j).claims
    ensures Stands(steps, i, j, ord) && At(EMPTY, steps, j).claims[ord] == GrantedLease(steps, i, ord)
  {
    hide At, Grants, GrantedLease, EndsGrant;
    NothingStored(steps, ord);
    if Grants(EMPTY, steps, j - 1, ord) {
      i := j - 1;
      GrantStands(steps, i, ord);
    } else {
      LeaseWasStored(steps, j, ord);
      i := StoredIsStanding(steps, j - 1, ord);
      StandsOn(steps, i, j, ord);
    }
  }

  lemma StandsOn(steps: seq<Step>, i: nat, j: nat, ord: string)
    requires 0 < j <= |steps| && Stands(steps, i, j - 1, ord) && !EndsGrant(steps, i, j - 1, ord)
    ensures Stands(steps, i, j, ord)
  {
    hide At, EndsGrant;
  }

  lemma NothingStored(steps: seq<Step>, ord: string)
    ensures ord !in At(EMPTY, steps, 0).claims
  {}

  lemma GrantStands(steps: seq<Step>, i: nat, ord: string)
    requires i < |steps| && Grants(EMPTY, steps, i, ord)
    ensures Stands(steps, i, i + 1, ord)
    ensures ord in At(EMPTY, steps, i + 1).claims && At(EMPTY, steps, i + 1).claims[ord] == GrantedLease(steps, i, ord)
  {
    LeaseAfter(At(EMPTY, steps, i), steps[i].call, ord);
    hide Apply, IsRelease, EndsGrant;
  }

  /** A step that grants nothing leaves in the table only leases that were there and that it did not release. */
  lemma LeaseWasStored(steps: seq<Step>, j: nat, ord: string)
    requires 0 < j <= |steps| && ord in At(EMPTY, steps, j).claims && !Grants(EMPTY, steps, j - 1, ord)
    ensures ord in At(EMPTY, steps, j - 1).claims
    ensures At(EMPTY, steps, j - 1).claims[ord] == At(EMPTY, steps, j).claims[ord]
    ensures forall i :: 0 <= i < |steps| && Grants(EMPTY, steps, i, ord) ==>
              GrantedLease(steps, i, ord) == At(EMPTY, steps, j).claims[ord] ==> !EndsGrant(steps, i, j - 1, ord)
  {
    var before, s := At(EMPTY, steps, j - 1), steps[j - 1];
    if s.Do? { LeaseAfter(before, s.call, ord); } else { LeaseAfterSweep(before, s.at, ord); }
    hide Apply, Sweep;
  }

  /**
    The history decides. A well-formed claim is refused as held exactly when a
    grant to somebody else still stands and has not expired, and is then told
    that grant's holder and expiry. With no such rival it is granted, unless no
    grant of its own stands and 500 leases are live.
   */
  lemma ClaimByHistory(steps: seq<Step>, j: nat, ord: string)
    requires j < |steps| && Ordered(steps) && At(EMPTY, steps, j).joined
    requires IsClaim(steps[j], ord) && 0 < |ord| <= 128
    ensures var a, now := AnswerAt(EMPTY, steps, j), steps[j].call.now;
      if i: nat :| StandsAt(steps, i, j, ord, now) then
        var lease := GrantedLease(steps, i, ord);
        if lease.holder != steps[j].call.identity then a == Held(lease.holder, lease.until) else a.Granted?
      else
        if |Live(At(EMPTY, steps, j).claims, now)| >= 500 then a == TooManyClaims else a.Granted?
  {
    var c, t := steps[j].call, At(EMPTY, steps, j);
    if ord in Live(t.claims, c.now) {
      var i := StoredIsStanding(steps, j, ord);
      assert StandsAt(steps, i, j, ord, c.now);
    }
    forall i: nat | StandsAt(steps, i, j, ord, c.now)
      ensures ord in t.claims && t.claims[ord] == GrantedLease(steps, i, ord)
    {
      StandingIsStored(steps, i, j, ord, c.now);
    }
    ClaimAnswer(t, c, ord);
    hide Apply;
  }

  lemma ClaimAnswer(t: Rows, c: Call, ord: string)
    requires t.joined && IsClaim(Do(c), ord) && 0 < |ord| <= 128
    ensures var a := Apply(t, c).1;
      if ord in t.claims && t.claims[ord].until > c.now then
        if t.claims[ord].holder != c.identity then a == Held(t.claims[ord].holder, t.claims[ord].until) else a.Granted?
      else
        if |Live(t.claims, c.now)| >= CLAIMS_KEPT_MAX then a == TooManyClaims else a.Granted?
  {}

  // --------------------------------------------------------------- dead tokens

  /** `crypto.randomUUID` never repeats. */
  ghost predicate FreshTokens(steps: seq<Step>) {
    forall i, j :: 0 <= i < j < |steps| && steps[i].Do? && steps[j].Do? ==> steps[i].call.uuid != steps[j].call.uuid
  }

  lemma {:induction false} SupersededTokenIsNotCurrent(t: Rows, steps: seq<Step>, i: nat, j: nat, m: nat, ord: string)
    requires i < j < m <= |steps| && FreshTokens(steps)
    requires Grants(t, steps, i, ord) && Grants(t, steps, j, ord)
    ensures var claims := At(t, steps, m).claims; ord in claims ==> claims[ord].token != steps[i].call.uuid
  {
    hide Apply, Sweep, IsRelease;
    var before, s := At(t, steps, m - 1), steps[m - 1];
    if m > j + 1 { SupersededTokenIsNotCurrent(t, steps, i, j, m - 1, ord); }
    if s.Do? {
      LeaseAfter(before, s.call, ord);
    } else {
      LeaseAfterSweep(before, s.at, ord);
    }
  }

  /** A token superseded by a renewal or by a later holder never releases the newer grant. */
  lemma SupersededTokenReleasesNothing(t: Rows, steps: seq<Step>, i: nat, j: nat, m: nat, ord: string)
    requires i < j < m < |steps| && FreshTokens(steps)
    requires Grants(t, steps, i, ord) && Grants(t, steps, j, ord)
    requires IsRelease(steps[m], ord, AnswerAt(t, steps, i).token)
    ensures AnswerAt(t, steps, m) != Released(true)
    ensures At(t, steps, m + 1) == At(t, steps, m)
  {
    LeaseAfter(At(t, steps, i), steps[i].call, ord);
    SupersededTokenIsNotCurrent(t, steps, i, j, m, ord);
  }

  // ------------------------------------------------------------------- the cap

  lemma LiveShrinks(claims: map<string, Lease>, now: int, later: int)
    requires now <= later
    ensures |Live(claims, later)| <= |Live(claims, now)|
  {
    assert Live(claims, later).Keys <= Live(claims, now).Keys;
    SubsetSize(Live(claims, later).Keys, Live(claims, now).Keys);
  }

  /** A grant of an order not live yet needs room under the cap. */
  lemma GrantNeedsRoom(t: Rows, c: Call, ord: string)
    requires IsClaim(Do(c), ord) && Apply(t, c).1.Granted?
    ensures ord in Live(t.claims, c.now) || |Live(t.claims, c.now)| < CLAIMS_KEPT_MAX
  {}

  lemma LiveAfterOp(t: Rows, c: Call)
    requires |Live(t.claims, c.now)| <= CLAIMS_KEPT_MAX
    ensures |Live(Apply(t, c).0.claims, c.now)| <= CLAIMS_KEPT_MAX
  {
    var before, after := Live(t.claims, c.now), Live(Apply(t, c).0.claims, c.now);
    var ord := if c.op.Claim? && c.op.order.Text? then c.op.order.s else "";
    var room := if IsClaim(Do(c), ord) && Apply(t, c).1.Granted? then {ord} else {};
    if room != {} { GrantNeedsRoom(t, c, ord); }
    hide Apply;
    forall o | o in after ensures o in before.Keys + room {
      LeaseAfter(t, c, o);
    }
    SubsetSize(after.Keys, before.Keys + room);
  }

  lemma LiveAfter(t: Rows, s: Step)
    requires |Live(t.claims, TimeOf(s))| <= CLAIMS_KEPT_MAX
    ensures |Live(Next(t, s).claims, TimeOf(s))| <= CLAIMS_KEPT_MAX
  {
    if s.Do? {
      LiveAfterOp(t, s.call);
    } else {
      assert Live(Live(t.claims, s.at), s.at) == Live(t.claims, s.at);
    }
  }

  /** From an empty store, no later moment of any run sees more than 500 live claims. */
  lemma {:induction false} LiveClaimsAreCapped(steps: seq<Step>, i: nat, now: int)
    requires i <= |steps| && Ordered(steps)
    requires i > 0 ==> TimeOf(steps[i - 1]) <= now
    ensures |Live(At(EMPTY, steps, i).claims, now)| <= 500
  {
    if i > 0 {
      var s := steps[i - 1];
      LiveClaimsAreCapped(steps, i - 1, TimeOf(s));
      LiveAfter(At(EMPTY, steps, i - 1), s);
      LiveShrinks(At(EMPTY, steps, i).claims, TimeOf(s), now);
    }
  }

  // ---------------------------------------------------- releases and listings by history

  /** No wake since the grant of step `i` came at or after its expiry. */
  ghost predicate NotSwept(steps: seq<Step>, i: nat, j: nat, ord: string)
    requires i < j <= |steps| && Grants(EMPTY, steps, i, ord)
  {
    forall k :: i < k < j && steps[k].Wake? ==> steps[k].at < GrantedLease(steps, i, ord).until
  }

  /** A step that ends no grant leaves the lease, unless it is a wake that meets it expired. */
  lemma LeaseGoesOn(steps: seq<Step>, i: nat, j: nat, ord: string)
    requires j < |steps| && i < |steps| && Grants(EMPTY, steps, i, ord) && !EndsGrant(steps, i, j, ord)
    ensures var lease, claims, claims' := GrantedLease(steps, i, ord), At(EMPTY, steps, j).claims, At(EMPTY, steps, j + 1).claims;
      (ord in claims ==> claims[ord] == lease) ==>
        && (ord in claims' <==> ord in claims && (steps[j].Wake? ==> steps[j].at < lease.until))
        && (ord in claims' ==> claims'[ord] == lease)
  {
    var before, s := At(EMPTY, steps, j), steps[j];
    if s.Do? { LeaseAfter(before, s.call, ord); } else { LeaseAfterSweep(before, s.at, ord); }
    hide Apply, Sweep;
  }

  lemma NotSweptOn(steps: seq<Step>, i: nat, h: nat, j: nat, ord: string)
    requires i < h && j == h + 1 <= |steps| && Grants(EMPTY, steps, i, ord)
    ensures NotSwept(steps, i, j, ord)
      <==> NotSwept(steps, i, h, ord) && (steps[h].Wake? ==> steps[h].at < GrantedLease(steps, i, ord).until)
  {
    hide At, AnswerAt;
  }

  /** A standing grant is in the table exactly until a wake meets it expired. */
  lemma {:induction false} StandingIsStoredIff(steps: seq<Step>, i: nat, j: nat, ord: string)
    requires j <= |steps| && Stands(steps, i, j, ord)
    ensures var claims := At(EMPTY, steps, j).claims;
      && (ord in claims <==> NotSwept(steps, i, j, ord))
      && (ord in claims ==> claims[ord] == GrantedLease(steps, i, ord))
  {
    hide At, AnswerAt, GrantedLease, EndsGrant;
    if i == j - 1 {
      GrantStands(steps, i, ord);
    } else {
      assert !EndsGrant(steps, i, j - 1, ord);
      StandingIsStoredIff(steps, i, j - 1, ord);
      LeaseGoesOn(steps, i, j - 1, ord);
      NotSweptOn(steps, i, j - 1, j, ord);
    }
  }

  /** The grant of step `i` stands, has not been swept, and is the one whose token the call shows. */
  ghost predicate Redeems(steps: seq<Step>, i: nat, j: nat, ord: string)
    requires j < |steps| && steps[j].Do?
  {
    Stands(steps, i, j, ord) && NotSwept(steps, i, j, ord) && steps[j].call.op == Release(Text(ord), Text(steps[i].call.uuid))
  }

  lemma ReleaseAnswer(t: Rows, c: Call)
    requires t.joined && c.op.Release? && !Malformed(c.op)
    ensures var (t', a) := Apply(t, c);
      && a == Released(c.op.released.s in t.claims && t.claims[c.op.released.s].token == c.op.token.s)
      && (a == Released(true) ==> c.op.released.s !in t'.claims)
  {}

  /**
    A well-formed release answers that it released if and only if the grant
    whose token it bears stands and no wake has met it expired; and then the
    order is free.
   */
  lemma ReleaseByHistory(steps: seq<Step>, j: nat)
    requires j < |steps| && steps[j].Do? && steps[j].call.op.Release? && !Malformed(steps[j].call.op)
    requires At(EMPTY, steps, j).joined
    ensures var ord := steps[j].call.op.released.s;
      && AnswerAt(EMPTY, steps, j) == Released(exists i: nat :: Redeems(steps, i, j, ord))
      && (AnswerAt(EMPTY, steps, j) == Released(true) ==> ord !in At(EMPTY, steps, j + 1).claims)
  {
    var ord, t := steps[j].call.op.released.s, At(EMPTY, steps, j);
    ReleaseAnswer(t, steps[j].call);
    hide Apply, At, Malformed;
    if ord in t.claims {
      var i := StoredIsStanding(steps, j, ord);
      StandingIsStoredIff(steps, i, j, ord);
      if t.claims[ord].token == steps[j].call.op.token.s { assert Redeems(steps, i, j, ord); }
    }
    if i: nat :| Redeems(steps, i, j, ord) {
      StandingIsStoredIff(steps, i, j, ord);
    }
  }

  /** In particular the holder of a grant that is still live can always release it. */
  lemma LiveGrantsCanBeReleased(steps: seq<Step>, i: nat, j: nat, ord: string)
    requires j < |steps| && Ordered(steps) && steps[j].Do? && At(EMPTY, steps, j).joined
    requires StandsAt(steps, i, j, ord, steps[j].call.now)
    requires steps[j].call.op == Release(Text(ord), Text(steps[i].call.uuid)) && !Malformed(steps[j].call.op)
    ensures AnswerAt(EMPTY, steps, j) == Released(true)
  {
    assert Redeems(steps, i, j, ord) by {
      forall k | i < k < j ensures TimeOf(steps[k]) <= TimeOf(steps[j]) {}
    }
    hide Apply, At;
    ReleaseByHistory(steps, j);
  }

  /** Nobody's grant of a released order stands, so that the next claim meets no rival. */
  lemma ReleasedIsFree(steps: seq<Step>, j: nat, i: nat)
    requires j < |steps| && steps[j].Do? && steps[j].call.op.Release? && !Malformed(steps[j].call.op)
    requires AnswerAt(EMPTY, steps, j) == Released(true)
    ensures var now, ord := steps[j].call.now, steps[j].call.op.released.s;
      Ordered(steps) ==> !StandsAt(steps, i, j + 1, ord, now)
  {
    var now, ord := steps[j].call.now, steps[j].call.op.released.s;
    ReleasesWhenJoined(steps, j);
    ReleaseByHistory(steps, j);
    hide Apply, At;
    if Ordered(steps) && StandsAt(steps, i, j + 1, ord, now) { StandingIsStored(steps, i, j + 1, ord, now); }
  }

  lemma ReleasesWhenJoined(steps: seq<Step>, j: nat)
    requires j < |steps| && steps[j].Do? && AnswerAt(EMPTY, steps, j) == Released(true)
    ensures At(EMPTY, steps, j).joined
  {
    hide At;
  }

  /** A listing shows an order exactly if a grant of it stands and has not expired, under that grant's holder and expiry. */
  lemma ListingByHistory(steps: seq<Step>, j: nat, ord: string)
    requires j < |steps| && Ordered(steps) && steps[j].Do? && steps[j].call.op.Claims? && At(EMPTY, steps, j).joined
    ensures var a, now := AnswerAt(EMPTY, steps, j), steps[j].call.now;
      && a.LiveClaims?
      && (ord in a.live <==> exists i: nat :: StandsAt(steps, i, j, ord, now))
      && (forall i: nat :: StandsAt(steps, i, j, ord, now) && ord in a.live ==>
            a.live[ord] == (steps[i].call.identity, AnswerAt(EMPTY, steps, i).until))
  {
    var t, now := At(EMPTY, steps, j), steps[j].call.now;
    ListingAnswer(t, steps[j].call, ord);
    hide Apply, At;
    if ord in t.claims && t.claims[ord].until > now {
      var i := StoredIsStanding(steps, j, ord);
      assert StandsAt(steps, i, j, ord, now);
    }
    forall i: nat | StandsAt(steps, i, j, ord, now)
      ensures ord in t.claims && t.claims[ord] == GrantedLease(steps, i, ord)
    {
      StandingIsStored(steps, i, j, ord, now);
    }
  }

  lemma ListingAnswer(t: Rows, c: Call, ord: string)
    requires t.joined && c.op.Claims?
    ensures var a := Apply(t, c).1;
      && a.LiveClaims? && (ord in a.live <==> ord in t.claims && t.claims[ord].until > c.now)
      && (ord in a.live ==> a.live[ord] == (t.claims[ord].holder, t.claims[ord].until))
  {}
}
