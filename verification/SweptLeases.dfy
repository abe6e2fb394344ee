/**
  Which leases a sweep has removed, in whole runs, and when a release can tell.
 */
module SweptLeases {
  import opened Prelude
  import opened Tables
  import opened Leases
  import opened SweepErasure

  /** Before step `i` the unswept store has held the lease on `ord` that it has now, ever since before step `k`. */
  ghost predicate HeldSince(steps: seq<Step>, k: nat, i: nat, ord: string)
    requires k <= i <= |steps|
  {
    forall m :: k <= m <= i ==> HasLease(steps, m, ord, i)
  }

  ghost predicate HasLease(steps: seq<Step>, m: nat, ord: string, i: nat)
    requires m <= i <= |steps|
  {
    var earlier, now := Unswept(EMPTY, steps, m).claims, Unswept(EMPTY, steps, i).claims;
    ord in earlier && ord in now && earlier[ord] == now[ord]
  }

  /** The wake at step `k` came at or after the expiry of the lease on `ord`, while that lease was held. */
  ghost predicate SweptAt(steps: seq<Step>, k: nat, i: nat, ord: string)
    requires k < i <= |steps| && ord in Unswept(EMPTY, steps, i).claims
  {
    steps[k].Wake? && steps[k].at >= Unswept(EMPTY, steps, i).claims[ord].until && HeldSince(steps, k, i, ord)
  }

  /** What one step does to the lease on `ord` in both stores. */
  lemma LeaseStep(steps: seq<Step>, i: nat, ord: string)
    requires i < |steps| && Ordered(steps)
    requires ord in Unswept(EMPTY, steps, i + 1).claims
    ensures var s, u := At(EMPTY, steps, i).claims, Unswept(EMPTY, steps, i).claims;
      var s', u' := At(EMPTY, steps, i + 1).claims, Unswept(EMPTY, steps, i + 1).claims;
      if steps[i].Wake? then ord in u && u'[ord] == u[ord] && (ord in s' <==> ord in s && u[ord].until > steps[i].at)
      else if IsClaim(steps[i], ord) && AnswerAt(EMPTY, steps, i).Granted? then ord in s' && u'[ord].until > TimeOf(steps[i])
      else ord in u && u'[ord] == u[ord] && (ord in s' <==> ord in s)
  {
    var a, s, u := steps[i], At(EMPTY, steps, i), Unswept(EMPTY, steps, i);
    RunsAgree(steps, i, TimeOf(a));
    if a.Wake? {
      LeaseAfterSweep(s, a.at, ord);
    } else {
      LeaseAfter(s, a.call, ord);
      LeaseAfter(u, a.call, ord);
      if a.call.op.Claim? { ClaimAnswers(s, u, a.call); }
      if a.call.op.Release? { ReleaseAnswers(s, u, a.call); }
    }
    hide Apply, Sweep, Live, Shows, KeepsRecent, Contiguous, Sorted;
  }

  lemma HeldOn(steps: seq<Step>, k: nat, j: nat, i: nat, ord: string)
    requires k <= j && i == j + 1 <= |steps| && HeldSince(steps, k, j, ord) && HasLease(steps, j, ord, i)
    ensures HeldSince(steps, k, i, ord)
  {
    hide Unswept;
    forall m | k <= m <= i ensures HasLease(steps, m, ord, i) {
      if m <= j { assert HasLease(steps, m, ord, j); }
    }
  }

  /** A lease of the unswept store is gone from the live one exactly when a wake met it expired. */
  lemma {:induction false} GoneIffSwept(steps: seq<Step>, i: nat, ord: string)
    requires i <= |steps| && Ordered(steps) && ord in Unswept(EMPTY, steps, i).claims
    ensures ord !in At(EMPTY, steps, i).claims <==> exists k :: 0 <= k < i && SweptAt(steps, k, i, ord)
  {
    hide At, AnswerAt, Unswept, HeldSince;
    if i == 0 {
      NothingHeld(steps, ord);
    } else {
      var j := i - 1;
      LeaseStep(steps, j, ord);
      if IsClaim(steps[j], ord) && AnswerAt(EMPTY, steps, j).Granted? {
        GrantedIsNotSwept(steps, i, ord);
      } else {
        assert HasLease(steps, j, ord, i);
        GoneIffSwept(steps, j, ord);
        SweptEarlier(steps, j, i, ord);
        if steps[j].Wake? && Unswept(EMPTY, steps, i).claims[ord].until <= steps[j].at {
          SweptJustNow(steps, j, i, ord);
        }
      }
    }
  }

  lemma NothingHeld(steps: seq<Step>, ord: string)
    ensures ord !in Unswept(EMPTY, steps, 0).claims
  {}

  lemma SweptJustNow(steps: seq<Step>, j: nat, i: nat, ord: string)
    requires i == j + 1 <= |steps| && steps[j].Wake? && HasLease(steps, j, ord, i)
    requires Unswept(EMPTY, steps, i).claims[ord].until <= steps[j].at
    ensures SweptAt(steps, j, i, ord)
  {
    hide Unswept;
    assert HasLease(steps, i, ord, i);
  }

  /** While the lease stays the same, so do the wakes that met it expired, the last step aside. */
  lemma SweptEarlier(steps: seq<Step>, j: nat, i: nat, ord: string)
    requires i == j + 1 <= |steps| && HasLease(steps, j, ord, i)
    ensures forall k :: 0 <= k < j ==> (SweptAt(steps, k, j, ord) <==> SweptAt(steps, k, i, ord))
  {
    hide Unswept;
    forall k | 0 <= k < j ensures SweptAt(steps, k, j, ord) <==> SweptAt(steps, k, i, ord) {
      if SweptAt(steps, k, j, ord) { HeldOn(steps, k, j, i, ord); }
      if SweptAt(steps, k, i, ord) {
        forall m | k <= m <= j ensures HasLease(steps, m, ord, j) { assert HasLease(steps, m, ord, i); }
      }
    }
  }

  /** No wake so far can have met a lease that is granted only now. */
  lemma GrantedIsNotSwept(steps: seq<Step>, i: nat, ord: string)
    requires 0 < i <= |steps| && Ordered(steps) && ord in Unswept(EMPTY, steps, i).claims
    requires Unswept(EMPTY, steps, i).claims[ord].until > TimeOf(steps[i - 1]) && steps[i - 1].Do?
    ensures forall k :: 0 <= k < i ==> !SweptAt(steps, k, i, ord)
  {
    hide Unswept, HeldSince;
    forall k | 0 <= k < i ensures !SweptAt(steps, k, i, ord) {
      if k < i - 1 { assert TimeOf(steps[k]) <= TimeOf(steps[i - 1]); }
    }
  }

  /** The release of step `i` bears the token of a lease that some wake met expired. */
  ghost predicate ReleasesSwept(steps: seq<Step>, i: nat)
    requires i < |steps| && steps[i].Do? && steps[i].call.op.Release? && !Malformed(steps[i].call.op)
  {
    var op, claims := steps[i].call.op, Unswept(EMPTY, steps, i).claims;
    && op.released.s in claims && claims[op.released.s].token == op.token.s
    && exists k :: 0 <= k < i && SweptAt(steps, k, i, op.released.s)
  }

  /**
    When sweeping shows in a release: exactly when it bears the token of a lease
    that some wake met expired.
   */
  lemma ReleasesAgreeIff(steps: seq<Step>, i: nat)
    requires i < |steps| && Ordered(steps) && steps[i].Do? && steps[i].call.op.Release?
    requires At(EMPTY, steps, i).joined && !Malformed(steps[i].call.op)
    ensures AnswerAt(EMPTY, steps, i) == Apply(Unswept(EMPTY, steps, i), steps[i].call).1 <==> !ReleasesSwept(steps, i)
  {
    var op := steps[i].call.op;
    RunsAgree(steps, i, steps[i].call.now);
    SweepsAreInvisible(steps, i);
    if op.released.s in Unswept(EMPTY, steps, i).claims { GoneIffSwept(steps, i, op.released.s); }
    hide Apply, AnswerAt, At, Unswept, SweptAt, Live, Shows, KeepsRecent, Contiguous, Sorted;
  }

  /** Claim for a second, let it expire, sweep, and release. */
  function LateRelease(): seq<Step> {
    [Do(Call(Join, "a", 0, "", 0.0)), Do(Call(Claim(Text("o"), Number(1.0)), "a", 0, "t", 0.0)), Wake(1000),
     Do(Call(Release(Text("o"), Text("t")), "a", 1000, "", 0.0))]
  }

  lemma LateReleaseStates()
    ensures At(EMPTY, LateRelease(), 3) == Rows(true, [], 0, map[], None)
    ensures Unswept(EMPTY, LateRelease(), 3) == Rows(true, [], 0, map["o" := Lease("a", "t", 1000)], None)
  {
    var steps, joined := LateRelease(), Rows(true, [], 0, map[], None);
    var claimed := Rows(true, [], 0, map["o" := Lease("a", "t", 1000)], None);
    assert Apply(EMPTY, steps[0].call).0 == joined;
    assert |Live(joined.claims, 0)| == 0;
    assert ClampTtl(Number(1.0), CLAIM_TTL_DEFAULT_S, CLAIM_TTL_MAX_S) == 1;
    assert Apply(joined, steps[1].call).0 == claimed;
    assert Live(claimed.claims, 1000) == map[] && Unexpired([], 1000) == [];
    assert Sweep(claimed, 1000) == joined;
    hide Apply, Sweep;
    assert At(EMPTY, steps, 1) == joined && Unswept(EMPTY, steps, 1) == joined;
    assert At(EMPTY, steps, 2) == claimed && Unswept(EMPTY, steps, 2) == claimed;
  }

  /** A holder who releases late is told so only if a sweep has run. */
  lemma LateReleaseTellsOfTheSweep()
    ensures Ordered(LateRelease())
    ensures AnswerAt(EMPTY, LateRelease(), 3) == Released(false)
    ensures Apply(Unswept(EMPTY, LateRelease(), 3), LateRelease()[3].call).1 == Released(true)
  {
    LateReleaseStates();
    hide At, Unswept;
  }
}
