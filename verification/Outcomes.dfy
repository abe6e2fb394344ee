/**
  What a navigation comes to: how each answer and each event moves it, in the
  numbers and names of the protocol, and its watch told from the events alone.
 */
module Outcomes {
  import opened Prelude
  import opened Navigation

  // ------------------------------------------------------------ the caller's answers

  /** A network change below the cap of four attempts: the caller tries again. */
  predicate TriesAgain(err: Option<string>, attempts: nat) { err == Some("net::ERR_NETWORK_CHANGED") && attempts < 4 }

  predicate IsError(err: Option<string>) { err.Some? && err.value != "" }

  /** `i` is the caller's step on the answer to its call. */
  predicate Answered(actions: seq<Action>, i: nat)
    requires i < |actions|
  {
    actions[i].CallerAnswered? && RunAt(actions, i).caller.Waiting?
  }

  /**
    An answered call. After a network change below the cap the caller is ready
    to call again, with one attempt and one recovery more. Any other error makes
    it fail. Without one it is done. Unless it tries again, the watch learns the
    loader answered if it knew none.
   */
  lemma AnsweredCall(actions: seq<Action>, i: nat)
    requires i < |actions| && Answered(actions, i)
    ensures var s, s', a := RunAt(actions, i), RunAt(actions, i + 1), actions[i];
      && s.shared.watch.Some? && |s.attempts| > 0 && s.caller.nav == |s.attempts| - 1
      && var n, w := |s.attempts| - 1, s.shared.watch.value;
      && w.attempts == s.attempts[n]
      && (s'.caller == Ready(n) <==> TriesAgain(a.err, w.attempts))
      && (s'.caller == Failing(n) <==> IsError(a.err) && !TriesAgain(a.err, w.attempts))
      && (s'.caller == Idle <==> !IsError(a.err))
      && s'.attempts == (if TriesAgain(a.err, w.attempts) then s.attempts[n := w.attempts + 1] else s.attempts)
      && s'.shared == (
           if TriesAgain(a.err, w.attempts)
           then s.shared.(watch := Some(w.(attempts := w.attempts + 1)), recoveries := s.shared.recoveries + 1)
           else s.shared.(watch := Some(w.(loader := if w.loader.None? then a.loaderId else w.loader))))
  {
    AlwaysInv(actions, i);
    hide Extra, Counted, ChargedOnce;
    assert Counted(RunAt(actions, i)) && Current(RunAt(actions, i));
    CountedLengths(RunAt(actions, i));
  }

  lemma CountedLengths(s: Sys)
    requires Counted(s)
    ensures |s.issued| == |s.attempts| == |s.charged|
  {}

  /** A navigation begins with one attempt, no loader, nothing abandoned and nothing reported; the worker goes on with what it was at. */
  lemma NavigationBegins(actions: seq<Action>, i: nat)
    requires i < |actions| && Begins(actions, i)
    ensures var s, s', a := RunAt(actions, i), RunAt(actions, i + 1), actions[i];
      && s'.shared == Shared(Some(Watch(a.session, a.url, a.now, None, [], 1, false)), map[], s.shared.recoveries)
      && s'.caller == Ready(|s.attempts|) && s'.worker == s.worker
  {}

  /** A failing navigation ends without a watch; one that is done, or whose call itself fails, keeps it. */
  lemma NavigationEnds(actions: seq<Action>, i: nat)
    requires i < |actions| && !RunAt(actions, i).caller.Idle? && RunAt(actions, i + 1).caller.Idle?
    ensures var s, s', a := RunAt(actions, i), RunAt(actions, i + 1), actions[i];
      && (s.caller.Failing? <==> a.CallerGivesUp?)
      && (s'.shared.watch.None? <==> s.caller.Failing?)
      && (a.CallerCallFails? ==> s'.shared == s.shared)
      && (a.CallerGivesUp? || a.CallerCallFails? || (Answered(actions, i) && !IsError(a.err)))
  {
    AlwaysInv(actions, i);
    if Answered(actions, i) { AnsweredCall(actions, i); }
    hide Extra, Counted, ChargedOnce, Inv, Settle, Renavigate;
    assert Current(RunAt(actions, i));
  }

  // --------------------------------------------------------------- failing requests

  /** The failing request is of the current attempt, as far as anybody can tell. */
  predicate OfCurrentAttempt(w: Watch, loader: Option<string>) {
    match loader
    case Some(l) => l !in w.abandoned && (w.loader == None || w.loader == Some(l))
    case None => w.abandoned == []
  }

  ghost predicate ShouldClaim(s: Sys, a: Action)
    requires a.RequestFailed?
  {
    && s.worker.Free? && s.shared.watch.Some?
    && a.errorText == Some("net::ERR_NETWORK_CHANGED")
    && var w := s.shared.watch.value;
    && a.eventSession == Some(w.session) && a.now - w.started <= 15000 && w.attempts < 4
    && OfCurrentAttempt(w, LoaderOf(s.shared, a.request))
  }

  /**
    A failing request re-navigates exactly when it died of a network change on
    the watched page, within fifteen seconds, below the cap, and is of the
    current attempt. The watch then gives up the loaders it and the request had.
   */
  lemma FailingRequest(actions: seq<Action>, i: nat)
    requires i < |actions| && actions[i].RequestFailed?
    ensures var s, s', a := RunAt(actions, i), RunAt(actions, i + 1), actions[i];
      && (s' != s <==> ShouldClaim(s, a))
      && (ShouldClaim(s, a) ==>
            var w := s.shared.watch.value;
            && s'.shared.watch == Some(w.(
                 abandoned := w.abandoned + Listed(w.loader) + Listed(LoaderOf(s.shared, a.request)),
                 loader := None, attempts := w.attempts + 1, loaded := false))
            && s'.shared.recoveries == s.shared.recoveries + 1 && s'.shared.loaderOf == s.shared.loaderOf
            && s'.worker.Armed? && s'.caller == s.caller)
  {
    AlwaysInv(actions, i);
    hide Extra, Counted, ChargedOnce, Listed;
    assert Current(RunAt(actions, i));
  }

  // ------------------------------------------------------- the watch told from events

  /** The event at step `k` is handled, on the page that is watched. */
  predicate OnWatchedPage(actions: seq<Action>, k: nat, session: Option<string>)
    requires k < |actions|
  {
    var s := RunAt(actions, k);
    s.worker.Free? && s.shared.watch.Some? && session == Some(s.shared.watch.value.session)
  }

  /** The loader last reported for request `r` since the newest navigation began. */
  function Reported(actions: seq<Action>, i: nat, r: string): Option<string>
    requires i <= |actions|
  {
    if i == 0 then None
    else
      var a := actions[i - 1];
      if Begins(actions, i - 1) then None
      else if a.RequestSent? && a.request == Some(r) && a.loader.Some? && OnWatchedPage(actions, i - 1, a.eventSession)
      then a.loader
      else Reported(actions, i - 1, r)
  }

  lemma ReportStep(s: Sys, a: Action, r: string)
    ensures LoaderOf(Step(s, a).shared, Some(r)) ==
      if a.Navigate? && s.caller.Idle? then None
      else if a.RequestSent? && a.request == Some(r) && a.loader.Some? && s.worker.Free? && s.shared.watch.Some?
              && a.eventSession == Some(s.shared.watch.value.session) then a.loader
      else LoaderOf(s.shared, Some(r))
  {
    hide Attributed;
  }

  lemma {:induction false} LoadersAreTheReported(actions: seq<Action>, i: nat, r: string)
    requires i <= |actions|
    ensures LoaderOf(RunAt(actions, i).shared, Some(r)) == Reported(actions, i, r)
  {
    if i > 0 {
      hide Step;
      LoadersAreTheReported(actions, i - 1, r);
      ReportStep(RunAt(actions, i - 1), actions[i - 1], r);
    }
  }

  /** The load event has come since the newest navigation began and since it was last claimed again. */
  function HasLoaded(actions: seq<Action>, i: nat): bool
    requires i <= |actions|
  {
    if i == 0 || Begins(actions, i - 1) || Claims(actions, i - 1) then false
    else
      var a := actions[i - 1];
      (a.Loaded? && OnWatchedPage(actions, i - 1, Some(a.session))) || HasLoaded(actions, i - 1)
  }

  lemma LoadStep(s: Sys, a: Action)
    ensures var w, w' := s.shared.watch, Step(s, a).shared.watch;
      w'.Some? ==>
        if a.Navigate? && s.caller.Idle? then !w'.value.loaded
        else if w.None? then false
        else if a.RequestFailed? && Step(s, a) != s then !w'.value.loaded
        else w'.value.loaded == (w.value.loaded || (a.Loaded? && s.worker.Free? && a.session == w.value.session))
  {
    hide Attributed;
  }

  lemma {:induction false} LoadedByHistory(actions: seq<Action>, i: nat)
    requires i <= |actions|
    ensures var watch := RunAt(actions, i).shared.watch; watch.Some? ==> (watch.value.loaded <==> HasLoaded(actions, i))
  {
    if i > 0 {
      hide Step;
      LoadedByHistory(actions, i - 1);
      LoadStep(RunAt(actions, i - 1), actions[i - 1]);
    }
  }

  /** The loader the watch knows: what the calls for it answered, until a claim. The worker's answer always counts, the caller's only the first. */
  function Known(actions: seq<Action>, i: nat): Option<string>
    requires i <= |actions|
  {
    if i == 0 || Begins(actions, i - 1) || Claims(actions, i - 1) then None
    else
      var a, s, known := actions[i - 1], RunAt(actions, i - 1), Known(actions, i - 1);
      if a.WorkerAnswered? && s.worker.Calling? && s.shared.watch.Some? then a.loaderId
      else if Answered(actions, i - 1) && s.shared.watch.Some? && !TriesAgain(a.err, s.shared.watch.value.attempts) && known.None?
      then a.loaderId
      else known
  }

  lemma KnownStep(s: Sys, a: Action)
    ensures var w, w' := s.shared.watch, Step(s, a).shared.watch;
      w'.Some? ==>
        if a.Navigate? && s.caller.Idle? then w'.value.loader == None
        else if w.None? then false
        else if a.RequestFailed? && Step(s, a) != s then w'.value.loader == None
        else if a.WorkerAnswered? && s.worker.Calling? then w'.value.loader == a.loaderId
        else if a.CallerAnswered? && s.caller.Waiting? && !TriesAgain(a.err, w.value.attempts) && w.value.loader.None?
        then w'.value.loader == a.loaderId
        else w'.value.loader == w.value.loader
  {
    hide Attributed;
  }

  lemma {:induction false} LoaderByHistory(actions: seq<Action>, i: nat)
    requires i <= |actions|
    ensures var watch := RunAt(actions, i).shared.watch; watch.Some? ==> watch.value.loader == Known(actions, i)
  {
    if i > 0 {
      hide Step;
      LoaderByHistory(actions, i - 1);
      KnownStep(RunAt(actions, i - 1), actions[i - 1]);
    }
  }
}
