/**
  A browser window's navigation guard. The navigating caller and the event
  worker share a watch under one lock; every lock section is one function here,
  and the protocol below interleaves them in any order.
 */
module Navigation {
  import opened Prelude

  const NAVIGATE_ATTEMPTS := 4
  const NETWORK_CHANGED := "net::ERR_NETWORK_CHANGED"
  const NAVIGATION_WATCH_MS := 15000

  datatype Watch = Watch(
    session: string, url: string, started: int,
    loader: Option<string>, abandoned: seq<string>, attempts: nat, loaded: bool)

  /** What the lock protects, as far as navigation goes. */
  datatype Shared = Shared(watch: Option<Watch>, loaderOf: map<string, string>, recoveries: nat)

  // ------------------------------------------------------------ lock sections

  function Begin(st: Shared, session: string, url: string, now: int): Shared {
    st.(watch := Some(Watch(session, url, now, None, [], 1, false)), loaderOf := map[])
  }

  datatype Settled = WatchGone | Retry | Failed | Done

  /** The caller's section after `Page.navigate` answered with `err` and `loaderId`. */
  function Settle(st: Shared, err: Option<string>, loaderId: Option<string>): (Shared, Settled) {
    match st.watch
    case None => (st, WatchGone)
    case Some(w) =>
      if err == Some(NETWORK_CHANGED) && w.attempts < NAVIGATE_ATTEMPTS then
        (st.(watch := Some(w.(attempts := w.attempts + 1)), recoveries := st.recoveries + 1), Retry)
      else
        (st.(watch := Some(if w.loader.None? then w.(loader := loaderId) else w)),
         if err.Some? && err.value != "" then Failed else Done)
  }

  /** `Network.requestWillBeSent`. */
  function NoteRequest(st: Shared, session: Option<string>, request: Option<string>, loader: Option<string>): Shared {
    if request.Some? && loader.Some? && st.watch.Some? && Some(st.watch.value.session) == session
    then st.(loaderOf := st.loaderOf[request.value := loader.value])
    else st
  }

  function LoaderOf(st: Shared, request: Option<string>): Option<string> {
    if request.Some? && request.value in st.loaderOf then Some(st.loaderOf[request.value]) else None
  }

  /** Whether a failure of a request of `loader` is the current attempt's own. */
  predicate Attributed(w: Watch, loader: Option<string>) {
    match loader
    case Some(l) => l !in w.abandoned && (w.loader.None? || w.loader.value == l)
    case None => w.abandoned == []
  }

  /** `Network.loadingFailed`: claims the next attempt, or leaves everything as it is. */
  function Renavigate(st: Shared, session: Option<string>, err: Option<string>, request: Option<string>, now: int)
    : (r: (Shared, Option<(string, string)>))
    ensures r.1.None? ==> r.0 == st
  {
    var loader := LoaderOf(st, request);
    if err != Some(NETWORK_CHANGED) || st.watch.None? then (st, None)
    else
      var w := st.watch.value;
      if Some(w.session) != session || now - w.started > NAVIGATION_WATCH_MS || w.attempts >= NAVIGATE_ATTEMPTS
         || !Attributed(w, loader) then (st, None)
      else
        var w' := w.(abandoned := w.abandoned + Listed(w.loader) + Listed(loader), loader := None,
                     attempts := w.attempts + 1, loaded := false);
        (st.(watch := Some(w'), recoveries := st.recoveries + 1), Some((w.session, w.url)))
  }

  function Listed(o: Option<string>): seq<string> { if o.Some? then [o.value] else [] }

  /** The worker's section after its own `Page.navigate` answered. */
  function RecordLoader(st: Shared, loaderId: Option<string>): Shared {
    if st.watch.None? then st else st.(watch := Some(st.watch.value.(loader := loaderId)))
  }

  function NoteLoad(st: Shared, session: string): Shared {
    if st.watch.Some? && st.watch.value.session == session
    then st.(watch := Some(st.watch.value.(loaded := true))) else st
  }

  /** The fields behind the lock, updated in place, section by section. */
  class WindowState {
    var watch: Option<Watch>
    var loaderOf: map<string, string>
    var recoveries: nat

    function View(): Shared
      reads this
    {
      Shared(watch, loaderOf, recoveries)
    }

    constructor ()
      ensures View() == Shared(None, map[], 0)
    {
      watch, loaderOf, recoveries := None, map[], 0;
    }

    method BeginNavigation(session: string, url: string, now: int)
      modifies this
      ensures View() == Begin(old(View()), session, url, now)
    {
      loaderOf := map[];
      watch := Some(Watch(session, url, now, None, [], 1, false));
    }

    method SettleAttempt(err: Option<string>, loaderId: Option<string>) returns (s: Settled)
      modifies this
      ensures (View(), s) == Settle(old(View()), err, loaderId)
    {
      if watch.None? { return WatchGone; }
      if err == Some(NETWORK_CHANGED) && watch.value.attempts < NAVIGATE_ATTEMPTS {
        watch := Some(watch.value.(attempts := watch.value.attempts + 1));
        recoveries := recoveries + 1;
        return Retry;
      }
      if watch.value.loader.None? {
        watch := Some(watch.value.(loader := loaderId));
      }
      s := if err.Some? && err.value != "" then Failed else Done;
    }

    method RequestWillBeSent(session: Option<string>, request: Option<string>, loader: Option<string>)
      modifies this
      ensures View() == NoteRequest(old(View()), session, request, loader)
    {
      if request.Some? && loader.Some? && watch.Some? && Some(watch.value.session) == session {
        loaderOf := loaderOf[request.value := loader.value];
      }
    }

    method LoadingFailed(session: Option<string>, err: Option<string>, request: Option<string>, now: int)
      returns (renavigate: Option<(string, string)>)
      modifies this
      ensures (View(), renavigate) == Renavigate(old(View()), session, err, request, now)
    {
      if err != Some(NETWORK_CHANGED) { return None; }
      var loader := None;
      if request.Some? && request.value in loaderOf { loader := Some(loaderOf[request.value]); }
      if watch.None? { return None; }
      var w := watch.value;
      if Some(w.session) != session || now - w.started > NAVIGATION_WATCH_MS || w.attempts >= NAVIGATE_ATTEMPTS {
        return None;
      }
      if loader.Some? && loader.value in w.abandoned { return None; }
      if w.loader.Some? && loader.Some? && w.loader != loader { return None; }
      if loader.None? && w.abandoned != [] { return None; }
      var abandoned := w.abandoned;
      if w.loader.Some? { abandoned := abandoned + [w.loader.value]; }
      if loader.Some? { abandoned := abandoned + [loader.value]; }
      assert abandoned == w.abandoned + Listed(w.loader) + Listed(loader);
      watch := Some(w.(abandoned := abandoned, loader := None, attempts := w.attempts + 1, loaded := false));
      recoveries := recoveries + 1;
      renavigate := Some((w.session, w.url));
    }

    method RenavigationAnswered(loaderId: Option<string>)
      modifies this
      ensures View() == RecordLoader(old(View()), loaderId)
    {
      if watch.Some? { watch := Some(watch.value.(loader := loaderId)); }
    }

    method LoadEventFired(session: string)
      modifies this
      ensures View() == NoteLoad(old(View()), session)
    {
      if watch.Some? && watch.value.session == session {
        watch := Some(watch.value.(loaded := true));
      }
    }
  }

  // ----------------------------------------------------------------- protocol

  /** Where the navigating caller stands. `nav` numbers the navigations. */
  datatype Caller = Idle | Ready(nav: nat) | Waiting(nav: nat) | Failing(nav: nat)

  /** Where the event worker stands: free for an event, or re-navigating on behalf of `nav`, to what its watch named. */
  datatype Worker = Free | Armed(nav: nat, session: string, url: string) | Calling(nav: nat, session: string, url: string)

  /**
    Per navigation: the attempts it claimed, the `Page.navigate` calls issued
    for it, and the loader ids whose requests re-navigated it.
   */
  datatype Sys = Sys(
    shared: Shared, caller: Caller, worker: Worker,
    attempts: seq<nat>, issued: seq<nat>, charged: seq<seq<string>>)

  const START := Sys(Shared(None, map[], 0), Idle, Free, [], [], [])

  datatype Action =
    | Navigate(session: string, url: string, now: int)
    | CallerIssues
    | CallerAnswered(err: Option<string>, loaderId: Option<string>)
    | CallerCallFails
    | CallerGivesUp
    | RequestSent(eventSession: Option<string>, request: Option<string>, loader: Option<string>)
    | RequestFailed(eventSession: Option<string>, errorText: Option<string>, request: Option<string>, now: int)
    | Loaded(session: string)
    | WorkerIssues
    | WorkerAnswered(loaderId: Option<string>)
    | WorkerCallFails

  function Bump(s: seq<nat>, k: nat): seq<nat> {
    if k < |s| then s[k := s[k] + 1] else s
  }

  function Charge(s: Sys, request: Option<string>): seq<seq<string>> {
    var n := |s.charged|;
    if n == 0 then s.charged
    else s.charged[n - 1 := s.charged[n - 1] + Listed(LoaderOf(s.shared, request))]
  }

  /** One atomic step. An action that is not due at its thread does nothing. */
  function Step(s: Sys, a: Action): Sys {
    var n := |s.attempts|;
    match a
    case Navigate(session, url, now) =>
      if !s.caller.Idle? then s
      else s.(shared := Begin(s.shared, session, url, now), caller := Ready(n),
              attempts := s.attempts + [1], issued := s.issued + [0], charged := s.charged + [[]])
    case CallerIssues =>
      if !s.caller.Ready? then s else s.(caller := Waiting(s.caller.nav), issued := Bump(s.issued, s.caller.nav))
    case CallerCallFails => if !s.caller.Waiting? then s else s.(caller := Idle)
    case CallerAnswered(err, loaderId) =>
      if !s.caller.Waiting? then s
      else
        var (shared, settled) := Settle(s.shared, err, loaderId);
        (match settled
         case Retry => s.(shared := shared, caller := Ready(s.caller.nav), attempts := Bump(s.attempts, s.caller.nav))
         case Failed => s.(shared := shared, caller := Failing(s.caller.nav))
         case _ => s.(shared := shared, caller := Idle))
    case CallerGivesUp =>
      if !s.caller.Failing? then s else s.(shared := s.shared.(watch := None), caller := Idle)
    case RequestSent(session, request, loader) =>
      if !s.worker.Free? then s else s.(shared := NoteRequest(s.shared, session, request, loader))
    case Loaded(session) => if !s.worker.Free? then s else s.(shared := NoteLoad(s.shared, session))
    case RequestFailed(session, err, request, now) =>
      var (shared, renavigate) := Renavigate(s.shared, session, err, request, now);
      if !s.worker.Free? || renavigate.None? || n == 0 then s
      else s.(shared := shared, worker := Armed(n - 1, renavigate.value.0, renavigate.value.1), attempts := Bump(s.attempts, n - 1), charged := Charge(s, request))
    case WorkerIssues =>
      if !s.worker.Armed? then s
      else s.(worker := Calling(s.worker.nav, s.worker.session, s.worker.url), issued := Bump(s.issued, s.worker.nav))
    case WorkerAnswered(loaderId) =>
      if !s.worker.Calling? then s else s.(worker := Free, shared := RecordLoader(s.shared, loaderId))
    case WorkerCallFails => if !s.worker.Calling? then s else s.(worker := Free)
  }

  function RunAt(actions: seq<Action>, i: nat): Sys
    requires i <= |actions|
  {
    if i == 0 then START else Step(RunAt(actions, i - 1), actions[i - 1])
  }

  function Extra(attempts: seq<nat>): int {
    if attempts == [] then 0 else Extra(attempts[..|attempts| - 1]) + attempts[|attempts| - 1] - 1
  }

  function Owed(s: Sys, k: nat): nat {
    (if s.caller == Ready(k) then 1 else 0) + (if s.worker.Armed? && s.worker.nav == k then 1 else 0)
  }

  ghost predicate NoRepeats(s: seq<string>) { forall i, j :: 0 <= i < j < |s| ==> s[i] != s[j] }

  /** Attempts are capped, and each is a call made or a call about to be made. */
  ghost predicate Counted(s: Sys) {
    && |s.issued| == |s.attempts| == |s.charged|
    && (forall k :: 0 <= k < |s.attempts| ==> 1 <= s.attempts[k] <= NAVIGATE_ATTEMPTS)
    && (forall k :: 0 <= k < |s.attempts| ==> s.issued[k] + Owed(s, k) == s.attempts[k])
  }

  /** The watch and both threads work for the newest navigation, or none. */
  ghost predicate Current(s: Sys) {
    var n := |s.attempts|;
    && (s.shared.watch.Some? ==> n > 0 && s.shared.watch.value.attempts == s.attempts[n - 1])
    && (!s.caller.Idle? ==> n > 0 && s.caller.nav == n - 1 && s.shared.watch.Some?)
    && (!s.worker.Free? ==> s.worker.nav < n)
  }

  /** A loader that was charged is abandoned, and was charged once. */
  ghost predicate ChargedOnce(s: Sys) {
    var n := |s.charged|;
    && (forall k :: 0 <= k < n ==> NoRepeats(s.charged[k]))
    && (s.shared.watch.Some? && n > 0 ==> forall l :: l in s.charged[n - 1] ==> l in s.shared.watch.value.abandoned)
  }

  ghost predicate Inv(s: Sys) {
    Counted(s) && Current(s) && ChargedOnce(s) && s.shared.recoveries == Extra(s.attempts)
  }

  lemma {:induction false} ExtraBumps(s: seq<nat>, k: nat)
    requires k < |s|
    ensures Extra(Bump(s, k)) == Extra(s) + 1
  {
    var n := |s| - 1;
    if k == n {
      assert Bump(s, k)[..n] == s[..n];
    } else {
      ExtraBumps(s[..n], k);
      assert Bump(s, k)[..n] == Bump(s[..n], k);
    }
  }

  lemma NavigateKeeps(s: Sys, a: Action)
    requires Inv(s) && a.Navigate?
    ensures Inv(Step(s, a))
  {
    ExtraFirst(s.attempts);
    hide Extra;
    if s.caller.Idle? {
      assert Step(s, a) == s.(shared := Begin(s.shared, a.session, a.url, a.now), caller := Ready(|s.attempts|),
                              attempts := s.attempts + [1], issued := s.issued + [0], charged := s.charged + [[]]);
      NavigationKeepsCharges(s, a);
      NavigationKeepsCounts(s, a);
    }
    hide Step, Counted, ChargedOnce, Begin, Current;
  }

  lemma NavigationKeepsCharges(s: Sys, a: Action)
    requires Inv(s) && a.Navigate? && s.caller.Idle?
    ensures ChargedOnce(Step(s, a))
  {
    hide Extra;
  }

  lemma NavigationKeepsCounts(s: Sys, a: Action)
    requires Inv(s) && a.Navigate? && s.caller.Idle?
    ensures Counted(Step(s, a)) && Current(Step(s, a))
  {
    hide Extra, ChargedOnce;
  }

  lemma ExtraFirst(attempts: seq<nat>)
    ensures Extra(attempts + [1]) == Extra(attempts)
  {
    assert (attempts + [1])[..|attempts|] == attempts;
  }

  lemma CallerKeeps(s: Sys, a: Action)
    requires Inv(s) && (a.CallerIssues? || a.CallerCallFails? || a.CallerGivesUp?)
    ensures Inv(Step(s, a))
  {
    hide Extra, ChargedOnce;
    assert ChargedOnce(Step(s, a)) by { UnchargedKeeps(s, a); }
  }

  /** A step that charges nothing, and leaves the watch what it has abandoned, keeps the charges apart. */
  lemma UnchargedKeeps(s: Sys, a: Action)
    requires ChargedOnce(s) && Step(s, a).charged == s.charged
    requires var w, w' := s.shared.watch, Step(s, a).shared.watch;
      w'.Some? ==> w.Some? && w'.value.abandoned == w.value.abandoned
    ensures ChargedOnce(Step(s, a))
  {
    hide Step, NoRepeats;
  }

  lemma AnswerKeeps(s: Sys, a: Action)
    requires Inv(s) && a.CallerAnswered?
    ensures Inv(Step(s, a))
  {
    assert ChargedOnce(Step(s, a)) by { hide Extra; UnchargedKeeps(s, a); }
    AnswerKeepsCounts(s, a);
    AnswerKeepsRecoveries(s, a);
    hide *;
  }

  lemma AnswerKeepsCounts(s: Sys, a: Action)
    requires Counted(s) && Current(s) && a.CallerAnswered?
    ensures Counted(Step(s, a)) && Current(Step(s, a))
  {}

  lemma AnswerKeepsRecoveries(s: Sys, a: Action)
    requires Counted(s) && Current(s) && a.CallerAnswered? && s.shared.recoveries == Extra(s.attempts)
    ensures Step(s, a).shared.recoveries == Extra(Step(s, a).attempts)
  {
    if s.caller.Waiting? { ExtraBumps(s.attempts, s.caller.nav); }
    hide Extra;
  }

  lemma WorkerKeeps(s: Sys, a: Action)
    requires Inv(s) && (a.RequestSent? || a.Loaded? || a.WorkerIssues? || a.WorkerAnswered? || a.WorkerCallFails?)
    ensures Inv(Step(s, a))
  {
    hide Extra, ChargedOnce;
    assert ChargedOnce(Step(s, a)) by { UnchargedKeeps(s, a); }
  }

  lemma FailureKeeps(s: Sys, a: Action)
    requires Inv(s) && a.RequestFailed?
    ensures Inv(Step(s, a))
  {
    if Step(s, a) != s { ExtraBumps(s.attempts, |s.attempts| - 1); }
  }

  lemma {:induction false} AlwaysInv(actions: seq<Action>, i: nat)
    requires i <= |actions|
    ensures Inv(RunAt(actions, i))
  {
    if i > 0 {
      AlwaysInv(actions, i - 1);
      var s, a := RunAt(actions, i - 1), actions[i - 1];
      match a
      case Navigate(_, _, _) => NavigateKeeps(s, a);
      case CallerIssues => CallerKeeps(s, a);
      case CallerAnswered(_, _) => AnswerKeeps(s, a);
      case CallerCallFails => CallerKeeps(s, a);
      case CallerGivesUp => CallerKeeps(s, a);
      case RequestFailed(_, _, _, _) => FailureKeeps(s, a);
      case _ => WorkerKeeps(s, a);
    }
  }

  /** However the threads interleave, one navigation issues at most four `Page.navigate` calls. */
  lemma AtMostFourCalls(actions: seq<Action>, i: nat, nav: nat)
    requires i <= |actions| && nav < |RunAt(actions, i).issued|
    ensures RunAt(actions, i).issued[nav] <= NAVIGATE_ATTEMPTS
  {
    AlwaysInv(actions, i);
  }

  /** The count shown to the user is the number of attempts beyond the first, over all navigations. */
  lemma RecoveriesAreTheExtraAttempts(actions: seq<Action>, i: nat)
    requires i <= |actions|
    ensures RunAt(actions, i).shared.recoveries == Extra(RunAt(actions, i).attempts)
  {
    AlwaysInv(actions, i);
  }

  /** Within one navigation, a loader's requests re-navigate at most once, however many fail and however late. */
  lemma ALoaderRenavigatesOnce(actions: seq<Action>, i: nat, nav: nat)
    requires i <= |actions| && nav < |RunAt(actions, i).charged|
    ensures NoRepeats(RunAt(actions, i).charged[nav])
  {
    AlwaysInv(actions, i);
  }

  /** The page, the URL and the start of the newest navigation. */
  function Newest(actions: seq<Action>, i: nat): Option<(string, string, int)>
    requires i <= |actions|
  {
    if i == 0 then None
    else
      var a := actions[i - 1];
      if a.Navigate? && RunAt(actions, i - 1).caller.Idle? then Some((a.session, a.url, a.now)) else Newest(actions, i - 1)
  }

  ghost predicate WatchesNewest(actions: seq<Action>, i: nat)
    requires i <= |actions|
  {
    var watch := RunAt(actions, i).shared.watch;
    watch.Some? ==> Newest(actions, i) == Some((watch.value.session, watch.value.url, watch.value.started))
  }

  lemma {:induction false} WatchIsTheNewest(actions: seq<Action>, i: nat)
    requires i <= |actions|
    ensures WatchesNewest(actions, i)
  {
    if i > 0 { WatchIsTheNewest(actions, i - 1); }
  }

  /**
    A failing request claims an attempt only when it died of a network change,
    on the newest navigation's page and within its watch; and the worker then
    sets out for that navigation's page and URL.
   */
  lemma ClaimsForTheNewest(actions: seq<Action>, i: nat)
    requires i < |actions| && actions[i].RequestFailed? && RunAt(actions, i + 1) != RunAt(actions, i)
    ensures var a, newest, s := actions[i], Newest(actions, i), RunAt(actions, i);
      && newest.Some? && a.errorText == Some(NETWORK_CHANGED) && a.eventSession == Some(newest.value.0)
      && a.now - newest.value.2 <= NAVIGATION_WATCH_MS && |s.attempts| > 0
      && RunAt(actions, i + 1).worker == Armed(|s.attempts| - 1, newest.value.0, newest.value.1)
  {
    WatchIsTheNewest(actions, i);
  }

  /** Step `m` begins a navigation. */
  predicate Begins(actions: seq<Action>, m: nat)
    requires m < |actions|
  {
    actions[m].Navigate? && RunAt(actions, m).caller.Idle?
  }

  ghost predicate NoneBegins(actions: seq<Action>, k: nat, j: nat)
    requires j <= |actions|
  {
    forall m :: k < m < j ==> !Begins(actions, m)
  }

  lemma NavigationsCount(actions: seq<Action>, j: nat)
    requires j < |actions|
    ensures var s, s' := RunAt(actions, j), RunAt(actions, j + 1);
      |s'.attempts| == |s.attempts| + if Begins(actions, j) then 1 else 0
    ensures !Begins(actions, j) ==> Newest(actions, j + 1) == Newest(actions, j)
  {}

  /** Between `k` and `j` the number of navigations stays exactly when none begins; then the newest is still the newest. */
  lemma {:induction false} NewestUnless(actions: seq<Action>, k: nat, j: nat)
    requires k < j <= |actions| && !Begins(actions, k)
    ensures |RunAt(actions, j).attempts| >= |RunAt(actions, k).attempts|
    ensures |RunAt(actions, j).attempts| == |RunAt(actions, k).attempts| <==> NoneBegins(actions, k, j)
    ensures NoneBegins(actions, k, j) ==> Newest(actions, j) == Newest(actions, k)
  {
    hide RunAt, Begins, Newest;
    NavigationsCount(actions, j - 1);
    if j > k + 1 {
      NewestUnless(actions, k, j - 1);
      assert NoneBegins(actions, k, j) <==> NoneBegins(actions, k, j - 1) && !Begins(actions, j - 1);
    }
  }

  /** From the claim at `k` on, the worker is busy with it: no later event is handled before `j`. */
  ghost predicate BusySince(actions: seq<Action>, k: nat, j: nat)
    requires k < j < |actions|
  {
    && actions[k].RequestFailed? && RunAt(actions, k + 1) != RunAt(actions, k)
    && forall m :: k < m <= j ==> !RunAt(actions, m).worker.Free?
  }

  lemma {:induction false} WorkerKeepsItsErrand(actions: seq<Action>, k: nat, j: nat)
    requires k < j < |actions| && BusySince(actions, k, j)
    ensures var w, newest := RunAt(actions, j).worker, Newest(actions, k);
      && newest.Some? && !w.Free? && |RunAt(actions, k).attempts| > 0
      && w.nav == |RunAt(actions, k).attempts| - 1 && w.session == newest.value.0 && w.url == newest.value.1
  {
    hide Newest, Step;
    if j == k + 1 {
      ClaimsForTheNewest(actions, k);
    } else {
      WorkerKeepsItsErrand(actions, k, j - 1);
      assert RunAt(actions, j) == Step(RunAt(actions, j - 1), actions[j - 1]) && !RunAt(actions, j).worker.Free?;
      ErrandStays(RunAt(actions, j - 1), actions[j - 1]);
    }
  }

  lemma ErrandStays(s: Sys, a: Action)
    requires !s.worker.Free? && !Step(s, a).worker.Free?
    ensures var w, w' := s.worker, Step(s, a).worker; w'.nav == w.nav && w'.session == w.session && w'.url == w.url
  {
    hide Settle, Renavigate, NoteRequest, NoteLoad, Begin;
  }

  /**
    The worker calls outside the lock. Its `Page.navigate` is the newest
    navigation's if and only if none began since the claim; if one did, the call
    still goes to the older URL. And the loader it then records goes into the
    watch of the navigation it called for if and only if none has begun by then.
   */
  lemma WorkerServesTheNewestIff(actions: seq<Action>, k: nat, j: nat)
    requires k < j < |actions| && BusySince(actions, k, j)
    requires actions[j].WorkerIssues? || actions[j].WorkerAnswered?
    ensures var s, asked := RunAt(actions, j), Newest(actions, k);
      && asked.Some? && !s.worker.Free? && s.worker.session == asked.value.0 && s.worker.url == asked.value.1
      && (s.worker.nav == |s.attempts| - 1 <==> NoneBegins(actions, k, j))
      && (NoneBegins(actions, k, j) ==> Newest(actions, j) == asked)
    ensures var s, s' := RunAt(actions, j), RunAt(actions, j + 1);
      actions[j].WorkerAnswered? && s.worker.Calling? && s.shared.watch.Some? ==>
        s'.shared.watch == Some(s.shared.watch.value.(loader := actions[j].loaderId))
  {
    WorkerKeepsItsErrand(actions, k, j);
    hide Newest;
    NewestUnless(actions, k, j);
  }

  /** A navigation whose first reported request is of loader `l` and dies of a network change. */
  lemma FirstRequestDies(s: Sys, page: string, url: string, r: string, l: string)
    requires s.caller.Idle? && s.worker.Free? && |s.attempts| == |s.charged|
    ensures var s1 := Step(s, Navigate(page, url, 0));
      var s2 := Step(s1, RequestSent(Some(page), Some(r), Some(l)));
      var s3 := Step(s2, RequestFailed(Some(page), Some(NETWORK_CHANGED), Some(r), 0));
      && s3.charged == s.charged + [[l]] && |s3.attempts| == |s3.charged|
      && s3.caller.Ready? && s3.worker.Armed?
  {
    var s1 := Step(s, Navigate(page, url, 0));
    var s2 := Step(s1, RequestSent(Some(page), Some(r), Some(l)));
    assert LoaderOf(s2.shared, Some(r)) == Some(l);
    var w := s2.shared.watch.value;
    assert w == Watch(page, url, 0, None, [], 1, false);
    assert Renavigate(s2.shared, Some(page), Some(NETWORK_CHANGED), Some(r), 0).1.Some?;
    assert s2.charged == s.charged + [[]];
    var none: seq<string> := [];
    assert none + [l] == [l];
    assert s2.charged[|s.charged| := none + [l]] == s.charged + [[l]];
  }

  lemma {:induction false} Extend(actions: seq<Action>, a: Action, i: nat)
    requires i <= |actions|
    ensures RunAt(actions + [a], i) == RunAt(actions, i)
    ensures RunAt(actions + [a], |actions| + 1) == Step(RunAt(actions + [a], |actions|), a)
  {
    if i > 0 {
      Extend(actions, a, i - 1);
      assert (actions + [a])[i - 1] == actions[i - 1];
    }
  }

  /** Appends `a` to a run that has reached `s`. */
  lemma Then(actions: seq<Action>, s: Sys, a: Action) returns (actions': seq<Action>, s': Sys)
    requires s == RunAt(actions, |actions|)
    ensures actions' == actions + [a] && s' == Step(s, a) == RunAt(actions', |actions'|)
  {
    Extend(actions, a, |actions|);
    actions', s' := actions + [a], Step(s, a);
  }

  /**
    Once per navigation, not once for ever: after a new `navigate` the same
    loader's requests, still being reported, can re-navigate the new one too.
   */
  lemma ALoaderCanRenavigateTwoNavigations(page: string, url: string, r: string, l: string) returns (actions: seq<Action>)
    ensures RunAt(actions, |actions|).charged == [[l], [l]]
  {
    var go := Navigate(page, url, 0);
    var sent := RequestSent(Some(page), Some(r), Some(l));
    var died := RequestFailed(Some(page), Some(NETWORK_CHANGED), Some(r), 0);
    FirstRequestDies(START, page, url, r, l);
    var s := START;
    actions := [];
    actions, s := Then(actions, s, go);
    actions, s := Then(actions, s, sent);
    actions, s := Then(actions, s, died);
    actions, s := LetGo(actions, s);
    FirstRequestDies(s, page, url, r, l);
    hide Step;
    actions, s := Then(actions, s, go);
    actions, s := Then(actions, s, sent);
    actions, s := Then(actions, s, died);
  }

  /** Both calls are issued and fail, which leaves the navigation's watch in place. */
  lemma LetGo(actions: seq<Action>, s: Sys) returns (actions': seq<Action>, s': Sys)
    requires s == RunAt(actions, |actions|) && s.caller.Ready? && s.worker.Armed?
    ensures s' == RunAt(actions', |actions'|)
    ensures s'.caller.Idle? && s'.worker.Free? && s'.charged == s.charged && s'.attempts == s.attempts
  {
    hide RunAt;
    actions', s' := Then(actions, s, CallerIssues);
    actions', s' := Then(actions', s', CallerCallFails);
    actions', s' := Then(actions', s', WorkerIssues);
    actions', s' := Then(actions', s', WorkerCallFails);
  }

  // ------------------------------------------------------ a loader of an older navigation

  /** A request is reported under a loader that an earlier navigation was charged with. */
  ghost predicate StaleReport(s: Sys, a: Action) {
    && a.RequestSent? && s.worker.Free? && a.loader.Some?
    && exists p :: 0 <= p < |s.charged| - 1 && a.loader.value in s.charged[p]
  }

  ghost predicate OldLoadersGone(s: Sys) {
    && (s.shared.watch.Some? ==> |s.charged| > 0)
    && (forall p, r :: 0 <= p < |s.charged| - 1 && r in s.shared.loaderOf ==> s.shared.loaderOf[r] !in s.charged[p])
    && Apart(s.charged)
  }

  lemma StepKeepsOldGone(s: Sys, a: Action)
    requires |s.attempts| == |s.charged| && OldLoadersGone(s) && !StaleReport(s, a)
    ensures OldLoadersGone(Step(s, a))
  {
    if !a.Navigate? && !a.RequestSent? && !a.RequestFailed? { QuietStep(s, a); hide Step; }
    hide Settle, Attributed;
  }

  /** Only a navigation, a reported request and a failing one touch the loaders. */
  lemma QuietStep(s: Sys, a: Action)
    requires !a.Navigate? && !a.RequestSent? && !a.RequestFailed?
    ensures var s' := Step(s, a);
      s'.charged == s.charged && s'.shared.loaderOf == s.shared.loaderOf && (s'.shared.watch.Some? ==> s.shared.watch.Some?)
  {}

  /** While no request is reported under an earlier navigation's loader, no loader re-navigates two navigations. */
  lemma {:induction false} LoadersStayApart(actions: seq<Action>, i: nat)
    requires i <= |actions| && forall k :: 0 <= k < i ==> !StaleReport(RunAt(actions, k), actions[k])
    ensures OldLoadersGone(RunAt(actions, i))
  {
    hide Step, StaleReport, OldLoadersGone, ChargedOnce, Current;
    if i == 0 {
      NoLoadersYet();
    } else {
      LoadersStayApart(actions, i - 1);
      AlwaysInv(actions, i - 1);
      StepKeepsOldGone(RunAt(actions, i - 1), actions[i - 1]);
    }
  }

  lemma NoLoadersYet()
    ensures OldLoadersGone(START)
  {}

  /** No loader is charged in two navigations. */
  ghost predicate Apart(charged: seq<seq<string>>) {
    forall p, q, l :: 0 <= p < q < |charged| && l in charged[p] ==> l !in charged[q]
  }

  ghost predicate ChargedEarlier(charged: seq<seq<string>>, l: string) {
    exists p :: 0 <= p < |charged| - 1 && l in charged[p]
  }

  /** A claim for a request recorded under a loader that an earlier navigation was charged with. */
  ghost predicate StaleClaim(s: Sys, a: Action) {
    && a.RequestFailed? && Step(s, a) != s
    && var l := LoaderOf(s.shared, a.request); l.Some? && ChargedEarlier(s.charged, l.value)
  }

  lemma ApartWithNone(charged: seq<seq<string>>)
    ensures Apart(charged + [[]]) <==> Apart(charged)
  {
    if Apart(charged + [[]]) {
      assert forall p :: 0 <= p < |charged| ==> (charged + [[]])[p] == charged[p];
    }
  }

  lemma ApartWithCharge(charged: seq<seq<string>>, l: Option<string>)
    requires charged != []
    ensures var n := |charged| - 1;
      Apart(charged[n := charged[n] + Listed(l)]) <==> Apart(charged) && !(l.Some? && ChargedEarlier(charged, l.value))
  {
    var n := |charged| - 1;
    var after := charged[n := charged[n] + Listed(l)];
    assert forall p :: 0 <= p < n ==> after[p] == charged[p];
    if Apart(after) {
      forall x | x in charged[n] ensures x in after[n] {}
      if l.Some? { assert l.value in after[n]; }
    }
  }

  lemma SameCharges(s: Sys, a: Action)
    requires !a.Navigate? && !a.RequestFailed?
    ensures Step(s, a).charged == s.charged
  {}

  lemma ClaimCharges(s: Sys, a: Action)
    requires a.RequestFailed? && |s.attempts| == |s.charged| && Step(s, a) != s
    ensures s.charged != [] && Step(s, a).charged == Charge(s, a.request)
  {
    hide Renavigate;
  }

  lemma ApartAfter(s: Sys, a: Action)
    requires |s.attempts| == |s.charged|
    ensures Apart(Step(s, a).charged) <==> Apart(s.charged) && !StaleClaim(s, a)
  {
    if a.Navigate? {
      ApartWithNone(s.charged);
      assert Step(s, a).charged == if s.caller.Idle? then s.charged + [[]] else s.charged;
    } else if a.RequestFailed? {
      hide Apart, ChargedEarlier;
      if Step(s, a) != s {
        ClaimCharges(s, a);
        ApartWithCharge(s.charged, LoaderOf(s.shared, a.request));
      }
      hide Step;
    } else {
      SameCharges(s, a);
      hide Step, Apart;
    }
  }

  /** A loader is charged in two navigations exactly when some claim was for a request still recorded under an older one's loader. */
  lemma {:induction false} LoadersApartIff(actions: seq<Action>, i: nat)
    requires i <= |actions|
    ensures Apart(RunAt(actions, i).charged) <==> forall k :: 0 <= k < i ==> !StaleClaim(RunAt(actions, k), actions[k])
  {
    hide Step, Apart, StaleClaim;
    if i == 0 {
      ApartAtFirst();
    } else {
      LoadersApartIff(actions, i - 1);
      ChargesMatch(actions, i - 1);
      ApartAfter(RunAt(actions, i - 1), actions[i - 1]);
    }
  }

  lemma ApartAtFirst()
    ensures Apart(START.charged)
  {}

  lemma ChargesMatch(actions: seq<Action>, i: nat)
    requires i <= |actions|
    ensures |RunAt(actions, i).attempts| == |RunAt(actions, i).charged|
  {
    AlwaysInv(actions, i);
    hide RunAt;
  }

  // ------------------------------------------------- an errand for an older navigation

  /** After a claim for an older page, the caller gives its call up and navigates to `url`. */
  lemma NewNavigationOvertakes(actions: seq<Action>, s: Sys, page: string, url: string) returns (actions': seq<Action>, s': Sys)
    requires s == RunAt(actions, |actions|) && s.caller.Ready? && s.worker.Armed?
    ensures s' == RunAt(actions', |actions'|) && s'.worker == s.worker && s'.caller.Waiting?
    ensures |s'.attempts| == |s.attempts| + 1
    ensures s'.shared.watch == Some(Watch(page, url, 0, None, [], 1, false))
  {
    hide RunAt, Renavigate, Settle;
    actions', s' := Then(actions, s, CallerIssues);
    actions', s' := Then(actions', s', CallerCallFails);
    actions', s' := Then(actions', s', Navigate(page, url, 0));
    actions', s' := Then(actions', s', CallerIssues);
  }

  /** The worker then calls for the older page and records what that call answered in the new watch. */
  lemma ErrandComesBack(actions: seq<Action>, s: Sys, loader: string) returns (actions': seq<Action>, s': Sys)
    requires s == RunAt(actions, |actions|) && s.worker.Armed? && s.shared.watch.Some?
    ensures s' == RunAt(actions', |actions'|) && s'.worker.Free?
    ensures s'.shared == s.shared.(watch := Some(s.shared.watch.value.(loader := Some(loader))))
  {
    hide RunAt, Renavigate, Settle;
    actions', s' := Then(actions, s, WorkerIssues);
    actions', s' := Then(actions', s', WorkerAnswered(Some(loader)));
  }

  /**
    The race. A request of page `a` dies, and before the worker has called, the
    window is sent to page `b`: the worker still sends it to `a`, and `b`'s watch
    gets the loader `again` of that load. A request of `b`'s own loader that then
    dies of a network change re-navigates nothing.
   */
  lemma AnOldErrandMisleadsTheWatch(page: string, a: string, b: string, r: string, la: string, again: string, lb: string)
    returns (actions: seq<Action>)
    requires again != lb
    ensures var s := RunAt(actions, |actions|);
      && s.shared.watch == Some(Watch(page, b, 0, Some(again), [], 1, false)) && s.worker.Free?
      && var reported := Step(s, RequestSent(Some(page), Some(r), Some(lb)));
      Step(reported, RequestFailed(Some(page), Some(NETWORK_CHANGED), Some(r), 0)) == reported
  {
    FirstRequestDies(START, page, a, r, la);
    var s := START;
    actions := [];
    actions, s := Then(actions, s, Navigate(page, a, 0));
    actions, s := Then(actions, s, RequestSent(Some(page), Some(r), Some(la)));
    actions, s := Then(actions, s, RequestFailed(Some(page), Some(NETWORK_CHANGED), Some(r), 0));
    hide Step, RunAt;
    actions, s := NewNavigationOvertakes(actions, s, page, b);
    actions, s := ErrandComesBack(actions, s, again);
    OwnFailureIsIgnored(s, page, r, lb);
  }

  lemma OwnFailureIsIgnored(s: Sys, page: string, r: string, l: string)
    requires s.worker.Free? && s.shared.watch.Some?
    requires var w := s.shared.watch.value; w.session == page && w.loader.Some? && w.loader.value != l
    ensures var reported := Step(s, RequestSent(Some(page), Some(r), Some(l)));
      Step(reported, RequestFailed(Some(page), Some(NETWORK_CHANGED), Some(r), 0)) == reported
  {}

  // ------------------------------------------- the loader a failing request really had

  /** Step `k` claims an attempt. */
  predicate Claims(actions: seq<Action>, k: nat)
    requires k < |actions|
  {
    actions[k].RequestFailed? && RunAt(actions, k + 1) != RunAt(actions, k)
  }

  /** Every report names the loader that the request really has. */
  ghost predicate Truthful(actions: seq<Action>, trueLoader: string -> string) {
    forall m :: 0 <= m < |actions| ==> ReportsTruly(actions[m], trueLoader)
  }

  predicate ReportsTruly(a: Action, trueLoader: string -> string) {
    a.RequestSent? && a.request.Some? && a.loader.Some? ==> a.loader.value == trueLoader(a.request.value)
  }

  ghost predicate TrueTo(st: Shared, trueLoader: string -> string) {
    forall r :: r in st.loaderOf ==> st.loaderOf[r] == trueLoader(r)
  }

  lemma StepKeepsTrue(s: Sys, a: Action, trueLoader: string -> string)
    requires TrueTo(s.shared, trueLoader) && ReportsTruly(a, trueLoader)
    ensures TrueTo(Step(s, a).shared, trueLoader)
  {
    hide Attributed;
  }

  lemma {:induction false} LoadersAreTrue(actions: seq<Action>, i: nat, trueLoader: string -> string)
    requires i <= |actions| && Truthful(actions, trueLoader)
    ensures TrueTo(RunAt(actions, i).shared, trueLoader)
  {
    if i > 0 {
      hide Step, TrueTo, ReportsTruly;
      LoadersAreTrue(actions, i - 1, trueLoader);
      StepKeepsTrue(RunAt(actions, i - 1), actions[i - 1], trueLoader);
    } else {
      hide Step;
    }
  }

  /** The watch, if there is one, has abandoned `l`. */
  ghost predicate Abandoned(s: Sys, l: string) { s.shared.watch.Some? ==> l in s.shared.watch.value.abandoned }

  lemma StepKeepsAbandoned(s: Sys, a: Action, l: string)
    requires Abandoned(s, l) && !(a.Navigate? && s.caller.Idle?)
    ensures Abandoned(Step(s, a), l)
  {
    hide Attributed;
  }

  lemma {:induction false} AbandonedStays(actions: seq<Action>, j: nat, i: nat, l: string)
    requires j <= i <= |actions| && Abandoned(RunAt(actions, j), l) && forall m :: j <= m < i ==> !Begins(actions, m)
    ensures Abandoned(RunAt(actions, i), l)
  {
    if j < i {
      hide Step, Abandoned;
      AbandonedStays(actions, j, i - 1, l);
      assert !Begins(actions, i - 1);
      StepKeepsAbandoned(RunAt(actions, i - 1), actions[i - 1], l);
    }
  }

  /** A claim abandons the loader the watch knew and the one the request was reported under. */
  lemma ClaimAbandons(s: Sys, a: Action, l: string)
    requires a.RequestFailed? && Step(s, a) != s
    requires LoaderOf(s.shared, a.request) == Some(l) || s.shared.watch.value.loader == Some(l)
    ensures Abandoned(Step(s, a), l)
  {
    hide Attributed;
  }

  /** No claim is made for a request whose loader is abandoned, reported or not. */
  lemma AbandonedClaimsNothing(s: Sys, a: Action, l: string)
    requires a.RequestFailed? && Abandoned(s, l) && (LoaderOf(s.shared, a.request).Some? ==> LoaderOf(s.shared, a.request).value == l)
    ensures Step(s, a) == s
  {
    hide LoaderOf;
  }

  /**
    A loader re-navigates twice within one navigation only by way of a request
    that failed before its loader was known: neither had the request been
    reported under it, nor did the watch know it.
   */
  lemma OnlyUnknownLoadersClaimTwice(actions: seq<Action>, j: nat, k: nat, trueLoader: string -> string)
    requires j < k < |actions| && Truthful(actions, trueLoader) && Claims(actions, j) && Claims(actions, k)
    requires forall m :: j < m < k ==> !Begins(actions, m)
    requires actions[j].request.Some? && actions[k].request.Some?
    requires trueLoader(actions[j].request.value) == trueLoader(actions[k].request.value)
    ensures var s := RunAt(actions, j);
      && s.shared.watch.Some?
      && LoaderOf(s.shared, actions[j].request) == None
      && s.shared.watch.value.loader != Some(trueLoader(actions[j].request.value))
  {
    hide Step, Abandoned;
    var s, a, b := RunAt(actions, j), actions[j], actions[k];
    var l := trueLoader(a.request.value);
    LoadersAreTrue(actions, j, trueLoader);
    LoadersAreTrue(actions, k, trueLoader);
    assert RunAt(actions, j + 1) == Step(s, a) && RunAt(actions, k + 1) == Step(RunAt(actions, k), b);
    ClaimNeedsAWatch(s, a);
    if LoaderOf(s.shared, a.request) == Some(l) || s.shared.watch.value.loader == Some(l) {
      ClaimAbandons(s, a, l);
      AbandonedStays(actions, j + 1, k, l);
      AbandonedClaimsNothing(RunAt(actions, k), b, l);
      assert false;
    }
  }

  lemma ClaimNeedsAWatch(s: Sys, a: Action)
    requires a.RequestFailed? && Step(s, a) != s
    ensures s.shared.watch.Some?
  {
    hide Attributed;
  }

  /** A request dies of a network change. */
  function Died(page: string, r: string): Action { RequestFailed(Some(page), Some(NETWORK_CHANGED), Some(r), 0) }

  /** A watch that knows no loader and has abandoned none lets an unreported request claim, and is as before but for the count. */
  lemma UnknownClaims(s: Sys, page: string, r: string, w: Watch)
    requires s.worker.Free? && s.shared == Shared(Some(w), map[], s.shared.recoveries)
    requires w == Watch(page, w.url, 0, None, [], w.attempts, false) && w.attempts < NAVIGATE_ATTEMPTS && s.attempts == [w.attempts]
    ensures var s' := Step(s, Died(page, r));
      && s'.shared == Shared(Some(w.(attempts := w.attempts + 1)), map[], s.shared.recoveries + 1)
      && s'.worker.Armed? && s'.attempts == [w.attempts + 1] && s' != s
  {
    assert LoaderOf(s.shared, Some(r)) == None;
    var none: seq<string> := [];
    assert none + Listed(None) + Listed(None) == none;
  }

  /** The worker's call fails, and it is free again with the watch as it was. */
  lemma ErrandFails(s: Sys)
    requires s.worker.Armed?
    ensures var s' := Step(Step(s, WorkerIssues), WorkerCallFails);
      s'.worker.Free? && s'.shared == s.shared && s'.attempts == s.attempts
  {
    hide Renavigate, Settle;
  }

  /** The run in which two requests of `page`, neither reported yet, die one after the other. */
  function TwoDie(page: string, url: string, r1: string, r2: string): seq<Action> {
    [Navigate(page, url, 0), Died(page, r1), WorkerIssues, WorkerCallFails, Died(page, r2)]
  }

  /** And so it can: each of the two re-navigates, whatever loader they share. */
  lemma UnknownLoadersClaimTwice(page: string, url: string, r1: string, r2: string)
    ensures var actions := TwoDie(page, url, r1, r2);
      Claims(actions, 1) && Claims(actions, 4) && !Begins(actions, 2) && !Begins(actions, 3)
      && RunAt(actions, 5).attempts == [3]
  {
    var actions, w := TwoDie(page, url, r1, r2), Watch(page, url, 0, None, [], 1, false);
    var s1 := Step(START, actions[0]);
    assert s1.shared == Shared(Some(w), map[], 0) && s1.attempts == [1];
    UnknownClaims(s1, page, r1, w);
    var s2 := Step(s1, actions[1]);
    ErrandFails(s2);
    var s4 := Step(Step(s2, WorkerIssues), WorkerCallFails);
    UnknownClaims(s4, page, r2, w.(attempts := 2));
    hide Step;
    assert RunAt(actions, 1) == s1;
    assert RunAt(actions, 2) == s2;
    assert RunAt(actions, 4) == s4;
  }
}
