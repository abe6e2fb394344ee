/**
  The studio front's writes to a git checkout. HEAD, the index and the work tree
  are maps by path; a git command either takes effect or fails and leaves
  everything as it was. `budget` is how many commands succeed before one fails
  for a reason of its own; the first failure abandons the save or the sweep.
 */
module Studio {
  import opened Prelude
  import opened Guard
  import opened Separated

  /** A file of the work tree: its bytes, and the size and time stamp `lstat` shows. */
  datatype File = File(content: string, stamp: int)

  datatype Repo = Repo(head: map<string, string>, index: map<string, string>, work: map<string, File>)

  datatype Config = Config(root: seq<string>, allowlist: seq<string>)

  function At<V>(m: map<string, V>, p: string): Option<V> { if p in m then Some(m[p]) else None }

  function Content(r: Repo, p: string): Option<string> { if p in r.work then Some(r.work[p].content) else None }

  function Put(m: map<string, string>, p: string, v: Option<string>): map<string, string> {
    if v.Some? then m[p := v.value] else m - {p}
  }

  // -------------------------------------------------------------- changedPaths

  datatype Change = Same | Added | Modified | Deleted

  function Compare(a: Option<string>, b: Option<string>): Change {
    if a == b then Same else if a.None? then Added else if b.None? then Deleted else Modified
  }

  /** The status code of a path and its stamp, or that it is gone. */
  datatype Sig = Sig(untracked: bool, staged: Change, unstaged: Change, stamp: Option<int>)

  predicate Dirty(r: Repo, p: string) { !(At(r.head, p) == At(r.index, p) == Content(r, p)) }

  function SigOf(r: Repo, p: string): Sig {
    var stamp := if p in r.work then Some(r.work[p].stamp) else None;
    if p !in r.index && p in r.work then Sig(true, Same, Same, stamp)
    else Sig(false, Compare(At(r.head, p), At(r.index, p)), Compare(At(r.index, p), Content(r, p)), stamp)
  }

  function ChangedPaths(r: Repo): map<string, Sig> {
    map p | p in r.head.Keys + r.index.Keys + r.work.Keys && Dirty(r, p) :: SigOf(r, p)
  }

  /** `order` lists the keys of `m`, each once. */
  ghost predicate Lists(order: seq<string>, m: map<string, Sig>) {
    && (forall p :: p in order <==> p in m)
    && forall i, j :: 0 <= i < j < |order| ==> order[i] != order[j]
  }

  function Select(order: seq<string>, keep: string -> bool): (s: seq<string>)
    ensures forall p :: p in s <==> p in order && keep(p)
    ensures (forall i, j :: 0 <= i < j < |order| ==> order[i] != order[j]) ==>
              forall i, j :: 0 <= i < j < |s| ==> s[i] != s[j]
  {
    if order == [] then []
    else
      var rest := Select(order[1..], keep);
      assert forall p :: p in order <==> p == order[0] || p in order[1..];
      if keep(order[0]) then [order[0]] + rest else rest
  }

  /** The paths whose signature the request changed: those dirty after it, then those dirty only before. */
  function Touched(before: map<string, Sig>, beforeOrder: seq<string>, after: map<string, Sig>, afterOrder: seq<string>): seq<string> {
    Select(afterOrder, p => At(after, p) != At(before, p)) + Select(beforeOrder, p => p !in after)
  }

  lemma TouchedIsTheChange(before: map<string, Sig>, beforeOrder: seq<string>, after: map<string, Sig>, afterOrder: seq<string>)
    requires Lists(beforeOrder, before) && Lists(afterOrder, after)
    ensures var t := Touched(before, beforeOrder, after, afterOrder);
      && (forall p :: p in t <==> At(after, p) != At(before, p))
      && forall i, j :: 0 <= i < j < |t| ==> t[i] != t[j]
  {}

  /** A path whose file got another stamp, appeared or vanished has another signature, as far as it has one. */
  lemma NewStampNewSignature(r0: Repo, r: Repo, p: string)
    requires (p in r0.work <==> p in r.work) ==> p in r.work && r0.work[p].stamp != r.work[p].stamp
    ensures Dirty(r0, p) || Dirty(r, p) ==> At(ChangedPaths(r0), p) != At(ChangedPaths(r), p)
  {
    DirtyIsListed(r0, p);
    DirtyIsListed(r, p);
    hide Dirty;
  }

  /**
    Nothing escapes the signatures but what git's status cannot tell: of a path
    with the same signature before and after, if any, the file has the same
    stamp or is gone both times, and index and HEAD, and index and file, differ
    in the same way.
   */
  lemma SameSignature(r0: Repo, r: Repo, p: string)
    requires At(ChangedPaths(r0), p) == At(ChangedPaths(r), p)
    ensures Dirty(r0, p) <==> Dirty(r, p)
    ensures Dirty(r, p) ==>
      && (p in r0.work <==> p in r.work) && (p in r.work ==> r0.work[p].stamp == r.work[p].stamp)
      && ((p !in r0.index && p in r0.work) <==> (p !in r.index && p in r.work))
      && ((p in r.index || p !in r.work) ==>
            Compare(At(r0.head, p), At(r0.index, p)) == Compare(At(r.head, p), At(r.index, p))
            && Compare(At(r0.index, p), Content(r0, p)) == Compare(At(r.index, p), Content(r, p)))
  {
    DirtyIsListed(r0, p);
    DirtyIsListed(r, p);
    hide Dirty, Compare;
  }

  // ------------------------------------------------------------------ one path

  datatype Run = Going(repo: Repo, budget: nat) | Threw(repo: Repo)

  /** The sweep's work on one touched path `p`, judged `g`. */
  function Settle(g: Verdict, p: string, r: Repo, budget: nat, stamp: int): Run {
    if g.Refused? then
      if p !in r.index then Going(r.(work := r.work - {p}), budget)
      else if budget == 0 || p !in r.head then Threw(r)
      else Going(r.(index := r.index[p := r.head[p]], work := r.work[p := File(r.head[p], stamp)]), budget - 1)
    else
      var q := g.rel;
      if budget == 0 || (q !in r.index && q !in r.work) then Threw(r)
      else
        var staged := r.(index := Put(r.index, q, Content(r, q)));
        if budget == 1 then Threw(staged)
        else if At(staged.index, q) == At(staged.head, q) then Going(staged, budget - 2)
        else if budget == 2 then Threw(staged)
        else
          var committed := staged.(head := Put(staged.head, q, Content(r, q)));
          if budget == 3 then Threw(committed) else Going(committed, budget - 4)
  }

  function SweepAt(cfg: Config, touched: seq<string>, r: Repo, budget: nat, stamp: int, k: nat): Run
    requires k <= |touched|
  {
    if k == 0 then Going(r, budget)
    else match SweepAt(cfg, touched, r, budget, stamp, k - 1)
      case Threw(r') => Threw(r')
      case Going(r', b) =>
        Settle(Check(cfg.root, touched[k - 1], cfg.allowlist), touched[k - 1], r', b, stamp)
  }

  /** The refused among the first `k` touched paths, in order. */
  function RefusedOf(cfg: Config, touched: seq<string>, k: nat): seq<string>
    requires k <= |touched|
  {
    if k == 0 then []
    else
      var earlier := RefusedOf(cfg, touched, k - 1);
      if Check(cfg.root, touched[k - 1], cfg.allowlist).Refused? then earlier + [touched[k - 1]] else earlier
  }

  predicate Refuses(cfg: Config, p: string) { Check(cfg.root, p, cfg.allowlist).Refused? }

  /** `refused` holds exactly the touched paths that the guard refuses, each as often as it was touched, in their order. */
  ghost predicate PicksOut(cfg: Config, touched: seq<string>, refused: seq<string>) {
    && (forall p :: p in refused <==> p in touched && Refuses(cfg, p))
    && exists at: seq<nat> :: Positions(cfg, touched, |touched|, refused, at)
  }

  /** The `k`-th refused path is the touched one at `at[k]`, and every refused one of the first `n` is at one of these positions. */
  ghost predicate Positions(cfg: Config, touched: seq<string>, n: nat, refused: seq<string>, at: seq<nat>)
    requires n <= |touched|
  {
    && |at| == |refused|
    && (forall i, j :: 0 <= i < j < |at| ==> at[i] < at[j])
    && (forall k :: 0 <= k < |at| ==> at[k] < n && touched[at[k]] == refused[k] && Refuses(cfg, refused[k]))
    && forall m :: 0 <= m < n && Refuses(cfg, touched[m]) ==> m in at
  }

  lemma AddPosition(cfg: Config, touched: seq<string>, n: nat, refused: seq<string>, at: seq<nat>)
    requires n < |touched| && Positions(cfg, touched, n, refused, at)
    ensures if Refuses(cfg, touched[n]) then Positions(cfg, touched, n + 1, refused + [touched[n]], at + [n])
            else Positions(cfg, touched, n + 1, refused, at)
  {
    hide Refuses;
    if Refuses(cfg, touched[n]) {
      assert forall m :: m in at ==> m in at + [n];
      assert (at + [n])[|at|] == n;
    }
  }

  lemma {:induction false} RefusedAt(cfg: Config, touched: seq<string>, n: nat) returns (at: seq<nat>)
    requires n <= |touched|
    ensures Positions(cfg, touched, n, RefusedOf(cfg, touched, n), at)
  {
    hide Check, Positions;
    if n == 0 {
      at := [];
      NoPositions(cfg, touched);
    } else {
      at := RefusedAt(cfg, touched, n - 1);
      AddPosition(cfg, touched, n - 1, RefusedOf(cfg, touched, n - 1), at);
      if Refuses(cfg, touched[n - 1]) { at := at + [n - 1]; }
    }
  }

  lemma NoPositions(cfg: Config, touched: seq<string>)
    ensures Positions(cfg, touched, 0, [], [])
  {}

  lemma PositionsPick(cfg: Config, touched: seq<string>, refused: seq<string>, at: seq<nat>, p: string)
    requires Positions(cfg, touched, |touched|, refused, at)
    ensures p in refused <==> p in touched && Refuses(cfg, p)
  {
    hide Refuses;
    if p in refused {
      var k :| 0 <= k < |refused| && refused[k] == p;
      assert touched[at[k]] == p;
    }
    if p in touched && Refuses(cfg, p) {
      var m :| 0 <= m < |touched| && touched[m] == p;
      var k :| 0 <= k < |at| && at[k] == m;
      assert refused[k] == p;
    }
  }

  lemma RefusedArePicked(cfg: Config, touched: seq<string>)
    ensures var refused := RefusedOf(cfg, touched, |touched|);
      PicksOut(cfg, touched, refused) && (refused == [] <==> forall p :: p in touched ==> !Refuses(cfg, p))
  {
    hide Refuses, Positions, RefusedOf;
    var refused := RefusedOf(cfg, touched, |touched|);
    var at := RefusedAt(cfg, touched, |touched|);
    forall p ensures p in refused <==> p in touched && Refuses(cfg, p) { PositionsPick(cfg, touched, refused, at, p); }
    if refused != [] { assert refused[0] in refused; }
  }

  /** How making the directories and writing the file went: all, part of the content, or nothing. */
  datatype Disk = Written | Cut(part: string) | Nothing

  /** The checkout, changed in place by one git command at a time. */
  class Checkout {
    var head: map<string, string>
    var index: map<string, string>
    var work: map<string, File>
    var budget: nat

    function View(): Repo
      reads this
    {
      Repo(head, index, work)
    }

    constructor (r: Repo, budget: nat)
      ensures View() == r && this.budget == budget
    {
      head, index, work := r.head, r.index, r.work;
      this.budget := budget;
    }

    /** `git add -A -- p`: refuses a path that matches nothing. */
    method Add(p: string) returns (ok: bool)
      modifies `index, `budget
      ensures ok <==> old(budget) > 0 && (p in old(index) || p in work)
      ensures index == if ok then Put(old(index), p, Content(View(), p)) else old(index)
      ensures budget == if ok then old(budget) - 1 else old(budget)
    {
      ok := budget > 0 && (p in index || p in work);
      if ok {
        index := if p in work then index[p := work[p].content] else index - {p};
        budget := budget - 1;
      }
    }

    /** `git diff --cached --name-only -- p`. */
    method Staged(p: string) returns (ok: bool, staged: bool)
      modifies `budget
      ensures ok <==> old(budget) > 0
      ensures budget == if ok then old(budget) - 1 else old(budget)
      ensures staged == (At(index, p) != At(head, p))
    {
      ok, staged := budget > 0, At(index, p) != At(head, p);
      if ok { budget := budget - 1; }
    }

    /** `git commit -- p`: records the work tree's content of `p`, and nothing else. */
    method Commit(p: string) returns (ok: bool)
      modifies `head, `index, `budget
      ensures ok <==> old(budget) > 0
      ensures head == if ok then Put(old(head), p, Content(View(), p)) else old(head)
      ensures index == if ok then Put(old(index), p, Content(View(), p)) else old(index)
      ensures budget == if ok then old(budget) - 1 else old(budget)
    {
      ok := budget > 0;
      if ok {
        head := Put(head, p, Content(View(), p));
        index := Put(index, p, Content(View(), p));
        budget := budget - 1;
      }
    }

    /** `git checkout HEAD -- p`: refuses a path HEAD does not have. */
    method Restore(p: string, stamp: int) returns (ok: bool)
      modifies `index, `work, `budget
      ensures ok <==> old(budget) > 0 && p in head
      ensures ok ==> index == old(index)[p := head[p]] && work == old(work)[p := File(head[p], stamp)]
      ensures !ok ==> index == old(index) && work == old(work)
      ensures budget == if ok then old(budget) - 1 else old(budget)
    {
      ok := budget > 0 && p in head;
      if ok {
        index, work := index[p := head[p]], work[p := File(head[p], stamp)];
        budget := budget - 1;
      }
    }

    /** `git rev-parse HEAD`. */
    method RevParse() returns (ok: bool)
      modifies `budget
      ensures ok <==> old(budget) > 0
      ensures budget == if ok then old(budget) - 1 else old(budget)
    {
      ok := budget > 0;
      if ok { budget := budget - 1; }
    }

    /** One turn of the sweep's loop. */
    method SettlePath(cfg: Config, p: string, stamp: int) returns (ok: bool, refused: bool)
      modifies this
      ensures var g := Check(cfg.root, p, cfg.allowlist);
        && Settle(g, p, old(View()), old(budget), stamp) == (if ok then Going(View(), budget) else Threw(View()))
        && refused == g.Refused?
    {
      hide Check;
      var g := Check(cfg.root, p, cfg.allowlist);
      refused := g.Refused?;
      if g.Refused? {
        if p in index {
          ok := Restore(p, stamp);
        } else {
          work := work - {p};
          ok := true;
        }
        return;
      }
      ok := Add(g.rel);
      if !ok { return; }
      var staged;
      ok, staged := Staged(g.rel);
      if !ok || !staged { return; }
      ok := Commit(g.rel);
      if !ok { return; }
      assert index == Put(index, g.rel, Content(View(), g.rel));
      ok := RevParse();
    }

    /** `sweep`, given the changed paths before the request and git's listings of both sets. */
    method Sweep(cfg: Config, before: map<string, Sig>, beforeOrder: seq<string>, afterOrder: seq<string>, stamp: int)
      returns (ok: bool, refused: seq<string>, touched: seq<string>)
      requires Lists(beforeOrder, before) && Lists(afterOrder, ChangedPaths(View()))
      modifies this
      ensures touched == Touched(before, beforeOrder, ChangedPaths(old(View())), afterOrder)
      ensures SweepAt(cfg, touched, old(View()), old(budget), stamp, |touched|) == (if ok then Going(View(), budget) else Threw(View()))
      ensures ok ==> PicksOut(cfg, touched, refused)
      ensures ok ==> (refused == [] <==> forall p :: p in touched ==> !Refuses(cfg, p))
    {
      hide Check, Settle, Select, Touched, ChangedPaths, PicksOut, Refuses;
      refused, ok := [], true;
      touched := Touched(before, beforeOrder, ChangedPaths(View()), afterOrder);
      var k := 0;
      while k < |touched| && ok
        invariant k <= |touched|
        invariant SweepAt(cfg, touched, old(View()), old(budget), stamp, k) == (if ok then Going(View(), budget) else Threw(View()))
        invariant ok ==> refused == RefusedOf(cfg, touched, k)
        decreases |touched| - k
      {
        var no;
        ok, no := SettlePath(cfg, touched[k], stamp);
        if ok && no { refused := refused + [touched[k]]; }
        k := k + 1;
      }
      if !ok { ThrewStays(cfg, touched, old(View()), old(budget), stamp, k, |touched|); }
      RefusedArePicked(cfg, touched);
    }

    /**
      `save`. A refused save changes nothing. One that goes through leaves HEAD,
      the index and the work tree with `content` at the path the guard allowed,
      and made a commit exactly if HEAD had something else there; it goes through
      exactly if the file is written and no git command fails. A failure to write
      the file stops it before git hears of it. Whatever happens, no other path
      changes.
     */
    method Save(cfg: Config, requested: string, content: string, disk: Disk, stamp: int)
      returns (ok: bool, v: Verdict, committed: bool)
      modifies this
      ensures v == Check(cfg.root, requested, cfg.allowlist)
      ensures v.Refused? ==> ok && !committed && View() == old(View())
      ensures v.Allowed? ==>
        (ok <==> disk.Written? && old(budget) >= if old(At(head, v.rel)) == Some(content) then 2 else 4)
      ensures v.Allowed? && ok ==> (committed <==> old(At(head, v.rel)) != Some(content))
      ensures v.Allowed? && ok ==> At(head, v.rel) == At(index, v.rel) == Content(View(), v.rel) == Some(content)
      ensures v.Allowed? && !disk.Written? ==> !ok && head == old(head) && index == old(index)
      ensures v.Allowed? ==> forall p :: p != v.rel ==>
        At(head, p) == old(At(head, p)) && At(index, p) == old(At(index, p)) && At(work, p) == old(At(work, p))
    {
      hide Check;
      ok, v, committed := true, Check(cfg.root, requested, cfg.allowlist), false;
      if v.Refused? { return; }
      match disk {
        case Written => work := work[v.rel := File(content, stamp)];
        case Cut(part) => work := work[v.rel := File(part, stamp)];
        case Nothing =>
      }
      if !disk.Written? { return false, v, false; }
      ok := Add(v.rel);
      if !ok { return; }
      var staged;
      ok, staged := Staged(v.rel);
      if !ok || !staged { return; }
      ok := Commit(v.rel);
      if !ok { return; }
      committed := true;
      ok := RevParse();
    }
  }

  lemma {:induction false} ThrewStays(cfg: Config, touched: seq<string>, r: Repo, budget: nat, stamp: int, j: nat, k: nat)
    requires j <= k <= |touched| && SweepAt(cfg, touched, r, budget, stamp, j).Threw?
    ensures SweepAt(cfg, touched, r, budget, stamp, k) == SweepAt(cfg, touched, r, budget, stamp, j)
  {
    if j < k { ThrewStays(cfg, touched, r, budget, stamp, j, k - 1); }
  }

  // ------------------------------------------------------------- what a sweep does

  ghost predicate SameAt(r: Repo, r': Repo, p: string) {
    At(r.head, p) == At(r'.head, p) && At(r.index, p) == At(r'.index, p) && At(r.work, p) == At(r'.work, p)
  }

  /** Settling a path changes that path only, even when a command fails half way. */
  lemma SettleIsLocal(g: Verdict, p: string, r: Repo, budget: nat, stamp: int, other: string)
    requires other != p && (g.Allowed? ==> g.rel == p)
    ensures SameAt(r, Settle(g, p, r, budget, stamp).repo, other)
  {}

  /** How a settled path ends up: committed as it is, put back, or removed. */
  ghost predicate Settled(g: Verdict, r: Repo, r': Repo, p: string) {
    if g.Allowed? then
      && At(r'.head, p) == At(r'.index, p) == Content(r', p) && At(r'.work, p) == At(r.work, p)
    else
      && At(r'.head, p) == At(r.head, p)
      && (if p in r.index then At(r'.head, p) == At(r'.index, p) == Content(r', p) && p in r'.head
          else p !in r'.index && p !in r'.work)
  }

  lemma SettleSettles(g: Verdict, p: string, r: Repo, budget: nat, stamp: int)
    requires (g.Allowed? ==> g.rel == p) && Settle(g, p, r, budget, stamp).Going?
    ensures Settled(g, r, Settle(g, p, r, budget, stamp).repo, p)
  {}

  /** The verdict on `p`, with nothing left of the path but `p` itself. */
  ghost predicate Plain(cfg: Config, p: string) {
    Check(cfg.root, p, cfg.allowlist).Allowed? ==> Check(cfg.root, p, cfg.allowlist).rel == p
  }

  /** Untouched paths keep HEAD, index and work tree, to the byte and the stamp, however the sweep ends. */
  lemma {:induction false} UntouchedStays(cfg: Config, touched: seq<string>, r: Repo, budget: nat, stamp: int, k: nat, p: string)
    requires k <= |touched| && p !in touched[..k]
    requires forall i :: 0 <= i < |touched| ==> Plain(cfg, touched[i])
    ensures SameAt(r, SweepAt(cfg, touched, r, budget, stamp, k).repo, p)
  {
    if k > 0 {
      assert touched[..k] == touched[..k - 1] + [touched[k - 1]];
      UntouchedStays(cfg, touched, r, budget, stamp, k - 1, p);
      var before := SweepAt(cfg, touched, r, budget, stamp, k - 1);
      if before.Going? {
        var q := touched[k - 1];
        assert Plain(cfg, q);
        SettleIsLocal(Check(cfg.root, q, cfg.allowlist), q, before.repo, before.budget, stamp, p);
      }
    }
  }

  ghost predicate Distinct(s: seq<string>) { forall i, j :: 0 <= i < j < |s| ==> s[i] != s[j] }

  /** Each touched path of a finished sweep was settled from the state the request left it in. */
  lemma {:induction false} TouchedIsSettled(cfg: Config, touched: seq<string>, r: Repo, budget: nat, stamp: int, k: nat, i: nat)
    requires i < k <= |touched| && Distinct(touched)
    requires forall j :: 0 <= j < |touched| ==> Plain(cfg, touched[j])
    requires SweepAt(cfg, touched, r, budget, stamp, k).Going?
    ensures Settled(Check(cfg.root, touched[i], cfg.allowlist), r, SweepAt(cfg, touched, r, budget, stamp, k).repo, touched[i])
  {
    hide Check, Settle, Settled;
    var before, q := SweepAt(cfg, touched, r, budget, stamp, k - 1), touched[k - 1];
    var g := Check(cfg.root, q, cfg.allowlist);
    assert Plain(cfg, q);
    if i == k - 1 {
      UntouchedStays(cfg, touched, r, budget, stamp, k - 1, q);
      SettleSettles(g, q, before.repo, before.budget, stamp);
      SettledFrom(g, r, before.repo, Settle(g, q, before.repo, before.budget, stamp).repo, q);
    } else {
      TouchedIsSettled(cfg, touched, r, budget, stamp, k - 1, i);
      SettleIsLocal(g, q, before.repo, before.budget, stamp, touched[i]);
      SettledTo(Check(cfg.root, touched[i], cfg.allowlist), r, before.repo,
                Settle(g, q, before.repo, before.budget, stamp).repo, touched[i]);
    }
  }

  lemma SettledFrom(g: Verdict, r: Repo, r1: Repo, r2: Repo, p: string)
    requires SameAt(r, r1, p) && Settled(g, r1, r2, p)
    ensures Settled(g, r, r2, p)
  {}

  lemma SettledTo(g: Verdict, r: Repo, r1: Repo, r2: Repo, p: string)
    requires Settled(g, r, r1, p) && SameAt(r1, r2, p)
    ensures Settled(g, r, r2, p)
  {}

  /** The sweep after a request that found the checkout as `r0` and left it as `r`. */
  ghost predicate SweepOf(cfg: Config, r0: Repo, r: Repo, touched: seq<string>) {
    && Distinct(touched)
    && (forall p :: p in touched <==> At(ChangedPaths(r), p) != At(ChangedPaths(r0), p))
    && forall i :: 0 <= i < |touched| ==> Guard.Canonical(touched[i])
  }

  lemma CanonicalIsPlain(cfg: Config, p: string)
    requires Guard.Canonical(p)
    ensures Plain(cfg, p)
  {
    if Check(cfg.root, p, cfg.allowlist).Allowed? { CanonicalStays(cfg.root, p, cfg.allowlist); }
  }

  /**
    A sweep in which no command fails. An allowlisted path the request changed
    is committed: HEAD, index and work tree agree on what the request wrote. A
    refused one is equal to HEAD again, save one kind: a path of HEAD that the
    request removed from the index is only removed from the work tree. Every
    other path is exactly as it was.
   */
  lemma SweepCommitsOrPutsBack(cfg: Config, r0: Repo, r: Repo, touched: seq<string>, budget: nat, stamp: int, p: string)
    requires SweepOf(cfg, r0, r, touched)
    requires SweepAt(cfg, touched, r, budget, stamp, |touched|).Going?
    ensures var r' := SweepAt(cfg, touched, r, budget, stamp, |touched|).repo;
      if p !in touched then SameAt(r, r', p)
      else if Check(cfg.root, p, cfg.allowlist).Allowed? then
        At(r'.head, p) == At(r'.index, p) == Content(r', p) == Content(r, p)
      else
        && At(r'.head, p) == At(r.head, p)
        && (Content(r', p) == At(r.head, p) == At(r'.index, p) <==> p in r.index || p !in r.head)
  {
    hide Check;
    forall i | 0 <= i < |touched| ensures Plain(cfg, touched[i]) { CanonicalIsPlain(cfg, touched[i]); }
    if p in touched {
      var i :| 0 <= i < |touched| && touched[i] == p;
      TouchedIsSettled(cfg, touched, r, budget, stamp, |touched|, i);
    } else {
      assert touched[..|touched|] == touched;
      UntouchedStays(cfg, touched, r, budget, stamp, |touched|, p);
    }
  }

  /** Every path up to the `i`-th meets no refusal by git itself. */
  ghost predicate SettlesUpTo(cfg: Config, touched: seq<string>, r: Repo, i: nat)
    requires i < |touched|
  {
    forall k :: 0 <= k <= i ==> Settleable(Check(cfg.root, touched[k], cfg.allowlist), r, touched[k])
  }

  lemma SettlesIffGoing(cfg: Config, touched: seq<string>, r: Repo, budget: nat, stamp: int, i: nat)
    requires i < |touched| && Distinct(touched) && budget >= 4 * |touched|
    requires forall j :: 0 <= j < |touched| ==> Plain(cfg, touched[j])
    ensures SweepAt(cfg, touched, r, budget, stamp, i + 1).Going? <==> SettlesUpTo(cfg, touched, r, i)
  {
    hide SweepAt, Settleable, Plain, Distinct;
    SweepGoesThroughIff(cfg, touched, r, budget, stamp, i + 1);
  }

  /** What later turns leave of the `i`-th path: whatever its own turn left. */
  lemma {:induction false} LaterTurnsKeep(cfg: Config, touched: seq<string>, r: Repo, budget: nat, stamp: int, i: nat, k: nat)
    requires i < k <= |touched| && Distinct(touched)
    requires forall j :: 0 <= j < |touched| ==> Plain(cfg, touched[j])
    ensures SameAt(SweepAt(cfg, touched, r, budget, stamp, i + 1).repo, SweepAt(cfg, touched, r, budget, stamp, k).repo, touched[i])
  {
    if k > i + 1 {
      hide Check, Settle;
      LaterTurnsKeep(cfg, touched, r, budget, stamp, i, k - 1);
      var before, q := SweepAt(cfg, touched, r, budget, stamp, k - 1), touched[k - 1];
      assert Plain(cfg, q) && q != touched[i];
      if before.Going? {
        SettleIsLocal(Check(cfg.root, q, cfg.allowlist), q, before.repo, before.budget, stamp, touched[i]);
      }
    }
  }

  /** A sweep that never comes to the `i`-th path, or throws over it for want of anything to add or restore, leaves it alone. */
  lemma {:induction false} ThrownBeforeStays(cfg: Config, touched: seq<string>, r: Repo, budget: nat, stamp: int, i: nat)
    requires i < |touched| && Distinct(touched) && budget >= 4 * |touched|
    requires forall j :: 0 <= j < |touched| ==> Plain(cfg, touched[j])
    requires SweepAt(cfg, touched, r, budget, stamp, i + 1).Threw?
    ensures SameAt(r, SweepAt(cfg, touched, r, budget, stamp, i + 1).repo, touched[i])
  {
    hide Check;
    var before, q := SweepAt(cfg, touched, r, budget, stamp, i), touched[i];
    UntouchedStays(cfg, touched, r, budget, stamp, i, q);
    SweepGoesThroughIff(cfg, touched, r, budget, stamp, i);
    assert Plain(cfg, q);
    if before.Going? { ThrowLeaves(Check(cfg.root, q, cfg.allowlist), q, before.repo, before.budget, stamp); }
    hide Settle;
  }

  lemma ThrowLeaves(g: Verdict, p: string, r: Repo, budget: nat, stamp: int)
    requires (g.Allowed? ==> g.rel == p) && budget >= 4 && Settle(g, p, r, budget, stamp).Threw?
    ensures Settle(g, p, r, budget, stamp).repo == r
  {}

  /**
    What becomes of the `i`-th touched path, whether the sweep throws or not,
    when no command fails by itself. It ends clean if it was clean, or if git
    can settle every path up to it and, when it is refused, it is in the index or
    not in HEAD. A refused one that ends clean is equal to the HEAD it had; an
    allowlisted one is committed as the request left it.
   */
  lemma EndsCleanIff(cfg: Config, touched: seq<string>, r: Repo, budget: nat, stamp: int, i: nat)
    requires i < |touched| && Distinct(touched) && budget >= 4 * |touched|
    requires forall j :: 0 <= j < |touched| ==> Plain(cfg, touched[j])
    ensures var p, r' := touched[i], SweepAt(cfg, touched, r, budget, stamp, |touched|).repo;
      var g := Check(cfg.root, p, cfg.allowlist);
      && (!Dirty(r', p) <==>
            !Dirty(r, p) || (SettlesUpTo(cfg, touched, r, i) && (g.Allowed? || p in r.index || p !in r.head)))
      && (g.Refused? ==> At(r'.head, p) == At(r.head, p))
      && (g.Allowed? ==> Content(r', p) == Content(r, p))
  {
    hide Check, SettlesUpTo, Settle;
    var n, p := |touched|, touched[i];
    SettlesIffGoing(cfg, touched, r, budget, stamp, i);
    LaterTurnsKeep(cfg, touched, r, budget, stamp, i, n);
    if SettlesUpTo(cfg, touched, r, i) {
      TouchedIsSettled(cfg, touched, r, budget, stamp, i + 1, i);
    } else {
      ThrownBeforeStays(cfg, touched, r, budget, stamp, i);
    }
    hide SweepAt;
  }

  /** What is dirty afterwards is what was dirty before the request and not touched by it, and that one kind. */
  lemma RemainingDirt(cfg: Config, r0: Repo, r: Repo, touched: seq<string>, budget: nat, stamp: int, p: string)
    requires SweepOf(cfg, r0, r, touched)
    requires SweepAt(cfg, touched, r, budget, stamp, |touched|).Going?
    ensures Dirty(SweepAt(cfg, touched, r, budget, stamp, |touched|).repo, p) <==>
      if p in touched then Check(cfg.root, p, cfg.allowlist).Refused? && p in r.head && p !in r.index
      else Dirty(r0, p)
  {
    hide Check;
    SweepCommitsOrPutsBack(cfg, r0, r, touched, budget, stamp, p);
    DirtyIsListed(r, p);
    DirtyIsListed(r0, p);
    hide ChangedPaths;
  }

  lemma DirtyIsListed(r: Repo, p: string)
    ensures p in ChangedPaths(r) <==> Dirty(r, p)
  {}

  /** A path whose settling meets no refusal by git itself. */
  predicate Settleable(g: Verdict, r: Repo, p: string) {
    if g.Allowed? then p in r.index || p in r.work else p in r.index ==> p in r.head
  }

  /**
    When the sweep throws although nothing else goes wrong: exactly when the
    request left an allowlisted path in neither the index nor the work tree (a
    new file it deleted, a deletion it staged), so `git add` matches nothing, or
    staged a refused file HEAD does not have, so `git checkout HEAD` matches
    nothing.
   */
  lemma {:induction false} SweepGoesThroughIff(cfg: Config, touched: seq<string>, r: Repo, budget: nat, stamp: int, k: nat)
    requires k <= |touched| && Distinct(touched) && budget >= 4 * k
    requires forall j :: 0 <= j < |touched| ==> Plain(cfg, touched[j])
    ensures var run := SweepAt(cfg, touched, r, budget, stamp, k);
      && (run.Going? <==> forall i :: 0 <= i < k ==> Settleable(Check(cfg.root, touched[i], cfg.allowlist), r, touched[i]))
      && (run.Going? ==> run.budget + 4 * k >= budget)
  {
    if k > 0 {
      hide Check;
      SweepGoesThroughIff(cfg, touched, r, budget, stamp, k - 1);
      var before, q := SweepAt(cfg, touched, r, budget, stamp, k - 1), touched[k - 1];
      var g := Check(cfg.root, q, cfg.allowlist);
      assert Plain(cfg, q);
      if before.Going? {
        UntouchedStays(cfg, touched, r, budget, stamp, k - 1, q);
        SettleGoesIff(g, q, before.repo, before.budget, stamp);
        SettleableAt(g, r, before.repo, q);
        hide Settle, Settleable, SameAt;
      }
    }
  }

  lemma SettleableAt(g: Verdict, r: Repo, r': Repo, p: string)
    requires SameAt(r, r', p)
    ensures Settleable(g, r, p) <==> Settleable(g, r', p)
  {}

  lemma SettleGoesIff(g: Verdict, p: string, r: Repo, budget: nat, stamp: int)
    requires (g.Allowed? ==> g.rel == p) && budget >= 4
    ensures Settle(g, p, r, budget, stamp).Going? <==> Settleable(g, r, p)
    ensures Settle(g, p, r, budget, stamp).Going? ==> Settle(g, p, r, budget, stamp).budget + 4 >= budget
  {}

  // --------------------------------------------------- where the sweep falls short

  const NO_GLOBS := Config([], [])
  const CLEAN := Repo(map[], map[], map[])
  const FILE := File("x", 0)

  lemma OneSegment(p: string)
    requires Proper(p)
    ensures Guard.Canonical(p) && Check([], p, []).Refused?
  {
    FirstSepAt(p, "", '/');
    assert Split(p, '/') == [p];
  }

  /** The listing after a request names exactly these paths, and before it none was dirty. */
  lemma SweepsFrom(cfg: Config, r0: Repo, r: Repo, touched: seq<string>)
    requires Distinct(touched) && (forall p :: !Dirty(r0, p)) && forall p :: p in touched <==> Dirty(r, p)
    requires forall i :: 0 <= i < |touched| ==> Guard.Canonical(touched[i])
    ensures SweepOf(cfg, r0, r, touched)
  {
    forall p ensures p in touched <==> At(ChangedPaths(r), p) != At(ChangedPaths(r0), p) {
      DirtyIsListed(r0, p);
      DirtyIsListed(r, p);
    }
    hide ChangedPaths, Dirty, Guard.Canonical;
  }

  /** A request stages the deletion of a file that no glob allows; the sweep goes through and leaves it deleted. */
  lemma StagedDeletionStays(stamp: int)
    ensures var before, after := Repo(map["a" := "x"], map["a" := "x"], map["a" := FILE]), Repo(map["a" := "x"], map[], map[]);
      && SweepOf(NO_GLOBS, before, after, ["a"])
      && SweepAt(NO_GLOBS, ["a"], after, 4, stamp, 1) == Going(after, 4) && Dirty(after, "a")
  {
    var before, after := Repo(map["a" := "x"], map["a" := "x"], map["a" := FILE]), Repo(map["a" := "x"], map[], map[]);
    OneSegment("a");
    hide Check, Guard.Canonical;
    SweepsFrom(NO_GLOBS, before, after, ["a"]);
    assert after.work - {"a"} == map[];
    assert SweepAt(NO_GLOBS, ["a"], after, 4, stamp, 0) == Going(after, 4);
  }

  /** A request stages a new file that no glob allows: HEAD has nothing to restore it to, and the sweep throws. */
  lemma StagedNewFileThrows(stamp: int)
    ensures var after := Repo(map[], map["a" := "x"], map["a" := FILE]);
      SweepOf(NO_GLOBS, CLEAN, after, ["a"]) && SweepAt(NO_GLOBS, ["a"], after, 4, stamp, 1) == Threw(after)
  {
    var after := Repo(map[], map["a" := "x"], map["a" := FILE]);
    OneSegment("a");
    hide Check, Guard.Canonical;
    SweepsFrom(NO_GLOBS, CLEAN, after, ["a"]);
    assert SweepAt(NO_GLOBS, ["a"], after, 4, stamp, 0) == Going(after, 4);
  }

  /**
    And what comes behind it is not put back either: a refused untracked `b`
    stays, listed as it will be before the next request, so that no sweep will
    look at it again unless it changes.
   */
  lemma StagedNewFileShieldsTheRest(stamp: int)
    ensures var after := Repo(map[], map["a" := "x"], map["a" := FILE, "b" := FILE]);
      && SweepOf(NO_GLOBS, CLEAN, after, ["a", "b"])
      && SweepAt(NO_GLOBS, ["a", "b"], after, 100, stamp, 2) == Threw(after)
      && Check([], "b", []).Refused? && "b" !in after.head && "b" in ChangedPaths(after)
  {
    var after := Repo(map[], map["a" := "x"], map["a" := FILE, "b" := FILE]);
    OneSegment("a");
    OneSegment("b");
    hide Check, Guard.Canonical;
    SweepsFrom(NO_GLOBS, CLEAN, after, ["a", "b"]);
    assert SweepAt(NO_GLOBS, ["a", "b"], after, 100, stamp, 0) == Going(after, 100);
    assert SweepAt(NO_GLOBS, ["a", "b"], after, 100, stamp, 1) == Threw(after);
  }

  /** A request removes an untracked file at an allowlisted path: `git add` matches nothing, and the sweep throws. */
  lemma VanishedFileThrows(cfg: Config, p: string, stamp: int)
    requires Check(cfg.root, p, cfg.allowlist).Allowed? && Guard.Canonical(p)
    ensures SweepOf(cfg, Repo(map[], map[], map[p := FILE]), CLEAN, [p])
    ensures SweepAt(cfg, [p], CLEAN, 4, stamp, 1) == Threw(CLEAN)
  {
    var before := Repo(map[], map[], map[p := FILE]);
    CanonicalIsPlain(cfg, p);
    hide Check, Guard.Canonical;
    DirtyIsListed(before, p);
    forall q ensures q in [p] <==> At(ChangedPaths(CLEAN), q) != At(ChangedPaths(before), q) {
      DirtyIsListed(before, q);
      DirtyIsListed(CLEAN, q);
    }
    assert SweepAt(cfg, [p], CLEAN, 4, stamp, 0) == Going(CLEAN, 4);
  }

  /**
    The sweep cannot tell who changed a path between its two readings. A file
    that somebody else, say the agent, writes in the meantime is removed.
   */
  lemma SomebodyElsesFileGoes(stamp: int)
    ensures var after := CLEAN.(work := map["a" := FILE]);
      SweepOf(NO_GLOBS, CLEAN, after, ["a"]) && SweepAt(NO_GLOBS, ["a"], after, 4, stamp, 1) == Going(CLEAN, 4)
  {
    var after := CLEAN.(work := map["a" := FILE]);
    OneSegment("a");
    hide Check, Guard.Canonical;
    SweepsFrom(NO_GLOBS, CLEAN, after, ["a"]);
    assert after.work - {"a"} == map[];
    assert SweepAt(NO_GLOBS, ["a"], after, 4, stamp, 0) == Going(after, 4);
  }
}
