/**
  The Worker's `run`: check every op's shape, group the rest by namespace, pay
  one token per namespace, call the namespaces in any order, and put each answer
  back into its slot. Proved equal to executing the ops one by one.
 */
module Batch {
  import opened Prelude
  import opened Tables
  import TB = TokenBucket
  import Wakes
  import Separated

  /** An element of the request's `ops`, with the fields that the shape check reads. */
  datatype RawOp = NotAnObject | Object(op: Json, ns: Json, call: Call)

  datatype Reason = OpMustBeAnObject | OpRequired | InvalidNamespace

  datatype Result = Rejected(reason: Reason) | Answered(answer: Answer)

  /** The namespaces by name. One never called has empty tables. */
  type World = map<string, Rows>

  function Get(w: World, ns: string): Rows { if ns in w then w[ns] else EMPTY }

  // ----------------------------------------------------------- the shape check

  predicate NameStart(c: char) { 'a' <= c <= 'z' || '0' <= c <= '9' }

  predicate NameChar(c: char) { NameStart(c) || c in "._-" }

  predicate NamePart(s: string) {
    |s| > 0 && NameStart(s[0]) && forall i :: 1 <= i < |s| ==> NameChar(s[i])
  }

  /** `owner/repo` or a bare name, as NS_RE reads it. */
  predicate ValidNamespace(ns: Json) {
    && ns.Text? && |ns.s| <= 128
    && (NamePart(ns.s) || exists k :: 0 <= k < |ns.s| && ns.s[k] == '/' && NamePart(ns.s[..k]) && NamePart(ns.s[k + 1..]))
  }

  function ShapeError(o: RawOp): Option<Reason> {
    if o.NotAnObject? then Some(OpMustBeAnObject)
    else if !o.op.Text? then Some(OpRequired)
    else if !ValidNamespace(o.ns) then Some(InvalidNamespace)
    else None
  }

  /** The namespace a well-shaped op goes to. */
  function Namespace(o: RawOp): (ns: Option<string>)
    ensures ns.Some? <==> ShapeError(o).None?
    ensures ns.Some? ==> o.Object?
  {
    if ShapeError(o).None? then Some(o.ns.s) else None
  }

  predicate Targets(o: RawOp, ns: string) { Namespace(o) == Some(ns) }

  // ------------------------------------------------------- one by one, in order

  function WorldAfter(w: World, ops: seq<RawOp>, m: nat): World
    requires m <= |ops|
  {
    if m == 0 then w
    else
      var before, o := WorldAfter(w, ops, m - 1), ops[m - 1];
      match Namespace(o)
      case None => before
      case Some(ns) => before[ns := Apply(Get(before, ns), o.call).0]
  }

  function InOrderResult(w: World, ops: seq<RawOp>, i: nat): Result
    requires i < |ops|
  {
    match ShapeError(ops[i])
    case Some(reason) => Rejected(reason)
    case None => Answered(Apply(Get(WorldAfter(w, ops, i), Namespace(ops[i]).value), ops[i].call).1)
  }

  // --------------------------------------------------------- grouped by namespace

  /** The slots below `m` whose op goes to `ns`, in batch order. */
  function Slots(ops: seq<RawOp>, ns: string, m: nat): (idx: seq<nat>)
    requires m <= |ops|
    ensures forall k :: 0 <= k < |idx| ==> idx[k] < m && Targets(ops[idx[k]], ns) && ops[idx[k]].Object?
  {
    if m == 0 then []
    else if Targets(ops[m - 1], ns) then Slots(ops, ns, m - 1) + [m - 1]
    else Slots(ops, ns, m - 1)
  }

  function CallsOf(ops: seq<RawOp>, idx: seq<nat>): (calls: seq<Call>)
    requires forall k :: 0 <= k < |idx| ==> idx[k] < |ops| && ops[idx[k]].Object?
    ensures |calls| == |idx|
  {
    seq(|idx|, k requires 0 <= k < |idx| => ops[idx[k]].call)
  }

  lemma {:induction false} SlotsAreInOrder(ops: seq<RawOp>, ns: string, m: nat)
    requires m <= |ops|
    ensures forall i, j :: 0 <= i < j < |Slots(ops, ns, m)| ==> Slots(ops, ns, m)[i] < Slots(ops, ns, m)[j]
  {
    if m > 0 { SlotsAreInOrder(ops, ns, m - 1); }
  }

  /** Every op below `m` for `ns` has a place in its group. */
  lemma {:induction false} HasSlot(ops: seq<RawOp>, ns: string, m: nat, i: nat) returns (k: nat)
    requires i < m <= |ops| && Targets(ops[i], ns)
    ensures k < |Slots(ops, ns, m)| && Slots(ops, ns, m)[k] == i
    ensures k == |Slots(ops, ns, i)| && Slots(ops, ns, m)[..k] == Slots(ops, ns, i)
  {
    if i == m - 1 {
      k := |Slots(ops, ns, m - 1)|;
    } else {
      k := HasSlot(ops, ns, m - 1, i);
    }
  }

  lemma {:induction false} PrefixOfCalls(t: Rows, xs: seq<Call>, ys: seq<Call>, n: nat)
    requires n <= |xs| && n <= |ys| && xs[..n] == ys[..n]
    ensures Wakes.ApplyAll(t, xs, n) == Wakes.ApplyAll(t, ys, n)
  {
    if n > 0 {
      assert xs[..n - 1] == xs[..n][..n - 1] == ys[..n - 1];
      assert xs[n - 1] == xs[..n][n - 1] == ys[n - 1];
      PrefixOfCalls(t, xs, ys, n - 1);
    }
  }

  lemma CallsGrow(ops: seq<RawOp>, ns: string, m: nat)
    requires m < |ops|
    ensures CallsOf(ops, Slots(ops, ns, m + 1))
         == CallsOf(ops, Slots(ops, ns, m)) + if Targets(ops[m], ns) then [ops[m].call] else []
  {
    hide Namespace, ShapeError;
  }

  lemma {:induction false} AppendCall(t: Rows, calls: seq<Call>, c: Call)
    ensures Wakes.ApplyAll(t, calls + [c], |calls| + 1) == Apply(Wakes.ApplyAll(t, calls, |calls|), c).0
  {
    hide Apply;
    PrefixOfCalls(t, calls + [c], calls, |calls|);
  }

  /** One step in batch order, seen from one namespace. */
  lemma WorldStep(w: World, ops: seq<RawOp>, ns: string, m: nat)
    requires m < |ops|
    ensures Get(WorldAfter(w, ops, m + 1), ns)
         == if Targets(ops[m], ns) then Apply(Get(WorldAfter(w, ops, m), ns), ops[m].call).0
            else Get(WorldAfter(w, ops, m), ns)
  {
    hide Apply, ShapeError;
  }

  /** Seen from one namespace, executing in batch order is executing its own group. */
  lemma {:induction false} NamespaceSeesItsGroup(w: World, ops: seq<RawOp>, ns: string, m: nat)
    requires m <= |ops|
    ensures var calls := CallsOf(ops, Slots(ops, ns, m));
      Get(WorldAfter(w, ops, m), ns) == Wakes.ApplyAll(Get(w, ns), calls, |calls|)
  {
    hide *;
    if m == 0 {
      NoGroupYet(w, ops, ns);
    } else {
      var earlier := CallsOf(ops, Slots(ops, ns, m - 1));
      NamespaceSeesItsGroup(w, ops, ns, m - 1);
      WorldStep(w, ops, ns, m - 1);
      CallsGrow(ops, ns, m - 1);
      if Targets(ops[m - 1], ns) {
        TargetIsObject(ops[m - 1], ns);
        AppendCall(Get(w, ns), earlier, ops[m - 1].call);
      } else {
        assert earlier + [] == earlier;
      }
    }
  }

  lemma NoGroupYet(w: World, ops: seq<RawOp>, ns: string)
    ensures var calls := CallsOf(ops, Slots(ops, ns, 0));
      Get(WorldAfter(w, ops, 0), ns) == Wakes.ApplyAll(Get(w, ns), calls, |calls|)
  {}

  lemma TargetIsObject(o: RawOp, ns: string)
    requires Targets(o, ns)
    ensures o.Object?
  {}

  /** The k-th answer of a namespace is the in-order answer of the slot it goes back to. */
  lemma AnswerGoesToItsSlot(w: World, ops: seq<RawOp>, ns: string, k: nat)
    requires k < |Slots(ops, ns, |ops|)|
    ensures var idx := Slots(ops, ns, |ops|);
      var calls := CallsOf(ops, idx);
      InOrderResult(w, ops, idx[k]) == Answered(Apply(Wakes.ApplyAll(Get(w, ns), calls, k), calls[k]).1)
  {
    hide Apply, Namespace, ShapeError;
    var idx := Slots(ops, ns, |ops|);
    var i := idx[k];
    var j := HasSlot(ops, ns, |ops|, i);
    SlotsAreInOrder(ops, ns, |ops|);
    assert j == k;
    var calls, earlier := CallsOf(ops, idx), CallsOf(ops, Slots(ops, ns, i));
    assert calls[..k] == earlier;
    NamespaceSeesItsGroup(w, ops, ns, i);
    PrefixOfCalls(Get(w, ns), calls, earlier, k);
  }

  // ------------------------------------------------------------------- the code

  datatype Response = Results(results: seq<Result>) | RateLimited(retryAfterS: int)

  ghost predicate ListsOnce(order: seq<string>, keys: set<string>) {
    && (forall ns :: ns in order <==> ns in keys)
    && forall i, j :: 0 <= i < j < |order| ==> order[i] != order[j]
  }

  method ShapeCheck(ops: seq<RawOp>) returns (results: seq<Option<Result>>)
    ensures |results| == |ops|
    ensures forall i :: 0 <= i < |ops| ==>
      results[i] == match ShapeError(ops[i]) case Some(r) => Some(Rejected(r)) case None => None
  {
    results := [];
    for i := 0 to |ops|
      invariant |results| == i
      invariant forall j :: 0 <= j < i ==>
        results[j] == match ShapeError(ops[j]) case Some(r) => Some(Rejected(r)) case None => None
    {
      var e := ShapeError(ops[i]);
      results := results + [if e.Some? then Some(Rejected(e.value)) else None];
    }
  }

  method GroupByNamespace(ops: seq<RawOp>, results: seq<Option<Result>>) returns (byNs: map<string, seq<nat>>)
    requires |results| == |ops|
    requires forall i :: 0 <= i < |ops| ==> (results[i].None? <==> ShapeError(ops[i]).None?)
    ensures forall ns :: Group(byNs, ns) == Slots(ops, ns, |ops|)
    ensures forall ns :: ns in byNs ==> byNs[ns] != []
  {
    byNs := map[];
    for i := 0 to |ops|
      invariant forall ns :: Group(byNs, ns) == Slots(ops, ns, i)
      invariant forall ns :: ns in byNs ==> byNs[ns] != []
    {
      hide Namespace, ShapeError;
      if results[i].None? {
        var ns := Namespace(ops[i]).value;
        byNs := byNs[ns := Group(byNs, ns) + [i]];
      }
      forall ns ensures Group(byNs, ns) == Slots(ops, ns, i + 1) {
        assert Slots(ops, ns, i + 1) == Slots(ops, ns, i) + if Targets(ops[i], ns) then [i] else [];
      }
    }
  }

  /** `byNs.get(ns) ?? []`. */
  function Group(byNs: map<string, seq<nat>>, ns: string): seq<nat> { if ns in byNs then byNs[ns] else [] }

  /** The distinct namespaces of the batch: the keys of `byNs`, so what the request costs. */
  function Namespaces(ops: seq<RawOp>): set<string> {
    set i | 0 <= i < |ops| && Namespace(ops[i]).Some? :: Namespace(ops[i]).value
  }

  lemma GroupsAreTheNamespaces(ops: seq<RawOp>, byNs: map<string, seq<nat>>)
    requires forall ns :: Group(byNs, ns) == Slots(ops, ns, |ops|)
    requires forall ns :: ns in byNs ==> byNs[ns] != []
    ensures byNs.Keys == Namespaces(ops)
  {
    forall ns ensures ns in byNs <==> ns in Namespaces(ops) {
      if ns in byNs {
        assert Targets(ops[Slots(ops, ns, |ops|)[0]], ns);
      }
      if ns in Namespaces(ops) {
        var i :| 0 <= i < |ops| && Namespace(ops[i]) == Some(ns);
        var k := HasSlot(ops, ns, |ops|, i);
        assert Group(byNs, ns) != [];
      }
    }
  }

  /** `applyMany` of one namespace. */
  method ApplyGroup(t: Rows, calls: seq<Call>) returns (t': Rows, out: seq<Answer>)
    ensures t' == Wakes.ApplyAll(t, calls, |calls|)
    ensures |out| == |calls|
    ensures forall k :: 0 <= k < |calls| ==> out[k] == Apply(Wakes.ApplyAll(t, calls, k), calls[k]).1
  {
    hide Apply;
    t', out := t, [];
    for k := 0 to |calls|
      invariant t' == Wakes.ApplyAll(t, calls, k) && |out| == k
      invariant forall j :: 0 <= j < k ==> out[j] == Apply(Wakes.ApplyAll(t, calls, j), calls[j]).1
    {
      var (next, a) := Apply(t', calls[k]);
      t', out := next, out + [a];
    }
  }

  /** One arm of the scatter: call the namespace, then put its answers into their slots. */
  method ScatterOne(w: World, ops: seq<RawOp>, ns: string, idx: seq<nat>, results: seq<Option<Result>>)
    returns (t': Rows, results': seq<Option<Result>>)
    requires |results| == |ops| && idx == Slots(ops, ns, |ops|)
    ensures t' == Get(WorldAfter(w, ops, |ops|), ns)
    ensures |results'| == |ops|
    ensures forall i :: 0 <= i < |ops| ==>
      results'[i] == if Targets(ops[i], ns) then Some(InOrderResult(w, ops, i)) else results[i]
  {
    hide Apply, Namespace, ShapeError, InOrderResult, Slots, CallsOf, WorldAfter, Targets, Wakes.ApplyAll;
    var calls := CallsOf(ops, idx);
    var out;
    t', out := ApplyGroup(Get(w, ns), calls);
    NamespaceSeesItsGroup(w, ops, ns, |ops|);
    results' := results;
    for k := 0 to |idx|
      invariant |results'| == |ops|
      invariant forall i :: 0 <= i < |ops| ==>
        results'[i] == if i in idx[..k] then Some(InOrderResult(w, ops, i)) else results[i]
    {
      AnswerGoesToItsSlot(w, ops, ns, k);
      results' := results'[idx[k] := Some(Answered(out[k]))];
      assert idx[..k + 1] == idx[..k] + [idx[k]];
    }
    SlotsAreTheTargets(ops, ns);
    assert idx[..|idx|] == idx;
  }

  lemma SlotsAreTheTargets(ops: seq<RawOp>, ns: string)
    ensures forall i :: 0 <= i < |ops| ==> (i in Slots(ops, ns, |ops|) <==> Targets(ops[i], ns))
  {
    hide Targets;
    forall i | 0 <= i < |ops| && Targets(ops[i], ns) ensures i in Slots(ops, ns, |ops|) {
      var k := HasSlot(ops, ns, |ops|, i);
    }
  }

  /**
    `run`. `order` is the order in which the namespace calls complete: any
    listing of the batch's namespaces. Whatever it is, every slot is filled with
    what executing the batch one op at a time would have answered, and so are
    the tables. A rate-limited batch touches no namespace.
   */
  method Run(w: World, bucket: Option<TB.Bucket>, ops: seq<RawOp>, perMin: real, now: int, order: seq<string>)
    returns (w': World, bucket': TB.Bucket, response: Response)
    requires perMin > 0.0 && ListsOnce(order, Namespaces(ops))
    ensures var cost := Max(1, |Namespaces(ops)|) as real;
      var (b, v) := TB.TakeFrom(bucket, perMin, TB.Take(cost, now));
      && bucket' == b
      && (v.allowed <==> response.Results?)
      && (!v.allowed ==> response == RateLimited(v.retryAfterS) && w' == w)
    ensures response.Results? ==>
      && |response.results| == |ops|
      && (forall i :: 0 <= i < |ops| ==> response.results[i] == InOrderResult(w, ops, i))
      && (forall ns :: Get(w', ns) == Get(WorldAfter(w, ops, |ops|), ns))
  {
    hide Apply, Namespace, ShapeError, InOrderResult, TB.TakeFrom, Slots, WorldAfter, Namespaces;
    var results := ShapeCheck(ops);
    var byNs := GroupByNamespace(ops, results);
    GroupsAreTheNamespaces(ops, byNs);
    assert |byNs| == |byNs.Keys|;
    var (b, verdict) := TB.TakeFrom(bucket, perMin, TB.Take(Max(1, |byNs|) as real, now));
    w', bucket' := w, b;
    if !verdict.allowed { return w', bucket', RateLimited(verdict.retryAfterS); }
    var shaped := results;
    for n := 0 to |order|
      invariant |results| == |ops|
      invariant forall i :: 0 <= i < |ops| ==>
        (results[i] == if Namespace(ops[i]).Some? && Namespace(ops[i]).value in order[..n]
                       then Some(InOrderResult(w, ops, i)) else shaped[i])
      invariant forall ns :: Get(w', ns) == if ns in order[..n] then Get(WorldAfter(w, ops, |ops|), ns) else Get(w, ns)
    {
      var ns := order[n];
      var t;
      t, results := ScatterOne(w, ops, ns, byNs[ns], results);
      w' := w'[ns := t];
      assert forall x :: x in order[..n + 1] <==> x in order[..n] || x == ns;
    }
    assert order[..|order|] == order;
    GatherIsComplete(w, ops, shaped, results, w', order);
    response := Results(seq(|ops|, i requires 0 <= i < |ops| => results[i].value));
  }

  lemma {:induction false} SlotsMakeANamespace(ops: seq<RawOp>, ns: string, m: nat)
    requires m <= |ops|
    ensures Slots(ops, ns, m) != [] ==> ns in Namespaces(ops)
  {
    if m > 0 {
      SlotsMakeANamespace(ops, ns, m - 1);
      if Targets(ops[m - 1], ns) { assert Namespace(ops[m - 1]).value in Namespaces(ops); }
    }
  }

  /** Once every namespace has answered, no slot is left empty and no namespace is behind. */
  lemma GatherIsComplete(w: World, ops: seq<RawOp>, shaped: seq<Option<Result>>, results: seq<Option<Result>>, w': World, order: seq<string>)
    requires |results| == |ops| == |shaped| && ListsOnce(order, Namespaces(ops))
    requires forall i :: 0 <= i < |ops| ==>
      shaped[i] == match ShapeError(ops[i]) case Some(r) => Some(Rejected(r)) case None => None
    requires forall i :: 0 <= i < |ops| ==>
      (results[i] == if Namespace(ops[i]).Some? && Namespace(ops[i]).value in order
                     then Some(InOrderResult(w, ops, i)) else shaped[i])
    requires forall ns :: Get(w', ns) == if ns in order then Get(WorldAfter(w, ops, |ops|), ns) else Get(w, ns)
    ensures forall i :: 0 <= i < |ops| ==> results[i] == Some(InOrderResult(w, ops, i))
    ensures forall ns :: Get(w', ns) == Get(WorldAfter(w, ops, |ops|), ns)
  {
    hide Apply;
    forall i | 0 <= i < |ops| ensures results[i] == Some(InOrderResult(w, ops, i)) {
      if Namespace(ops[i]).Some? { assert Namespace(ops[i]).value in Namespaces(ops); }
    }
    forall ns | ns !in order ensures Get(w, ns) == Get(WorldAfter(w, ops, |ops|), ns) {
      NamespaceSeesItsGroup(w, ops, ns, |ops|);
      SlotsMakeANamespace(ops, ns, |ops|);
    }
  }

  // --------------------------------------------------------- the shape, by its parts

  /** A lower-case letter, a digit, or between them also a dot, an underscore or a hyphen. */
  predicate NameCharacter(c: char, first: bool) {
    'a' <= c <= 'z' || '0' <= c <= '9' || (!first && (c == '.' || c == '_' || c == '-'))
  }

  predicate NameText(s: string) { s != "" && forall i :: 0 <= i < |s| ==> NameCharacter(s[i], i == 0) }

  lemma NamePartsAre(s: string)
    ensures NamePart(s) <==> NameText(s)
    ensures NamePart(s) ==> Separated.Free(s, '/')
  {}

  /** A namespace is one name, or two around a slash, of at most 128 characters. */
  lemma NamespacesAre(ns: Json)
    ensures ValidNamespace(ns) <==>
      && ns.Text? && |ns.s| <= 128
      && var parts := Separated.Split(ns.s, '/'); |parts| <= 2 && forall i :: 0 <= i < |parts| ==> NameText(parts[i])
  {
    if ns.Text? && |ns.s| <= 128 {
      var s, parts := ns.s, Separated.Split(ns.s, '/');
      Separated.JoinOfSplit(s, '/');
      hide NamePart, NameText;
      if NamePart(s) {
        NamePartsAre(s);
        Separated.SplitOfJoin([s], '/');
      }
      if k :| 0 <= k < |s| && s[k] == '/' && NamePart(s[..k]) && NamePart(s[k + 1..]) {
        NamePartsAre(s[..k]);
        NamePartsAre(s[k + 1..]);
        TwoParts(s, k);
      }
      if |parts| <= 2 && forall i :: 0 <= i < |parts| ==> NameText(parts[i]) { PartsMakeANamespace(s, parts); }
    }
  }

  lemma TwoParts(s: string, k: nat)
    requires k < |s| && s[k] == '/' && Separated.Free(s[..k], '/') && Separated.Free(s[k + 1..], '/')
    ensures Separated.Split(s, '/') == [s[..k], s[k + 1..]]
  {
    var parts := [s[..k], s[k + 1..]];
    assert parts[1..] == [s[k + 1..]];
    assert Separated.Join(parts, '/') == s[..k] + ['/'] + s[k + 1..] == s;
    Separated.SplitOfJoin(parts, '/');
  }

  lemma PartsMakeANamespace(s: string, parts: seq<string>)
    requires parts == Separated.Split(s, '/') && Separated.Join(parts, '/') == s
    requires |parts| <= 2 && forall i :: 0 <= i < |parts| ==> NameText(parts[i])
    ensures ValidNamespace(Text(s)) || |s| > 128
  {
    hide NamePart, NameText, Separated.Split;
    NamePartsAre(parts[0]);
    if |parts| == 2 {
      NamePartsAre(parts[1]);
      assert parts[1..] == [parts[1]];
      hide Separated.Join;
      NameAroundSlash(s, parts[0], parts[1]);
    }
  }

  lemma NameAroundSlash(s: string, owner: string, repo: string)
    requires s == owner + ['/'] + repo && NamePart(owner) && NamePart(repo)
    ensures exists k :: 0 <= k < |s| && s[k] == '/' && NamePart(s[..k]) && NamePart(s[k + 1..])
  {
    hide NamePart;
    var k := |owner|;
    assert s[..k] == owner && s[k] == '/' && s[k + 1..] == repo;
  }

  /** Why a slot is refused without a call: what is no object, an object without a text for its op, or one without a namespace. */
  lemma ShapesAre(o: RawOp)
    ensures ShapeError(o) ==
      match o
      case NotAnObject => Some(OpMustBeAnObject)
      case Object(op, ns, _) => if !op.Text? then Some(OpRequired) else if ValidNamespace(ns) then None else Some(InvalidNamespace)
  {
    hide ValidNamespace;
  }
}
