/**
  The DevTools connection: any number of callers, one reader, a map of pending
  replies. Every lock section and every channel operation is one step, and the
  steps of all threads interleave freely.
 */
module CdpClient {
  import opened Prelude
  import F = Framing

  datatype Reply = Value(json: string) | ProtocolError(code: int, message: string)

  datatype Outcome = Answer(reply: Reply) | Timeout | WriteFailed | RelayClosed

  /** How far `call` has come for one id. */
  datatype CallState = Numbered | Registered | WriteFailing | Waiting | TimedOut | Returned(outcome: Outcome)

  /** The reader: reading, holding a reply it has taken from the map, past the end of the stream, or finished. */
  datatype Reader = Reading | Holding(id: nat, reply: Reply) | Ending | Gone

  /** What a call's write put on the wire: its frame, or the first `count` bytes of it before failing. */
  datatype Put = Sent(id: nat) | Partial(id: nat, count: nat)

  /**
    `calls` by id, `pending` the ids in the map, `channel` the replies sent and
    not yet received, `wire` the writes so far, in order.
    `routed` is history: the reply the reader took for each id.
   */
  datatype Conn = Conn(
    nextId: nat, calls: map<nat, CallState>, pending: set<nat>, channel: map<nat, Reply>,
    wire: seq<Put>, reader: Reader, routed: map<nat, Reply>)

  const CONNECTED := Conn(0, map[], {}, map[], [], Reading, map[])

  datatype Action =
    | NewCall
    | Register(id: nat)
    | Write(id: nat)
    | WriteFails(id: nat, count: nat)
    | DropUnwritten(id: nat)
    | TimerFires(id: nat)
    | DropTimedOut(id: nat)
    | Receive(id: nat)
    | SeeDisconnect(id: nat)
    | Inbound(id: nat, reply: Reply)
    | SendReply
    | StreamEnds
    | ClearPending

  predicate In(c: Conn, id: nat, s: CallState) { id in c.calls && c.calls[id] == s }

  /** The sending half of the call's channel is gone and nothing is left in it. */
  predicate Disconnected(c: Conn, id: nat) {
    id !in c.pending && id !in c.channel && !(c.reader.Holding? && c.reader.id == id)
  }

  predicate Enabled(c: Conn, a: Action) {
    match a
    case NewCall => true
    case Register(id) => In(c, id, Numbered)
    case Write(id) => In(c, id, Registered)
    case WriteFails(id, _) => In(c, id, Registered)
    case DropUnwritten(id) => In(c, id, WriteFailing)
    case TimerFires(id) => In(c, id, Waiting) && id !in c.channel && !Disconnected(c, id)
    case DropTimedOut(id) => In(c, id, TimedOut)
    case Receive(id) => In(c, id, Waiting) && id in c.channel
    case SeeDisconnect(id) => In(c, id, Waiting) && Disconnected(c, id)
    case Inbound(_, _) => c.reader.Reading?
    case SendReply => c.reader.Holding?
    case StreamEnds => c.reader.Reading?
    case ClearPending => c.reader.Ending?
  }

  function To(c: Conn, id: nat, s: CallState): Conn { c.(calls := c.calls[id := s]) }

  function Step(c: Conn, a: Action): Conn
    requires Enabled(c, a)
  {
    match a
    case NewCall => To(c.(nextId := c.nextId + 1), c.nextId + 1, Numbered)
    case Register(id) => To(c, id, Registered).(pending := c.pending + {id})
    case Write(id) => To(c, id, Waiting).(wire := c.wire + [Sent(id)])
    case WriteFails(id, count) => To(c, id, WriteFailing).(wire := c.wire + [Partial(id, count)])
    case DropUnwritten(id) => To(c, id, Returned(WriteFailed)).(pending := c.pending - {id})
    case TimerFires(id) => To(c, id, TimedOut)
    case DropTimedOut(id) => To(c, id, Returned(Timeout)).(pending := c.pending - {id})
    case Receive(id) => To(c, id, Returned(Answer(c.channel[id]))).(channel := c.channel - {id})
    case SeeDisconnect(id) => To(c, id, Returned(RelayClosed))
    case Inbound(id, reply) =>
      if id in c.pending
      then c.(pending := c.pending - {id}, reader := Holding(id, reply), routed := c.routed[id := reply])
      else c
    case SendReply => c.(channel := c.channel[c.reader.id := c.reader.reply], reader := Reading)
    case StreamEnds => c.(reader := Ending)
    case ClearPending => c.(pending := {}, reader := Gone)
  }

  /**
    What the threads share, updated in place. Each lock section and channel
    operation is one method, proved to take the connection `c` it shows to the
    step's outcome; `c` also holds what no thread stores, how far each call is.
   */
  class CdpConnection {
    var nextId: nat
    var pending: set<nat>
    var channel: map<nat, Reply>
    var wire: seq<Put>

    ghost predicate Shows(c: Conn)
      reads this
    {
      nextId == c.nextId && pending == c.pending && channel == c.channel && wire == c.wire
    }

    constructor ()
      ensures Shows(CONNECTED)
    {
      nextId, pending, channel, wire := 0, {}, map[], [];
    }

    method TakeId(ghost c: Conn) returns (id: nat)
      requires Shows(c) && Inv(c)
      modifies this
      ensures Shows(Step(c, NewCall)) && id !in c.calls && In(Step(c, NewCall), id, Numbered)
    {
      nextId := nextId + 1;
      id := nextId;
    }

    method InsertPending(id: nat, ghost c: Conn)
      requires Shows(c) && Enabled(c, Register(id))
      modifies this
      ensures Shows(Step(c, Register(id)))
    {
      pending := pending + {id};
    }

    /** The write under the writer's lock; a failing one gets `failed` bytes through. */
    method WriteFrame(id: nat, failed: Option<nat>, ghost c: Conn)
      requires Shows(c) && In(c, id, Registered)
      modifies this
      ensures Shows(Step(c, if failed.None? then Write(id) else WriteFails(id, failed.value)))
    {
      wire := wire + [if failed.None? then Sent(id) else Partial(id, failed.value)];
    }

    /** The caller's cleanup, after a failed write or a timeout. */
    method RemovePending(id: nat, ghost c: Conn)
      requires Shows(c) && (In(c, id, WriteFailing) || In(c, id, TimedOut))
      modifies this
      ensures Shows(Step(c, if In(c, id, TimedOut) then DropTimedOut(id) else DropUnwritten(id)))
    {
      pending := pending - {id};
    }

    method Recv(id: nat, ghost c: Conn) returns (reply: Reply)
      requires Shows(c) && Enabled(c, Receive(id))
      modifies this
      ensures Shows(Step(c, Receive(id))) && In(Step(c, Receive(id)), id, Returned(Answer(reply)))
    {
      reply := channel[id];
      channel := channel - {id};
    }

    /** The reader takes the pending sender of `id`, if there is one. */
    method TakeSender(id: nat, reply: Reply, ghost c: Conn) returns (found: bool)
      requires Shows(c) && Enabled(c, Inbound(id, reply))
      modifies this
      ensures Shows(Step(c, Inbound(id, reply)))
      ensures found == Step(c, Inbound(id, reply)).reader.Holding?
    {
      found := id in pending;
      if found { pending := pending - {id}; }
    }

    method Send(id: nat, reply: Reply, ghost c: Conn)
      requires Shows(c) && c.reader == Holding(id, reply)
      modifies this
      ensures Shows(Step(c, SendReply))
    {
      channel := channel[id := reply];
    }

    /** The relay is gone: every pending sender is dropped. */
    method DropAll(ghost c: Conn)
      requires Shows(c) && Enabled(c, ClearPending)
      modifies this
      ensures Shows(Step(c, ClearPending))
    {
      pending := {};
    }
  }

  /** A run: every action is due when it happens. */
  ghost predicate Run(actions: seq<Action>, states: seq<Conn>) {
    && |states| == |actions| + 1 && states[0] == CONNECTED
    && forall i :: 0 <= i < |actions| ==> Enabled(states[i], actions[i]) && states[i + 1] == Step(states[i], actions[i])
  }

  predicate InFlight(s: CallState) { s.Registered? || s.WriteFailing? || s.Waiting? || s.TimedOut? }

  ghost predicate Inv(c: Conn) {
    && (forall id :: id in c.calls <==> 1 <= id <= c.nextId)
    && (forall id :: id in c.pending ==> id in c.calls && InFlight(c.calls[id]) && id !in c.routed)
    && (forall id :: id in c.channel ==> id in c.routed && c.routed[id] == c.channel[id])
    && (c.reader.Holding? ==>
          c.reader.id in c.routed && c.routed[c.reader.id] == c.reader.reply && c.reader.id !in c.channel)
    && (forall id :: id in c.routed ==> id in c.calls && c.calls[id] != Numbered)
    && (forall id :: id in c.calls && c.calls[id].Returned? && c.calls[id].outcome.Answer? ==>
          id in c.routed && c.calls[id].outcome.reply == c.routed[id])
    && (c.reader.Holding? && c.reader.id in c.calls && c.calls[c.reader.id].Returned? ==>
          !c.calls[c.reader.id].outcome.Answer?)
  }

  ghost predicate WireInv(c: Conn) {
    && (forall i, j :: 0 <= i < j < |c.wire| ==> c.wire[i].id != c.wire[j].id)
    && forall w :: w in c.wire ==> w.id in c.calls && c.calls[w.id] != Numbered && c.calls[w.id] != Registered
  }

  lemma InitInv()
    ensures Inv(CONNECTED) && WireInv(CONNECTED)
  {}

  predicate ByReader(a: Action) { a.Inbound? || a.SendReply? || a.StreamEnds? || a.ClearPending? }

  /** The steps of `call` before it waits. */
  predicate Sends(a: Action) { a.NewCall? || a.Register? || a.Write? || a.WriteFails? }

  lemma SenderKeepsInv(c: Conn, a: Action)
    requires Inv(c) && Enabled(c, a) && Sends(a)
    ensures Inv(Step(c, a))
  {}

  lemma CallerKeepsInv(c: Conn, a: Action)
    requires Inv(c) && Enabled(c, a) && !ByReader(a) && !Sends(a)
    ensures Inv(Step(c, a))
  {}

  lemma ReaderKeepsInv(c: Conn, a: Action)
    requires Inv(c) && Enabled(c, a) && ByReader(a)
    ensures Inv(Step(c, a))
  {}

  lemma StepKeepsInv(c: Conn, a: Action)
    requires Inv(c) && Enabled(c, a)
    ensures Inv(Step(c, a))
  {
    hide Inv, Step;
    if ByReader(a) {
      ReaderKeepsInv(c, a);
    } else if Sends(a) {
      SenderKeepsInv(c, a);
    } else {
      CallerKeepsInv(c, a);
    }
  }

  lemma StepKeepsWire(c: Conn, a: Action)
    requires Inv(c) && WireInv(c) && Enabled(c, a)
    ensures WireInv(Step(c, a))
  {}

  lemma {:induction false} AlwaysInv(actions: seq<Action>, states: seq<Conn>, i: nat)
    requires Run(actions, states) && i < |states|
    ensures Inv(states[i]) && WireInv(states[i])
  {
    if i == 0 {
      InitInv();
    } else {
      AlwaysInv(actions, states, i - 1);
      StepKeepsInv(states[i - 1], actions[i - 1]);
      StepKeepsWire(states[i - 1], actions[i - 1]);
    }
  }

  /** The ids on the wire are distinct, and a pending id is always of a call still in flight. */
  lemma IdsAreDistinctAndPendingInFlight(actions: seq<Action>, states: seq<Conn>, i: nat)
    requires Run(actions, states) && i < |states|
    ensures forall m, n :: 0 <= m < n < |states[i].wire| ==> states[i].wire[m].id != states[i].wire[n].id
    ensures forall id :: id in states[i].pending ==> id in states[i].calls && InFlight(states[i].calls[id])
  {
    AlwaysInv(actions, states, i);
  }

  lemma RunStep(actions: seq<Action>, states: seq<Conn>, i: nat)
    requires Run(actions, states) && i + 1 < |states|
    ensures i < |actions| && Enabled(states[i], actions[i]) && states[i + 1] == Step(states[i], actions[i])
  {
    hide Enabled, Step;
  }

  /** An outcome is final: a call returns once. */
  lemma {:induction false} OutcomeIsFinal(actions: seq<Action>, states: seq<Conn>, i: nat, j: nat, id: nat)
    requires Run(actions, states) && i <= j < |states|
    requires id in states[i].calls && states[i].calls[id].Returned?
    ensures id in states[j].calls && states[j].calls[id] == states[i].calls[id]
  {
    hide *;
    if i < j {
      RunStep(actions, states, j - 1);
      OutcomeIsFinal(actions, states, i, j - 1, id);
      AlwaysInv(actions, states, j - 1);
      ReturnedStays(states[j - 1], actions[j - 1], id);
    }
  }

  lemma ReturnedStays(c: Conn, a: Action, id: nat)
    requires Inv(c) && Enabled(c, a) && id in c.calls && c.calls[id].Returned?
    ensures id in Step(c, a).calls && Step(c, a).calls[id] == c.calls[id]
  {}

  /** Message `k` of the stream was a reply to `id` while the call was pending. */
  ghost predicate Replies(actions: seq<Action>, states: seq<Conn>, k: nat, id: nat, reply: Reply)
    requires Run(actions, states) && k < |actions|
  {
    actions[k] == Inbound(id, reply) && id in states[k].pending
  }

  lemma {:induction false} RoutedCameIn(actions: seq<Action>, states: seq<Conn>, i: nat, id: nat)
    requires Run(actions, states) && i < |states| && id in states[i].routed
    ensures exists k :: 0 <= k < i && Replies(actions, states, k, id, states[i].routed[id])
  {
    var before, a := states[i - 1], actions[i - 1];
    if a.Inbound? && a.id == id && id in before.pending {
      assert Replies(actions, states, i - 1, id, a.reply);
    } else {
      RoutedCameIn(actions, states, i - 1, id);
      var k :| 0 <= k < i - 1 && Replies(actions, states, k, id, before.routed[id]);
      assert Replies(actions, states, k, id, states[i].routed[id]);
    }
  }

  lemma {:induction false} RoutedStays(actions: seq<Action>, states: seq<Conn>, i: nat, j: nat, id: nat)
    requires Run(actions, states) && i <= j < |states| && id in states[i].routed
    ensures id in states[j].routed && states[j].routed[id] == states[i].routed[id] && id !in states[j].pending
  {
    if i < j {
      RoutedStays(actions, states, i, j - 1, id);
      RoutedStep(states[j - 1], actions[j - 1], id);
    }
    AlwaysInv(actions, states, j);
    RoutedIsNotPending(states[j], id);
    hide Inv, WireInv, Step, Enabled;
  }

  lemma RoutedIsNotPending(c: Conn, id: nat)
    requires Inv(c) && id in c.routed
    ensures id !in c.pending
  {}

  lemma RoutedStep(c: Conn, a: Action, id: nat)
    requires Enabled(c, a) && id in c.routed && id !in c.pending
    ensures id in Step(c, a).routed && Step(c, a).routed[id] == c.routed[id]
  {}

  /** A caller that gets a reply gets its own id's, and no other message was ever routed to that id. */
  lemma ReplyIsTheCallersOwn(actions: seq<Action>, states: seq<Conn>, i: nat, id: nat)
    requires Run(actions, states) && i < |states|
    requires id in states[i].calls && states[i].calls[id].Returned? && states[i].calls[id].outcome.Answer?
    ensures var reply := states[i].calls[id].outcome.reply;
      && (exists k :: 0 <= k < i && Replies(actions, states, k, id, reply))
      && forall k, r :: 0 <= k < |actions| && Replies(actions, states, k, id, r) ==> r == reply
  {
    AlwaysInv(actions, states, i);
    RoutedCameIn(actions, states, i, id);
    forall k, r | 0 <= k < |actions| && Replies(actions, states, k, id, r)
      ensures r == states[i].calls[id].outcome.reply
    {
      assert states[k + 1].routed[id] == r;
      if k + 1 <= i {
        RoutedStays(actions, states, k + 1, i, id);
      } else {
        RoutedStays(actions, states, i, k, id);
        assert false;
      }
    }
  }

  // ------------------------------------------------------- what reaches the browser

  /** The bytes of the wire, for messages encoded by `text`. A flush may fail after the whole frame went through. */
  function Writes(wire: seq<Put>, text: nat -> F.Bytes): (ws: seq<F.Write>)
    ensures |ws| == |wire|
  {
    seq(|wire|, i requires 0 <= i < |wire| => WriteOf(wire[i], text))
  }

  function WriteOf(w: Put, text: nat -> F.Bytes): F.Write {
    match w
    case Sent(id) => F.Whole(text(id))
    case Partial(id, count) => if count > |text(id)| then F.Whole(text(id)) else F.Torn(text(id)[..count])
  }

  /** The encoder escapes NULs. */
  ghost predicate Escapes(text: nat -> F.Bytes) { forall id :: F.NulFree(text(id)) }

  lemma WritesAreClean(wire: seq<Put>, text: nat -> F.Bytes)
    requires Escapes(text)
    ensures F.Clean(Writes(wire, text))
  {
    forall i | 0 <= i < |wire|
      ensures var w := Writes(wire, text)[i]; F.NulFree(if w.Whole? then w.message else w.prefix)
    {
      assert F.NulFree(text(wire[i].id));
    }
  }

  /** A failing write of the run cut a frame short after at least one byte. */
  predicate Cut(w: Put, text: nat -> F.Bytes) { w.Partial? && 0 < w.count <= |text(w.id)| }

  /** The writes since some cut frame, all before `n`, completed none. */
  ghost predicate CutSince(wire: seq<Put>, text: nat -> F.Bytes, m: nat, n: nat)
    requires m < n <= |wire|
  {
    Cut(wire[m], text) && forall k :: m < k < n ==> wire[k].Partial? && wire[k].count <= |text(wire[k].id)|
  }

  /**
    In any run, a message whose write went through reaches the browser in a
    frame of its own exactly when no call's failing write had cut a frame short
    since the last complete one. Ids on the wire are distinct, so this is the
    only frame of that call.
   */
  lemma ReachesTheBrowserIff(actions: seq<Action>, states: seq<Conn>, i: nat, n: nat, id: nat, text: nat -> F.Bytes)
    requires Run(actions, states) && i < |states| && Escapes(text)
    requires n < |states[i].wire| && states[i].wire[n] == Sent(id)
    ensures forall m :: 0 <= m < |states[i].wire| && m != n ==> states[i].wire[m].id != id
    ensures var wire := states[i].wire;
      var ws := Writes(wire, text);
      var at, frames := F.FrameNumber(ws, n), F.Frames(F.Wire(ws));
      at < |frames| && (frames[at] == text(id) <==> !exists m :: 0 <= m < n && CutSince(wire, text, m, n))
  {
    hide F.Frames, F.Wire, F.FrameNumber, F.Since, Inv, Run;
    AlwaysInv(actions, states, i);
    var wire := states[i].wire;
    var ws := Writes(wire, text);
    WritesAreClean(wire, text);
    F.ArrivesIff(ws, n);
    forall m | 0 <= m < n ensures CutSince(wire, text, m, n) <==> F.Dirtied(ws, m, n) { DirtIsACut(wire, text, m, n); }
  }

  lemma DirtIsACut(wire: seq<Put>, text: nat -> F.Bytes, m: nat, n: nat)
    requires m < n <= |wire|
    ensures CutSince(wire, text, m, n) <==> F.Dirtied(Writes(wire, text), m, n)
  {
    var ws := Writes(wire, text);
    assert forall k :: 0 <= k < |wire| ==> ws[k] == WriteOf(wire[k], text);
  }

  // --------------------------------------------------------- the relay closes

  /** `id` was pending when the reader emptied the map. */
  ghost predicate Orphaned(c: Conn, id: nat) {
    && c.reader.Gone? && id in c.calls && c.calls[id] != Numbered
    && id !in c.pending && id !in c.routed && id !in c.channel
  }

  lemma OrphanStep(c: Conn, a: Action, id: nat)
    requires Orphaned(c, id) && Enabled(c, a)
    requires forall x :: x in c.calls ==> x <= c.nextId
    ensures Orphaned(Step(c, a), id)
  {}

  lemma {:induction false} OrphanStays(actions: seq<Action>, states: seq<Conn>, k: nat, i: nat, id: nat)
    requires Run(actions, states) && k < i < |states|
    requires actions[k].ClearPending? && id in states[k].pending
    ensures Orphaned(states[i], id)
  {
    AlwaysInv(actions, states, i - 1);
    if i == k + 1 {
      assert id !in states[k].channel;
    } else {
      OrphanStays(actions, states, k, i - 1, id);
      OrphanStep(states[i - 1], actions[i - 1], id);
    }
  }

  /**
    Every entry present when the reader exits ends in an error, and at once: its
    caller, as soon as it waits, is told that the relay closed, and its timer
    can no longer be what ends it.
   */
  lemma ExitFailsEveryPendingCall(actions: seq<Action>, states: seq<Conn>, k: nat, i: nat, id: nat)
    requires Run(actions, states) && k < i < |states|
    requires actions[k].ClearPending? && id in states[k].pending
    ensures id in states[i].calls
    ensures states[i].calls[id].Returned? ==> !states[i].calls[id].outcome.Answer?
    ensures states[i].calls[id].Waiting? ==>
      Enabled(states[i], SeeDisconnect(id)) && !Enabled(states[i], TimerFires(id)) && !Enabled(states[i], Receive(id))
  {
    OrphanStays(actions, states, k, i, id);
    AlwaysInv(actions, states, i);
  }

  /** `id` had not registered when the reader finished. */
  ghost predicate Late(c: Conn, id: nat) {
    && c.reader.Gone? && id !in c.routed && id !in c.channel
    && (id in c.calls && InFlight(c.calls[id]) ==> id in c.pending)
    && (id in c.calls && c.calls[id].Returned? ==> c.calls[id].outcome in {Timeout, WriteFailed})
  }

  lemma LateStep(c: Conn, a: Action, id: nat)
    requires Late(c, id) && Enabled(c, a)
    ensures Late(Step(c, a), id)
  {}

  /** A call that registers after the reader finished is never told: it ends by its timeout or a failed write. */
  lemma {:induction false} LateCallWaitsForItsTimeout(actions: seq<Action>, states: seq<Conn>, k: nat, i: nat, id: nat)
    requires Run(actions, states) && k <= i < |states| && states[k].reader.Gone?
    requires id !in states[k].calls || states[k].calls[id] == Numbered
    ensures Late(states[i], id)
    ensures id in states[i].calls && states[i].calls[id].Waiting? ==> !Enabled(states[i], SeeDisconnect(id))
  {
    AlwaysInv(actions, states, k);
    if i > k {
      LateCallWaitsForItsTimeout(actions, states, k, i - 1, id);
      LateStep(states[i - 1], actions[i - 1], id);
    }
  }

  /** Appends `a` to a run. */
  lemma Then(actions: seq<Action>, states: seq<Conn>, a: Action) returns (actions': seq<Action>, states': seq<Conn>)
    requires Run(actions, states) && Enabled(states[|actions|], a)
    ensures actions' == actions + [a] && states' == states + [Step(states[|actions|], a)] && Run(actions', states')
  {
    hide Enabled, Step;
    actions', states' := actions + [a], states + [Step(states[|actions|], a)];
  }

  /** After the reader has finished, a call takes its id, registers and writes. */
  lemma LateCall(c: Conn) returns (c': Conn)
    requires c == CONNECTED.(reader := Gone)
    ensures c' == Step(Step(Step(c, NewCall), Register(1)), Write(1))
    ensures In(c', 1, Waiting) && 1 in c'.pending && 1 !in c'.channel && c'.reader.Gone?
    ensures Enabled(c, NewCall) && Enabled(Step(c, NewCall), Register(1)) && Enabled(Step(Step(c, NewCall), Register(1)), Write(1))
  {
    var c1 := Step(c, NewCall);
    assert In(c1, 1, Numbered);
    var c2 := Step(c1, Register(1));
    assert In(c2, 1, Registered);
    c' := Step(c2, Write(1));
  }

  /** A run in which the relay has closed before any call. */
  lemma Closed() returns (actions: seq<Action>, states: seq<Conn>)
    ensures Run(actions, states) && |actions| == 2 && states[2] == CONNECTED.(reader := Gone)
  {
    actions, states := [], [CONNECTED];
    actions, states := Then(actions, states, StreamEnds);
    actions, states := Then(actions, states, ClearPending);
  }

  lemma ThenLateCall(actions: seq<Action>, states: seq<Conn>) returns (actions': seq<Action>, states': seq<Conn>)
    requires Run(actions, states) && |actions| == 2 && states[2] == CONNECTED.(reader := Gone)
    ensures Run(actions', states') && |actions'| == 5 && states'[2] == states[2]
    ensures In(states'[5], 1, Waiting) && 1 in states'[5].pending && 1 !in states'[5].channel
  {
    var waiting := LateCall(states[2]);
    hide *;
    actions', states' := Then(actions, states, NewCall);
    actions', states' := Then(actions', states', Register(1));
    actions', states' := Then(actions', states', Write(1));
  }

  /**
    A run in which a call registers after the relay has closed. Its write goes
    through; then nothing but the timer can end it.
   */
  lemma ALateCallTimesOut() returns (actions: seq<Action>, states: seq<Conn>)
    ensures Run(actions, states) && |actions| == 7 && states[2].reader.Gone? && 1 !in states[2].calls
    ensures In(states[5], 1, Waiting) && !Enabled(states[5], SeeDisconnect(1)) && !Enabled(states[5], Receive(1))
    ensures In(states[7], 1, Returned(Timeout))
  {
    actions, states := Closed();
    actions, states := ThenLateCall(actions, states);
    actions, states := Then(actions, states, TimerFires(1));
    actions, states := Then(actions, states, DropTimedOut(1));
  }
}
