/**
  What each call on the DevTools connection comes to, and why: every outcome has
  its cause in the run, a routed reply can always be received, and the wire is
  the writes that were made.
 */
module CallOutcomes {
  import opened CdpClient

  // ----------------------------------------------------------------- the causes

  /** An action of the run before step `i`. */
  ghost predicate Happened(actions: seq<Action>, i: nat, a: Action)
    requires i <= |actions|
  {
    exists k :: 0 <= k < i && actions[k] == a
  }

  ghost predicate WriteFailedFor(actions: seq<Action>, i: nat, id: nat)
    requires i <= |actions|
  {
    exists k :: 0 <= k < i && actions[k].WriteFails? && actions[k].id == id
  }

  /** Where a call stands, by what has happened to it: none of these four, or exactly the one that ended it. */
  ghost predicate StandsFor(actions: seq<Action>, i: nat, id: nat, s: CallState)
    requires i <= |actions|
  {
    && (s == WriteFailing || s == Returned(WriteFailed) <==> WriteFailedFor(actions, i, id))
    && (s == TimedOut || s == Returned(Timeout) <==> Happened(actions, i, TimerFires(id)))
    && (s == Returned(RelayClosed) <==> Happened(actions, i, SeeDisconnect(id)))
    && (s.Returned? && s.outcome.Answer? <==> Happened(actions, i, Receive(id)))
  }

  /** What a step adds to what has happened to a call. */
  lemma HappenedGrows(actions: seq<Action>, i: nat, a: Action)
    requires i < |actions|
    ensures Happened(actions, i + 1, a) <==> Happened(actions, i, a) || actions[i] == a
  {
    if actions[i] == a { assert Happened(actions, i + 1, a); }
  }

  lemma WriteFailedGrows(actions: seq<Action>, i: nat, id: nat)
    requires i < |actions|
    ensures WriteFailedFor(actions, i + 1, id)
      <==> WriteFailedFor(actions, i, id) || (actions[i].WriteFails? && actions[i].id == id)
  {
    if actions[i].WriteFails? && actions[i].id == id { assert WriteFailedFor(actions, i + 1, id); }
  }

  /** A step moves a call only to where its own action takes it. */
  lemma StatusStep(c: Conn, a: Action, id: nat)
    requires Enabled(c, a) && id in c.calls && (forall x :: x in c.calls ==> x <= c.nextId)
    ensures id in Step(c, a).calls
    ensures var s, s' := c.calls[id], Step(c, a).calls[id];
      if a.WriteFails? && a.id == id then s.Registered? && s' == WriteFailing
      else if a == DropUnwritten(id) then s.WriteFailing? && s' == Returned(WriteFailed)
      else if a == TimerFires(id) then s.Waiting? && s' == TimedOut
      else if a == DropTimedOut(id) then s.TimedOut? && s' == Returned(Timeout)
      else if a == SeeDisconnect(id) then s.Waiting? && s' == Returned(RelayClosed)
      else if a == Receive(id) then s.Waiting? && id in c.channel && s' == Returned(Answer(c.channel[id]))
      else if a == Register(id) then s.Numbered? && s' == Registered
      else if a == Write(id) then s.Registered? && s' == Waiting
      else s' == s
  {}

  lemma NewStatus(c: Conn, a: Action, id: nat)
    requires Enabled(c, a) && id !in c.calls && id in Step(c, a).calls
    ensures a.NewCall? && Step(c, a).calls[id] == Numbered
  {}

  /** Nothing has happened yet to a call without an id. */
  lemma {:induction false} NothingHappened(actions: seq<Action>, states: seq<Conn>, i: nat, id: nat)
    requires Run(actions, states) && i < |states| && id !in states[i].calls
    ensures StandsFor(actions, i, id, Numbered)
  {
    hide Run;
    if i > 0 {
      RunStep(actions, states, i - 1);
      CallsStay(states[i - 1], actions[i - 1], id);
      NothingHappened(actions, states, i - 1, id);
      OutcomesGrow(actions, i - 1, id);
      NothingForStrangers(states[i - 1], actions[i - 1], id);
    }
  }

  lemma CallsStay(c: Conn, a: Action, id: nat)
    requires Enabled(c, a) && id !in Step(c, a).calls
    ensures id !in c.calls
  {}

  lemma NothingForStrangers(c: Conn, a: Action, id: nat)
    requires Enabled(c, a) && id !in c.calls
    ensures !(a.WriteFails? && a.id == id) && a != TimerFires(id) && a != SeeDisconnect(id) && a != Receive(id)
  {}

  lemma OutcomesGrow(actions: seq<Action>, i: nat, id: nat)
    requires i < |actions|
    ensures WriteFailedFor(actions, i + 1, id)
      <==> WriteFailedFor(actions, i, id) || (actions[i].WriteFails? && actions[i].id == id)
    ensures Happened(actions, i + 1, TimerFires(id)) <==> Happened(actions, i, TimerFires(id)) || actions[i] == TimerFires(id)
    ensures Happened(actions, i + 1, SeeDisconnect(id)) <==> Happened(actions, i, SeeDisconnect(id)) || actions[i] == SeeDisconnect(id)
    ensures Happened(actions, i + 1, Receive(id)) <==> Happened(actions, i, Receive(id)) || actions[i] == Receive(id)
  {
    WriteFailedGrows(actions, i, id);
    HappenedGrows(actions, i, TimerFires(id));
    HappenedGrows(actions, i, SeeDisconnect(id));
    HappenedGrows(actions, i, Receive(id));
  }

  /**
    Every outcome has its cause, and every cause its outcome: a call fails to be
    written, times out, is told that the relay closed, or gets an answer exactly
    if just that has happened to it.
   */
  lemma {:induction false} OutcomesHaveCauses(actions: seq<Action>, states: seq<Conn>, i: nat, id: nat)
    requires Run(actions, states) && i < |states| && id in states[i].calls
    ensures StandsFor(actions, i, id, states[i].calls[id])
  {
    hide Run, Happened, WriteFailedFor, Inv, WireInv;
    if i == 0 {
      NoCallsYet(actions, states);
    } else {
      RunStep(actions, states, i - 1);
      AlwaysInv(actions, states, i - 1);
      OutcomesGrow(actions, i - 1, id);
      IdsAreCounted(states[i - 1]);
      if id in states[i - 1].calls {
        StatusStep(states[i - 1], actions[i - 1], id);
        OutcomesHaveCauses(actions, states, i - 1, id);
      } else {
        NewStatus(states[i - 1], actions[i - 1], id);
        NothingHappened(actions, states, i - 1, id);
      }
      hide Step, Enabled;
    }
  }

  lemma IdsAreCounted(c: Conn)
    requires Inv(c)
    ensures forall x :: x in c.calls ==> x <= c.nextId
  {}

  lemma NoCallsYet(actions: seq<Action>, states: seq<Conn>)
    requires Run(actions, states)
    ensures states[0].calls == map[]
  {}

  // -------------------------------------------------------------- replies get there

  /** A call that is registered or waits has its reply on the way, or is pending, or the reader has finished. */
  ghost predicate Served(c: Conn) {
    forall id :: id in c.calls && (c.calls[id].Registered? || c.calls[id].Waiting?) ==>
      if id in c.routed then id in c.channel || Held(c, id) else id in c.pending || c.reader.Gone?
  }

  predicate Held(c: Conn, id: nat) { c.reader.Holding? && c.reader.id == id }

  lemma CallerServes(c: Conn, a: Action)
    requires Inv(c) && Served(c) && Enabled(c, a) && !ByReader(a)
    ensures Served(Step(c, a))
  {}

  lemma ReaderServes(c: Conn, a: Action)
    requires Inv(c) && Served(c) && Enabled(c, a) && ByReader(a)
    ensures Served(Step(c, a))
  {}

  lemma {:induction false} AlwaysServed(actions: seq<Action>, states: seq<Conn>, i: nat)
    requires Run(actions, states) && i < |states|
    ensures Served(states[i])
  {
    hide Run, Inv, WireInv, Step, Enabled;
    if i == 0 {
      NoCallsYet(actions, states);
    } else {
      hide Served;
      RunStep(actions, states, i - 1);
      AlwaysInv(actions, states, i - 1);
      AlwaysServed(actions, states, i - 1);
      if ByReader(actions[i - 1]) {
        ReaderServes(states[i - 1], actions[i - 1]);
      } else {
        CallerServes(states[i - 1], actions[i - 1]);
      }
    }
  }

  /**
    A reply once routed to a waiting call is there for it to receive as soon as
    the reader has sent it; and a waiting call is told that the relay closed only
    if the reader has finished and no reply came.
   */
  lemma RoutedRepliesAreReceived(actions: seq<Action>, states: seq<Conn>, i: nat, id: nat)
    requires Run(actions, states) && i < |states| && In(states[i], id, Waiting)
    ensures id in states[i].routed && !Held(states[i], id) ==>
      Enabled(states[i], Receive(id)) && states[i].channel[id] == states[i].routed[id] && !Enabled(states[i], TimerFires(id))
    ensures Enabled(states[i], SeeDisconnect(id)) ==> states[i].reader.Gone? && id !in states[i].routed
  {
    AlwaysInv(actions, states, i);
    AlwaysServed(actions, states, i);
    hide Run, WireInv;
  }

  /** A call that waits when the reader drops every sender can only be told that the relay closed. */
  lemma {:induction false} WaitersAreToldOfTheClose(actions: seq<Action>, states: seq<Conn>, k: nat, i: nat, id: nat)
    requires Run(actions, states) && k < i < |states|
    requires actions[k].ClearPending? && id in states[k].pending && In(states[k], id, Waiting)
    ensures In(states[i], id, Waiting) || In(states[i], id, Returned(RelayClosed))
  {
    hide Run;
    RunStep(actions, states, i - 1);
    if i > k + 1 {
      WaitersAreToldOfTheClose(actions, states, k, i - 1, id);
      OrphanStays(actions, states, k, i - 1, id);
      AlwaysInv(actions, states, i - 1);
      IdsAreCounted(states[i - 1]);
      hide Inv, WireInv;
      StatusStep(states[i - 1], actions[i - 1], id);
      OrphansSeeTheClose(states[i - 1], actions[i - 1], id);
    }
    hide Inv, WireInv;
  }

  lemma OrphansSeeTheClose(c: Conn, a: Action, id: nat)
    requires Orphaned(c, id) && Enabled(c, a)
    ensures a != TimerFires(id) && a != Receive(id)
  {}

  // ---------------------------------------------------------------------- the wire

  /** What the writes of the run put on the wire, in order. */
  function Written(actions: seq<Action>, i: nat): seq<Put>
    requires i <= |actions|
  {
    if i == 0 then []
    else match actions[i - 1]
      case Write(id) => Written(actions, i - 1) + [Sent(id)]
      case WriteFails(id, count) => Written(actions, i - 1) + [Partial(id, count)]
      case _ => Written(actions, i - 1)
  }

  lemma WireStep(c: Conn, a: Action)
    requires Enabled(c, a)
    ensures Step(c, a).wire == match a
      case Write(id) => c.wire + [Sent(id)]
      case WriteFails(id, count) => c.wire + [Partial(id, count)]
      case _ => c.wire
  {}

  lemma {:induction false} WireIsTheWrites(actions: seq<Action>, states: seq<Conn>, i: nat)
    requires Run(actions, states) && i < |states|
    ensures states[i].wire == Written(actions, i)
  {
    if i == 0 {
      hide Step, Enabled;
    } else {
      hide Run, Step, Enabled;
      RunStep(actions, states, i - 1);
      WireIsTheWrites(actions, states, i - 1);
      WireStep(states[i - 1], actions[i - 1]);
    }
  }

  /** So each call that waits, or has waited, has its frame on the wire. */
  lemma {:induction false} WaitersAreOnTheWire(actions: seq<Action>, states: seq<Conn>, i: nat, id: nat)
    requires Run(actions, states) && i < |states| && id in states[i].calls
    requires var s := states[i].calls[id]; s.Waiting? || s.TimedOut? || (s.Returned? && s.outcome != WriteFailed)
    ensures Sent(id) in states[i].wire
  {
    hide Run;
    if i == 0 {
      NoCallsYet(actions, states);
      assert false;
    } else {
      RunStep(actions, states, i - 1);
      AlwaysInv(actions, states, i - 1);
      IdsAreCounted(states[i - 1]);
      hide Inv, WireInv;
      WireStep(states[i - 1], actions[i - 1]);
      if id in states[i - 1].calls {
        StatusStep(states[i - 1], actions[i - 1], id);
        if actions[i - 1] != Write(id) { WaitersAreOnTheWire(actions, states, i - 1, id); }
      } else {
        NewStatus(states[i - 1], actions[i - 1], id);
        assert false;
      }
    }
  }
}
