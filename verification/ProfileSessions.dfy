/** Profile sessions whose events are queued until the transaction commits, for any number of sessions and any
    interleaving of their operations (acapy_agent/core/profile.py, over the Askar sessions of
    acapy_agent/askar/profile.py, whose opener can be used once). */
module ProfileSessions {

  type Event = string

  /** `opener` and `handle` say which of the two the Askar session still holds. `committed`, `closing` and `delivering`
      say how far a commit has got: the store has accepted it, its handle is being closed, the events are being handed
      over. `outbox` is what has yet to be handed to the bus. */
  datatype Session = Session(
    isTxn: bool, active: bool, awaited: bool, entered: nat, opener: bool, handle: bool,
    events: seq<Event>, committed: bool, closing: bool, delivering: bool, outbox: seq<Event>)

  function NewSession(isTxn: bool): Session {
    Session(isTxn, false, false, 0, true, false, [], false, false, false, [])
  }

  datatype Delivery = Delivery(sid: nat, event: Event)

  datatype System = System(sessions: map<nat, Session>, bus: seq<Delivery>)

  datatype Step =
    | Create(sid: nat, isTxn: bool)
    | Enter(sid: nat, setupOk: bool)       // async with
    | Await(sid: nat, setupOk: bool)       // await session
    | Exit(sid: nat)
    | Emit(sid: nat, event: Event)
    | Commit(sid: nat, storeOk: bool)      // the store answers the commit
    | Close(sid: nat)                      // the commit has closed its handle
    | Deliver(sid: nat)                    // the commit hands over its next event, or finishes
    | Rollback(sid: nat)

  /** The store connection is opened unless it already was; a used-up opener cannot be opened again. */
  function SetUp(s: Session, ok: bool): Session {
    if s.active || !s.opener || !ok then s else s.(active := true, opener := false, handle := true)
  }

  function DoEnter(s: Session, ok: bool): Session {
    var s' := SetUp(s, ok);
    if s'.active then s'.(entered := s'.entered + 1) else s
  }

  function DoAwait(s: Session, ok: bool): Session {
    var s' := SetUp(s, ok);
    if s'.active then s'.(awaited := true) else s
  }

  function DoExit(s: Session): Session {
    if s.entered == 0 then s
    else
      var s' := s.(entered := s.entered - 1);
      if !s'.awaited && s'.entered == 0 then s'.(handle := false, active := false) else s'
  }

  /** A session that is neither opened nor about to be opened refuses to emit. */
  predicate Accepts(s: Session) {
    s.handle || s.opener
  }

  /** The store commits a transaction once. */
  predicate CommitSucceeds(s: Session, storeOk: bool) {
    s.active && s.handle && storeOk && !s.committed
  }

  /** The store has committed; until its handle is closed the session can still be used. */
  function DoCommit(s: Session, storeOk: bool): Session {
    if !CommitSucceeds(s, storeOk) then s else s.(committed := true, closing := true)
  }

  function DoClose(s: Session): Session {
    if !s.closing then s
    else s.(handle := false, closing := false, delivering := true, outbox := s.events, events := [])
  }

  function DoRollback(s: Session): Session {
    if !s.active then s else s.(handle := false, events := [], active := false)
  }

  function Update(y: System, sid: nat, s: Session): System {
    y.(sessions := y.sessions[sid := s])
  }

  function DoEmit(y: System, sid: nat, event: Event): System
    requires sid in y.sessions
  {
    var s := y.sessions[sid];
    if !Accepts(s) then y
    else if s.isTxn then Update(y, sid, s.(events := s.events + [event]))
    else y.(bus := y.bus + [Delivery(sid, event)])
  }

  function DoDeliver(y: System, sid: nat): System
    requires sid in y.sessions
  {
    var s := y.sessions[sid];
    if !s.delivering then y
    else if s.outbox == [] then Update(y, sid, s.(delivering := false, active := false))
    else System(y.sessions[sid := s.(outbox := s.outbox[1..])], y.bus + [Delivery(sid, s.outbox[0])])
  }

  function Next(y: System, step: Step): System {
    if step.Create? then
      if step.sid in y.sessions then y else Update(y, step.sid, NewSession(step.isTxn))
    else if step.sid !in y.sessions then y
    else
      var s := y.sessions[step.sid];
      match step
      case Enter(sid, ok) => Update(y, sid, DoEnter(s, ok))
      case Await(sid, ok) => Update(y, sid, DoAwait(s, ok))
      case Exit(sid) => Update(y, sid, DoExit(s))
      case Emit(sid, event) => DoEmit(y, sid, event)
      case Commit(sid, ok) => Update(y, sid, DoCommit(s, ok))
      case Close(sid) => Update(y, sid, DoClose(s))
      case Deliver(sid) => DoDeliver(y, sid)
      case Rollback(sid) => Update(y, sid, DoRollback(s))
  }

  const INIT := System(map[], [])

  function After(run: seq<Step>): System {
    if run == [] then INIT else Next(After(run[..|run| - 1]), run[|run| - 1])
  }

  // ---- What the bus should have received, read off the run ----

  /** The emits of session `sid` that were accepted, in order. */
  function AcceptedEmits(run: seq<Step>, sid: nat): seq<Event> {
    if run == [] then []
    else
      var init, last := run[..|run| - 1], run[|run| - 1];
      AcceptedEmits(init, sid) +
      (if last.Emit? && last.sid == sid && sid in After(init).sessions && Accepts(After(init).sessions[sid])
       then [last.event] else [])
  }

  /** How many commits of `sid` the store accepted. */
  function SuccessfulCommits(run: seq<Step>, sid: nat): nat {
    if run == [] then 0
    else
      var init, last := run[..|run| - 1], run[|run| - 1];
      SuccessfulCommits(init, sid) +
      (if last.Commit? && last.sid == sid && sid in After(init).sessions
          && CommitSucceeds(After(init).sessions[sid], last.storeOk)
       then 1 else 0)
  }

  /** A rollback has come between the store's answer to the commit of `sid` and the closing of its handle. */
  predicate Interrupted(run: seq<Step>, sid: nat) {
    && run != []
    && var init, last := run[..|run| - 1], run[|run| - 1];
    || Interrupted(init, sid)
    || (last == Rollback(sid) && sid in After(init).sessions && Interrupts(After(init).sessions[sid]))
  }

  predicate Interrupts(s: Session) {
    s.closing && s.active
  }

  /** What the bus got from one session. */
  function Received(bus: seq<Delivery>, sid: nat): seq<Event> {
    if bus == [] then []
    else
      Received(bus[..|bus| - 1], sid) + (if bus[|bus| - 1].sid == sid then [bus[|bus| - 1].event] else [])
  }

  lemma ReceivedAppend(bus: seq<Delivery>, d: Delivery, sid: nat)
    ensures Received(bus + [d], sid) == Received(bus, sid) + (if d.sid == sid then [d.event] else [])
  {
    assert (bus + [d])[..|bus|] == bus;
  }

  ghost predicate SessionInv(s: Session, accepted: seq<Event>, commits: nat, received: seq<Event>, lost: bool) {
    && (s.active ==> !s.opener)
    && (s.handle ==> s.active)
    && (s.committed <==> commits == 1) && commits <= 1
    && (s.committed ==> !s.opener && (s.handle ==> s.closing && !lost))
    && (!s.committed ==> s.outbox == [] && !s.delivering && !s.closing && !lost)
    && (s.closing ==> s.outbox == [] && !s.delivering)
    && (s.delivering <== s.outbox != [])
    && (s.isTxn && !s.committed && Accepts(s) ==> s.events == accepted)
    && (s.isTxn && (!s.committed || s.closing) ==> received == [])
    && (s.isTxn && s.closing ==> s.events == if lost then [] else accepted)
    && (s.isTxn && s.committed && !s.closing ==> received + s.outbox == if lost then [] else accepted)
    && (!s.isTxn ==> s.events == [] && s.outbox == [] && received == accepted)
  }

  ghost predicate RunInv(run: seq<Step>, sid: nat) {
    var y := After(run);
    if sid in y.sessions then
      SessionInv(y.sessions[sid], AcceptedEmits(run, sid), SuccessfulCommits(run, sid), Received(y.bus, sid),
                 Interrupted(run, sid))
    else
      && AcceptedEmits(run, sid) == [] && SuccessfulCommits(run, sid) == 0 && Received(y.bus, sid) == []
      && !Interrupted(run, sid)
  }

  /** What a step hands to the bus. */
  function Handed(y: System, step: Step): seq<Delivery> {
    if step.sid !in y.sessions then []
    else
      var s := y.sessions[step.sid];
      if step.Emit? && Accepts(s) && !s.isTxn then [Delivery(step.sid, step.event)]
      else if step.Deliver? && s.delivering && s.outbox != [] then [Delivery(step.sid, s.outbox[0])]
      else []
  }

  /** The session that a step leaves behind. */
  function Stepped(s: Session, step: Step): Session {
    match step
    case Create(_, _) => s
    case Enter(_, ok) => DoEnter(s, ok)
    case Await(_, ok) => DoAwait(s, ok)
    case Exit(_) => DoExit(s)
    case Emit(_, event) => if Accepts(s) && s.isTxn then s.(events := s.events + [event]) else s
    case Commit(_, ok) => DoCommit(s, ok)
    case Close(_) => DoClose(s)
    case Deliver(_) =>
      if !s.delivering then s
      else if s.outbox == [] then s.(delivering := false, active := false)
      else s.(outbox := s.outbox[1..])
    case Rollback(_) => DoRollback(s)
  }

  lemma StepShape(y: System, step: Step)
    ensures Next(y, step).bus == y.bus + Handed(y, step)
    ensures forall sid :: sid in y.sessions ==>
      && sid in Next(y, step).sessions
      && Next(y, step).sessions[sid] == (if sid == step.sid then Stepped(y.sessions[sid], step) else y.sessions[sid])
    ensures forall sid :: sid in Next(y, step).sessions && sid !in y.sessions ==>
      && step == Create(sid, Next(y, step).sessions[sid].isTxn)
      && Next(y, step).sessions[sid] == NewSession(Next(y, step).sessions[sid].isTxn)
  {
    if step.sid in y.sessions {
      assert y.sessions[step.sid := y.sessions[step.sid]] == y.sessions;
    }
  }

  lemma OwnDelivery(s: Session, step: Step, accepted: seq<Event>, commits: nat, received: seq<Event>, lost: bool)
    requires SessionInv(s, accepted, commits, received, lost) && step.Deliver?
    ensures SessionInv(Stepped(s, step), accepted, commits,
                       received + (if s.delivering && s.outbox != [] then [s.outbox[0]] else []), lost)
  {
    if s.delivering && s.outbox != [] {
      assert received + [s.outbox[0]] + s.outbox[1..] == received + s.outbox;
    }
    assert received + [] == received;
  }

  lemma OwnStep(s: Session, step: Step, accepted: seq<Event>, commits: nat, received: seq<Event>, lost: bool)
    requires SessionInv(s, accepted, commits, received, lost)
    ensures SessionInv(Stepped(s, step),
      accepted + (if step.Emit? && Accepts(s) then [step.event] else []),
      commits + (if step.Commit? && CommitSucceeds(s, step.storeOk) then 1 else 0),
      received + (if step.Emit? && Accepts(s) && !s.isTxn then [step.event]
                  else if step.Deliver? && s.delivering && s.outbox != [] then [s.outbox[0]] else []),
      lost || (step.Rollback? && Interrupts(s)))
  {
    assert accepted + [] == accepted && received + [] == received;
    if step.Deliver? {
      OwnDelivery(s, step, accepted, commits, received, lost);
    }
  }

  lemma {:induction false} RunInvariant(run: seq<Step>, sid: nat)
    ensures RunInv(run, sid)
  {
    if run != [] {
      var init, last := run[..|run| - 1], run[|run| - 1];
      var y := After(init);
      RunInvariant(init, sid);
      StepShape(y, last);
      if Handed(y, last) == [] {
        assert y.bus + [] == y.bus;
      } else {
        ReceivedAppend(y.bus, Handed(y, last)[0], sid);
      }
      var received := Received(y.bus, sid);
      assert AcceptedEmits(init, sid) + [] == AcceptedEmits(init, sid) && received + [] == received;
      if sid in y.sessions && last.sid == sid {
        OwnStep(y.sessions[sid], last, AcceptedEmits(init, sid), SuccessfulCommits(init, sid), received, Interrupted(init, sid));
      }
    }
  }

  /** Over every run of any number of sessions: the bus has received nothing from a transaction that has not
      committed; no session commits twice; and once its commit has returned, the bus has received, in order and once
      each, exactly the events emitted on it, those emitted while the handle was being closed included, unless a
      rollback came in while it was: then, and only then, it gets none of them, although the store has committed. */
  lemma {:induction false} EventsExactlyOnce(run: seq<Step>, sid: nat)
    requires sid in After(run).sessions && After(run).sessions[sid].isTxn
    ensures var got, sent := Received(After(run).bus, sid), AcceptedEmits(run, sid);
      && SuccessfulCommits(run, sid) <= 1
      && (SuccessfulCommits(run, sid) == 0 ==> got == [])
      && (SuccessfulCommits(run, sid) == 1 && Interrupted(run, sid) ==> got == [])
      && (SuccessfulCommits(run, sid) == 1 && !Interrupted(run, sid) ==> got <= sent)
      && (SuccessfulCommits(run, sid) == 1 && Returned(After(run).sessions[sid]) ==>
            (got == sent <==> !Interrupted(run, sid) || sent == []))
  {
    RunInvariant(run, sid);
  }

  predicate Returned(s: Session) {
    !s.closing && !s.delivering
  }

  /** The store has committed session `sid`, which emitted `event`, and the bus has got nothing from it for good. */
  ghost predicate EventLost(run: seq<Step>, sid: nat, event: Event) {
    && sid in After(run).sessions && Returned(After(run).sessions[sid])
    && SuccessfulCommits(run, sid) == 1 && event in AcceptedEmits(run, sid)
    && Received(After(run).bus, sid) == []
  }

  lemma OneMoreStep(run: seq<Step>, step: Step)
    ensures After(run + [step]) == Next(After(run), step)
    ensures (run + [step])[..|run|] == run
  {
    assert (run + [step])[..|run|] == run;
  }

  lemma CommittedWith(event: Event) returns (run: seq<Step>)
    ensures After(run) == System(map[0 := Session(true, true, false, 1, false, true, [event], true, true, false, [])], [])
    ensures AcceptedEmits(run, 0) == [event]
  {
    var run1 := [Create(0, true)];
    OneMoreStep([], Create(0, true));
    assert [] + [Create(0, true)] == run1 && AcceptedEmits(run1, 0) == [];
    OneMoreStep(run1, Enter(0, true));
    var run2 := run1 + [Enter(0, true)];
    assert AcceptedEmits(run2, 0) == [];
    OneMoreStep(run2, Emit(0, event));
    var run3 := run2 + [Emit(0, event)];
    assert AcceptedEmits(run3, 0) == [event];
    OneMoreStep(run3, Commit(0, true));
    run := run3 + [Commit(0, true)];
  }

  lemma AbandonedFrom(run: seq<Step>, event: Event) returns (run': seq<Step>)
    requires After(run) == System(map[0 := Session(true, true, false, 1, false, true, [event], true, true, false, [])], [])
    ensures After(run') == System(map[0 := Session(true, false, false, 1, false, false, [], true, false, false, [])], [])
    ensures AcceptedEmits(run', 0) == AcceptedEmits(run, 0)
  {
    OneMoreStep(run, Rollback(0));
    var run1 := run + [Rollback(0)];
    assert AcceptedEmits(run1, 0) == AcceptedEmits(run, 0);
    OneMoreStep(run1, Close(0));
    var run2 := run1 + [Close(0)];
    assert AcceptedEmits(run2, 0) == AcceptedEmits(run, 0);
    OneMoreStep(run2, Deliver(0));
    run' := run2 + [Deliver(0)];
  }

  /** Such a rollback loses the events for good. */
  lemma InterruptedCommitLoses(event: Event)
    ensures exists run :: EventLost(run, 0, event)
  {
    var run0 := CommittedWith(event);
    var run := AbandonedFrom(run0, event);
    RunInvariant(run, 0);
    assert EventLost(run, 0, event);
  }

  /** A session that is not a transaction emits directly. */
  lemma {:induction false} PlainSessionsEmitDirectly(run: seq<Step>, sid: nat)
    requires sid in After(run).sessions && !After(run).sessions[sid].isTxn
    ensures Received(After(run).bus, sid) == AcceptedEmits(run, sid)
  {
    RunInvariant(run, sid);
  }

  /** Rolled back, committed and delivered, or left for the last time. */
  ghost predicate Over(s: Session) {
    !s.active && !s.opener && !s.handle
  }

  /** A session that is over can neither be reopened nor committed nor emitted on again. */
  lemma SingleUse(y: System, step: Step, sid: nat)
    requires sid in y.sessions && Over(y.sessions[sid])
    ensures sid in Next(y, step).sessions && Over(Next(y, step).sessions[sid])
    ensures Next(y, step).sessions[sid].committed == y.sessions[sid].committed
  {
  }

  /** The last two steps of a commit, field by field: closing hands the queue over to delivery, and each delivery takes
      the first event; when nothing is left the session ends. */
  lemma CommitGoesOn(y: System, sid: nat)
    requires sid in y.sessions
    ensures var s, s' := y.sessions[sid], Next(y, Close(sid)).sessions[sid];
      && (s.closing ==> !s'.handle && !s'.closing && s'.delivering && s'.outbox == s.events && s'.events == []
                        && s'.active == s.active && s'.committed == s.committed)
      && (!s.closing ==> s' == s)
      && Next(y, Close(sid)).bus == y.bus
    ensures var s, y' := y.sessions[sid], Next(y, Deliver(sid));
      && (s.delivering && s.outbox != [] ==>
            && y'.bus == y.bus + [Delivery(sid, s.outbox[0])]
            && y'.sessions[sid].outbox == s.outbox[1..] && y'.sessions[sid].delivering)
      && (s.delivering && s.outbox == [] ==>
            y'.bus == y.bus && !y'.sessions[sid].delivering && !y'.sessions[sid].active)
      && (!s.delivering ==> y' == y)
  {
    assert y.sessions[sid := y.sessions[sid]] == y.sessions;
  }

  // ---- The class ----

  class ProfileSession {
    const isTxn: bool
    var active: bool
    var awaited: bool
    var entered: nat
    var opener: bool
    var handle: bool
    var events: seq<Event>
    ghost var committed: bool

    /** The session between operations; deliveries run inside Commit. */
    ghost function Contents(): Session
      reads this
    {
      Session(isTxn, active, awaited, entered, opener, handle, events, committed, false, false, [])
    }

    /** An opener is used once, and what the store has committed is closed. */
    ghost predicate Valid()
      reads this
    {
      (active ==> !opener) && (committed ==> !Accepts(Contents()))
    }

    constructor (isTxn: bool)
      ensures Valid() && Contents() == NewSession(isTxn)
    {
      this.isTxn := isTxn;
      active, awaited, entered, opener, handle, events, committed := false, false, 0, true, false, [], false;
    }

    method EnterSession(setupOk: bool) returns (ok: bool)
      requires Valid()
      modifies this
      ensures Valid() && Contents() == DoEnter(old(Contents()), setupOk)
      ensures ok <==> old(active) || (old(opener) && setupOk)
      ensures ok ==> active && entered == old(entered) + 1
      ensures ok && !old(active) ==> handle && !opener
      ensures !ok ==> active == old(active) && entered == old(entered)
      ensures !ok || old(active) ==> handle == old(handle) && opener == old(opener)
      ensures awaited == old(awaited) && events == old(events)
    {
      if !active {
        if !opener || !setupOk {
          return false;
        }
        handle, opener := true, false;
        active := true;
      }
      entered := entered + 1;
      ok := true;
    }

    method AwaitSession(setupOk: bool) returns (ok: bool)
      requires Valid()
      modifies this
      ensures Valid() && Contents() == DoAwait(old(Contents()), setupOk)
      ensures ok <==> old(active) || (old(opener) && setupOk)
      ensures ok ==> active && awaited
      ensures ok && !old(active) ==> handle && !opener
      ensures !ok ==> active == old(active) && awaited == old(awaited)
      ensures !ok || old(active) ==> handle == old(handle) && opener == old(opener)
      ensures entered == old(entered) && events == old(events)
    {
      if !active {
        if !opener || !setupOk {
          return false;
        }
        handle, opener := true, false;
        active := true;
      }
      awaited := true;
      ok := true;
    }

    method ExitSession()
      requires Valid() && entered > 0
      modifies this
      ensures Valid() && Contents() == DoExit(old(Contents()))
      ensures entered == old(entered) - 1
      ensures old(entered) == 1 && !old(awaited) ==> !active && !handle
      ensures old(entered) > 1 || old(awaited) ==> active == old(active) && handle == old(handle)
      ensures opener == old(opener) && awaited == old(awaited) && events == old(events)
    {
      entered := entered - 1;
      if !awaited && entered == 0 {
        handle := false;
        active := false;
      }
    }

    /** Returns the event if it is to be sent at once. */
    method EmitEvent(event: Event) returns (ok: bool, direct: seq<Event>)
      requires Valid()
      modifies this`events
      ensures Valid() && (ok <==> old(handle) || old(opener))
      ensures direct == if ok && !isTxn then [event] else []
      ensures events == if ok && isTxn then old(events) + [event] else old(events)
    {
      direct := [];
      if !handle && !opener {
        return false, direct;
      }
      ok := true;
      if isTxn {
        events := events + [event];
      } else {
        direct := [event];
      }
    }

    /** `sent` is what the bus is handed, one event after the other, once the store has committed. */
    method CommitSession(storeOk: bool) returns (ok: bool, sent: seq<Event>)
      requires Valid()
      modifies this
      ensures Valid() && (ok <==> CommitSucceeds(old(Contents()), storeOk))
      ensures ok ==>
        Contents() == DoClose(DoCommit(old(Contents()), storeOk)).(active := false, delivering := false, outbox := [])
      ensures !ok ==> Contents() == old(Contents())
      ensures ok ==> old(active) && old(handle) && storeOk
      ensures ok ==> sent == old(events) && events == [] && !active && !handle
      ensures !ok ==> sent == [] && events == old(events) && active == old(active) && handle == old(handle)
      ensures !(ok || !old(active) || !old(handle) || !storeOk) ==> old(committed)
      ensures entered == old(entered) && awaited == old(awaited) && opener == old(opener)
      ensures sent == if ok then DoClose(DoCommit(old(Contents()), storeOk)).outbox else []
    {
      sent := [];
      if !active || !handle || !storeOk {
        return false, sent;
      }
      handle := false;
      for n := 0 to |events|
        invariant sent == events[..n] && events == old(events) && !handle
        invariant active == old(active) && entered == old(entered) && opener == old(opener)
        invariant awaited == old(awaited) && committed == old(committed)
      {
        sent := sent + [events[n]];
      }
      events := [];
      active := false;
      committed := true;
      ok := true;
    }

    method RollbackSession() returns (ok: bool)
      requires Valid()
      modifies this
      ensures Valid() && Contents() == DoRollback(old(Contents())) && ok == old(active)
      ensures ok ==> !active && !handle && events == []
      ensures !ok ==> active == old(active) && handle == old(handle) && events == old(events)
      ensures entered == old(entered) && awaited == old(awaited) && opener == old(opener)
    {
      if !active {
        return false;
      }
      handle := false;
      events := [];
      active := false;
      ok := true;
    }
  }
}
