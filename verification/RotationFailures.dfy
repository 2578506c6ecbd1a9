/** Registry rotation when attempts to issue may fail after they have drawn an index. Only an attempt that creates its
    credential swaps registries, so failing attempts can use up the active one
    (acapy_agent/anoncreds/revocation.py). */
module RotationFailures {
  import opened Prelude
  import opened RevocationWallet
  import opened Publishing
  import opened HotSwap

  /** The first index at which a created credential swaps registries. */
  function Margin(p: Params): int {
    if p.maxCredNum <= 2 then 1 else p.maxCredNum - 1
  }

  ghost predicate RegistryTurning(w: Wallet, p: Params, active: Id, r: Id)
    requires r in w.defs
  {
    && (w.defs[r].active && w.defs[r].credDef == p.credDef <==> r == active)
    && (w.defs[r].credDef == p.credDef ==>
          && w.defs[r].maxCredNum == p.maxCredNum
          && (r in w.lists ==> w.lists[r].value.nextIndex <= p.maxCredNum + 1 && |w.lists[r].value.bits| == p.length)
          && (r == active ==> Complete(w, r) && 1 <= w.lists[r].value.nextIndex)
          && (r != active && w.defs[r].state == Finished ==> Complete(w, r) && w.lists[r].value.nextIndex == 1))
  }

  /** `active` is the one active registry, used up or not, and at least one finished spare is unused. */
  ghost predicate Turning(w: Wallet, p: Params, active: Id) {
    && active in w.defs
    && (exists r :: r in Spares(w, p.credDef))
    && (forall r :: r in w.defs ==> RegistryTurning(w, p, active, r))
  }

  /** Every index that the active registry could still have given out is gone. */
  ghost predicate UsedUp(w: Wallet, p: Params, active: Id) {
    active in w.lists && w.lists[active].value.nextIndex > p.maxCredNum
  }

  lemma ReadyTurns(w: Wallet, p: Params, a: Id)
    requires p.maxCredNum >= 1 && ReadyWith(w, p, a)
    ensures Turning(w, p, a) && a in w.lists && w.lists[a].value.nextIndex <= Margin(p)
  {
    assert RegistryReady(w, p, a, a);
    forall r | r in w.defs ensures RegistryTurning(w, p, a, r) {
      assert RegistryReady(w, p, a, r);
    }
  }

  lemma TurningActive(w: Wallet, p: Params, a: Id)
    requires Turning(w, p, a)
    ensures ActiveRegistries(w, p.credDef) == {a} && Complete(w, a) && 1 <= w.lists[a].value.nextIndex <= p.maxCredNum + 1
    ensures w.defs[a].maxCredNum == p.maxCredNum && w.defs[a].credDef == p.credDef
  {
    assert RegistryTurning(w, p, a, a);
    forall r | r in ActiveRegistries(w, p.credDef) ensures r == a {
      assert RegistryTurning(w, p, a, r);
    }
  }

  /** Which registry is active after an operation. */
  function NextActive(w: Wallet, p: Params, op: Op, a: Id): Id {
    match op
    case Issue(_, spare, _, created) =>
      if a in w.lists && w.lists[a].value.nextIndex <= p.maxCredNum && created
         && IsFull(p.maxCredNum, w.lists[a].value.nextIndex)
      then spare else a
    case Decommission(_, newId, _) => newId
    case _ => a
  }

  lemma DrawTurns(w: Wallet, p: Params, a: Id)
    requires Turning(w, p, a) && !UsedUp(w, p, a)
    ensures a in w.lists
    ensures var w' := DrawWrite(w, a, Drawn(w.lists[a]));
      && Turning(w', p, a) && Spares(w', p.credDef) == Spares(w, p.credDef)
      && w'.defs == w.defs && w'.keys == w.keys && w'.lists.Keys == w.lists.Keys
      && w'.lists[a].value.nextIndex == w.lists[a].value.nextIndex + 1
  {
    TurningActive(w, p, a);
    var w' := DrawWrite(w, a, Drawn(w.lists[a]));
    assert Spares(w', p.credDef) == Spares(w, p.credDef);
    forall r | r in w'.defs ensures RegistryTurning(w', p, a, r) {
      assert RegistryTurning(w, p, a, r);
    }
  }

  /** A swap, registry by registry. */
  function Swapped(d: RegDef, r: Id, credDef: Id, full: Id, spare: Id): RegDef {
    if r == full then d.(active := false, state := Full)
    else if r == spare then d.(active := true)
    else if d.credDef == credDef then d.(active := false)
    else d
  }

  ghost predicate IsSwap(w: Wallet, w': Wallet, p: Params, full: Id, spare: Id, newId: Id) {
    && w'.defs.Keys == w.defs.Keys + {newId}
    && w'.defs[newId] == RegDef(p.credDef, p.maxCredNum, Finished, false)
    && (forall r :: r in w.defs ==> w'.defs[r] == Swapped(w.defs[r], r, p.credDef, full, spare))
    && w'.keys == w.keys + {newId}
    && w'.lists == w.lists[newId := NewList(p.length, 0, ListFinished)]
  }

  lemma SwapIsSwap(w: Wallet, p: Params, full: Id, spare: Id, newId: Id)
    requires full in w.defs && w.defs[full].credDef == p.credDef && w.defs[full].maxCredNum == p.maxCredNum
    requires spare in Spares(w, p.credDef) && spare != full && FreshName(w, newId)
    ensures IsSwap(w, HandleFull(w, p.length, full, spare, newId), p, full, spare, newId)
  {
    CreateAdds(MarkFull(SetActive(w, spare), full), p, newId);
  }

  lemma SwappedSpares(w: Wallet, w': Wallet, p: Params, a: Id, spare: Id, newId: Id)
    requires Turning(w, p, a) && spare in Spares(w, p.credDef) && newId !in w.defs && IsSwap(w, w', p, a, spare, newId)
    ensures Spares(w', p.credDef) == Spares(w, p.credDef) - {spare} + {newId}
  {
    forall r | r in w.defs ensures r in Spares(w', p.credDef) <==> r in Spares(w, p.credDef) - {spare} {
      assert RegistryTurning(w, p, a, r);
    }
  }

  lemma SwapTurns(w: Wallet, p: Params, a: Id, spare: Id, newId: Id)
    requires Turning(w, p, a) && spare in Spares(w, p.credDef) && FreshName(w, newId) && p.maxCredNum >= 1
    ensures var w' := HandleFull(w, p.length, a, spare, newId);
      && Turning(w', p, spare) && spare in w'.lists && w'.lists[spare].value.nextIndex == 1
      && w'.defs.Keys == w.defs.Keys + {newId}
      && Spares(w', p.credDef) == Spares(w, p.credDef) - {spare} + {newId}
  {
    TurningActive(w, p, a);
    assert RegistryTurning(w, p, a, spare);
    var w' := HandleFull(w, p.length, a, spare, newId);
    SwapIsSwap(w, p, a, spare, newId);
    SwappedSpares(w, w', p, a, spare, newId);
    SwappedTurns(w, w', p, a, spare, newId);
  }

  lemma SwappedTurns(w: Wallet, w': Wallet, p: Params, a: Id, spare: Id, newId: Id)
    requires Turning(w, p, a) && spare in Spares(w, p.credDef) && newId !in w.defs && p.maxCredNum >= 1
    requires IsSwap(w, w', p, a, spare, newId)
    ensures Turning(w', p, spare)
  {
    assert newId in Spares(w', p.credDef);
    assert RegistryTurning(w, p, a, spare);
    forall r | r in w'.defs ensures RegistryTurning(w', p, spare, r) {
      if r != newId {
        assert RegistryTurning(w, p, a, r);
      }
    }
  }

  /** What an attempt to issue comes to, and which registry is active then. */
  lemma IssueTurns(w: Wallet, p: Params, op: Op, a: Id)
    requires p.maxCredNum >= 1 && Turning(w, p, a) && op.Issue? && Legal(w, p, op)
    ensures op.active == a && a in w.lists
    ensures var (w', out) := Perform(w, p, op);
      var n := w.lists[a].value.nextIndex;
      && Turning(w', p, NextActive(w, p, op, a))
      && (if n > p.maxCredNum then out == Refused(RegistryFull) && w' == w
          else out == if op.created then Issued(a, n) else Lost(a, n))
  {
    TurningActive(w, p, a);
    assert op.active in ActiveRegistries(w, p.credDef);
    if w.lists[a].value.nextIndex <= p.maxCredNum {
      DrawTurns(w, p, a);
      if op.created && IsFull(p.maxCredNum, w.lists[a].value.nextIndex) {
        SwapTurns(DrawWrite(w, a, Drawn(w.lists[a])), p, a, op.spare, op.newId);
      }
    }
  }

  lemma DecommissionTurns(w: Wallet, p: Params, op: Op, a: Id)
    requires p.maxCredNum >= 1 && Turning(w, p, a) && op.Decommission? && Legal(w, p, op)
    ensures var w' := Perform(w, p, op).0;
      && Turning(w', p, op.newId) && Perform(w, p, op).1 == Done
      && op.newId in w'.lists && w'.lists[op.newId].value.nextIndex == 1
      && w'.defs.Keys == w.defs.Keys + {op.newId, op.backup} && Spares(w', p.credDef) == {op.backup}
  {
    TurningActive(w, p, a);
    assert op.active in ActiveRegistries(w, p.credDef);
    DecommissionRotates(w, p, op);
    var w' := Perform(w, p, op).0;
    assert op.backup in Spares(w', p.credDef);
    forall r | r in w'.defs ensures RegistryTurning(w', p, op.newId, r) {
      if r in w.defs {
        assert RegistryTurning(w, p, a, r);
      }
    }
  }

  lemma OtherOpsTurn(w: Wallet, p: Params, op: Op, a: Id)
    requires Turning(w, p, a) && Legal(w, p, op) && !op.Issue? && !op.Decommission?
    ensures var (w', out) := Perform(w, p, op);
      && Turning(w', p, a) && !out.Lost?
      && w'.defs == w.defs && Spares(w', p.credDef) == Spares(w, p.credDef)
      && a in w.lists && a in w'.lists && w'.lists[a].value.nextIndex == w.lists[a].value.nextIndex
  {
    TurningActive(w, p, a);
    var w' := Perform(w, p, op).0;
    assert w'.defs == w.defs && w'.keys == w.keys && w'.lists.Keys == w.lists.Keys;
    assert Spares(w', p.credDef) == Spares(w, p.credDef);
    forall r | r in w'.defs ensures RegistryTurning(w', p, a, r) {
      assert RegistryTurning(w, p, a, r);
    }
  }

  // ---- Runs ----

  lemma {:induction false} AfterOpsAppend(w: Wallet, p: Params, ops: seq<Op>, op: Op)
    ensures AfterOps(w, p, ops + [op]) == Perform(AfterOps(w, p, ops), p, op).0
    ensures Outcomes(w, p, ops + [op]) == Outcomes(w, p, ops) + [Perform(AfterOps(w, p, ops), p, op).1]
    ensures LegalRun(w, p, ops + [op]) <==> LegalRun(w, p, ops) && Legal(AfterOps(w, p, ops), p, op)
    decreases |ops|
  {
    var w' := if ops == [] then Perform(w, p, op).0 else Perform(w, p, ops[0]).0;
    if ops == [] {
      assert (ops + [op])[1..] == [];
      assert LegalRun(w', p, []) && Outcomes(w', p, []) == [];
    } else {
      AfterOpsAppend(w', p, ops[1..], op);
      assert (ops + [op])[1..] == ops[1..] + [op];
    }
  }

  /** What the outcomes so far say about the registries: the active one has been drawn beyond the margin exactly by
      attempts that lost their index, and no spare has lost any. */
  ghost predicate History(w: Wallet, p: Params, a: Id, outs: seq<HotSwap.Outcome>) {
    && Turning(w, p, a)
    && a in w.lists
    && (forall i :: Margin(p) <= i ==> (i < w.lists[a].value.nextIndex <==> Lost(a, i) in outs))
    && (forall r, i :: Lost(r, i) in outs ==> r in w.defs && r !in Spares(w, p.credDef))
  }

  lemma OutcomeAdded(outs: seq<HotSwap.Outcome>, out: HotSwap.Outcome)
    ensures forall o :: o in outs + [out] <==> o in outs || o == out
  {
  }

  lemma HistoryAfterSwap(w: Wallet, w': Wallet, p: Params, a: Id, spare: Id, newId: Id,
                         outs: seq<HotSwap.Outcome>, out: HotSwap.Outcome)
    requires p.maxCredNum >= 1 && History(w, p, a, outs) && spare in Spares(w, p.credDef) && newId !in w.defs && !out.Lost?
    requires Turning(w', p, spare) && spare in w'.lists && w'.lists[spare].value.nextIndex == 1
    requires w'.defs.Keys == w.defs.Keys + {newId} && Spares(w', p.credDef) == Spares(w, p.credDef) - {spare} + {newId}
    ensures History(w', p, spare, outs + [out])
  {
    OutcomeAdded(outs, out);
  }

  lemma SwapPerforms(w: Wallet, p: Params, op: Op, a: Id)
    requires Turning(w, p, a) && op.Issue? && op.created && op.active == a && !UsedUp(w, p, a)
    requires a in w.lists && IsFull(p.maxCredNum, w.lists[a].value.nextIndex)
    ensures a in w.defs
    ensures Perform(w, p, op) == (HandleFull(DrawWrite(w, a, Drawn(w.lists[a])), p.length, a, op.spare, op.newId),
                                  HotSwap.Issued(a, w.lists[a].value.nextIndex))
  {
    TurningActive(w, p, a);
    DrawTurns(w, p, a);
  }

  lemma SwapHistory(w: Wallet, p: Params, op: Op, a: Id, outs: seq<HotSwap.Outcome>)
    requires p.maxCredNum >= 1 && History(w, p, a, outs) && op.Issue? && Legal(w, p, op) && op.created
    requires w.lists[a].value.nextIndex <= p.maxCredNum && IsFull(p.maxCredNum, w.lists[a].value.nextIndex)
    ensures History(Perform(w, p, op).0, p, op.spare, outs + [Perform(w, p, op).1])
  {
    IssueTurns(w, p, op, a);
    DrawTurns(w, p, a);
    SwapPerforms(w, p, op, a);
    var w1 := DrawWrite(w, a, Drawn(w.lists[a]));
    SwapTurns(w1, p, a, op.spare, op.newId);
    HistoryAfterSwap(w, HandleFull(w1, p.length, a, op.spare, op.newId), p, a, op.spare, op.newId, outs,
                     HotSwap.Issued(a, w.lists[a].value.nextIndex));
  }

  lemma IssueHistory(w: Wallet, p: Params, op: Op, a: Id, outs: seq<HotSwap.Outcome>)
    requires p.maxCredNum >= 1 && History(w, p, a, outs) && op.Issue? && Legal(w, p, op)
    ensures History(Perform(w, p, op).0, p, NextActive(w, p, op, a), outs + [Perform(w, p, op).1])
  {
    var n := w.lists[a].value.nextIndex;
    if n <= p.maxCredNum && op.created && IsFull(p.maxCredNum, n) {
      SwapHistory(w, p, op, a, outs);
    } else {
      IssueTurns(w, p, op, a);
      TurningActive(w, p, a);
      OutcomeAdded(outs, Perform(w, p, op).1);
      if n <= p.maxCredNum {
        DrawTurns(w, p, a);
      }
    }
  }

  lemma DecommissionHistory(w: Wallet, p: Params, op: Op, a: Id, outs: seq<HotSwap.Outcome>)
    requires p.maxCredNum >= 1 && History(w, p, a, outs) && op.Decommission? && Legal(w, p, op)
    ensures History(Perform(w, p, op).0, p, op.newId, outs + [Perform(w, p, op).1])
  {
    DecommissionTurns(w, p, op, a);
    OutcomeAdded(outs, Perform(w, p, op).1);
  }

  lemma HistoryStep(w: Wallet, p: Params, op: Op, a: Id, outs: seq<HotSwap.Outcome>)
    requires p.maxCredNum >= 1 && History(w, p, a, outs) && Legal(w, p, op)
    ensures History(Perform(w, p, op).0, p, NextActive(w, p, op, a), outs + [Perform(w, p, op).1])
  {
    if op.Issue? {
      IssueHistory(w, p, op, a, outs);
    } else if op.Decommission? {
      DecommissionHistory(w, p, op, a, outs);
    } else {
      OtherOpsTurn(w, p, op, a);
      OutcomeAdded(outs, Perform(w, p, op).1);
    }
  }

  lemma {:induction false} HistoryAfter(w: Wallet, p: Params, ops: seq<Op>) returns (a: Id)
    requires p.maxCredNum >= 1 && Ready(w, p) && LegalRun(w, p, ops)
    ensures History(AfterOps(w, p, ops), p, a, Outcomes(w, p, ops))
    decreases |ops|
  {
    if ops == [] {
      a :| ReadyWith(w, p, a);
      ReadyTurns(w, p, a);
    } else {
      var init, last := ops[..|ops| - 1], ops[|ops| - 1];
      assert ops == init + [last];
      AfterOpsAppend(w, p, init, last);
      var a0 := HistoryAfter(w, p, init);
      HistoryStep(AfterOps(w, p, init), p, last, a0, Outcomes(w, p, init));
      a := NextActive(AfterOps(w, p, init), p, last, a0);
    }
  }

  /** Every index of the margin, up to the registry's size, has been drawn on `a` by an attempt that then failed. */
  ghost predicate MarginLost(p: Params, a: Id, outs: seq<HotSwap.Outcome>) {
    forall i :: Margin(p) <= i <= p.maxCredNum ==> Lost(a, i) in outs
  }

  /** After any run of issuances that may succeed or fail, marks, clears, publications and decommissions, from a ready
      rotation: an attempt to issue is refused exactly when attempts that failed have drawn every index of the active
      registry's margin, and then because the registry is full; every other attempt gets an index. */
  lemma StuckIffMarginLost(w: Wallet, p: Params, ops: seq<Op>, op: Op)
    requires p.maxCredNum >= 1 && Ready(w, p) && LegalRun(w, p, ops + [op]) && op.Issue?
    ensures var out := Perform(AfterOps(w, p, ops), p, op).1;
      && (out.Refused? <==> MarginLost(p, op.active, Outcomes(w, p, ops)))
      && (out.Refused? ==> out == Refused(RegistryFull))
      && (!out.Refused? ==> (out.Issued? || out.Lost?) && out.id == op.active && 1 <= out.index <= p.maxCredNum)
  {
    AfterOpsAppend(w, p, ops, op);
    var a := HistoryAfter(w, p, ops);
    var w' := AfterOps(w, p, ops);
    IssueTurns(w', p, op, a);
    TurningActive(w', p, a);
    if MarginLost(p, a, Outcomes(w, p, ops)) {
      assert Lost(a, p.maxCredNum) in Outcomes(w, p, ops);
    }
  }

  /** A rotation that is stuck stays stuck under everything but a decommission, which starts it again. */
  lemma OnlyDecommissionHelps(w: Wallet, p: Params, op: Op, a: Id)
    requires p.maxCredNum >= 1 && Turning(w, p, a) && UsedUp(w, p, a) && Legal(w, p, op)
    ensures var w' := Perform(w, p, op).0;
      exists a' :: Turning(w', p, a') && (UsedUp(w', p, a') <==> !op.Decommission?)
  {
    var w' := Perform(w, p, op).0;
    if op.Issue? {
      IssueTurns(w, p, op, a);
      assert Turning(w', p, a) && UsedUp(w', p, a);
    } else if op.Decommission? {
      DecommissionTurns(w, p, op, a);
      assert Turning(w', p, op.newId) && !UsedUp(w', p, op.newId);
    } else {
      OtherOpsTurn(w, p, op, a);
      assert Turning(w', p, a) && UsedUp(w', p, a);
    }
  }

  lemma SomeFailingIssue(w: Wallet, p: Params, a: Id) returns (op: Op)
    requires Turning(w, p, a)
    ensures op.Issue? && !op.created && Legal(w, p, op)
  {
    TurningActive(w, p, a);
    var spare := Member(Spares(w, p.credDef));
    var newId := SomeFreshName(w);
    op := Issue(a, spare, newId, false);
  }

  /** Failing on and on uses up the active registry, wherever the rotation is. */
  lemma {:induction false} FailuresUseUp(w: Wallet, p: Params, a: Id, left: nat) returns (ops: seq<Op>)
    requires p.maxCredNum >= 1 && Turning(w, p, a) && a in w.lists
    requires left == p.maxCredNum + 1 - w.lists[a].value.nextIndex
    ensures LegalRun(w, p, ops) && Turning(AfterOps(w, p, ops), p, a) && UsedUp(AfterOps(w, p, ops), p, a)
    decreases left
  {
    if left == 0 {
      ops := [];
    } else {
      var op := SomeFailingIssue(w, p, a);
      IssueTurns(w, p, op, a);
      DrawTurns(w, p, a);
      var w' := Perform(w, p, op).0;
      assert w' == DrawWrite(w, a, Drawn(w.lists[a])) by {
        TurningActive(w, p, a);
      }
      var rest := FailuresUseUp(w', p, a, left - 1);
      ops := [op] + rest;
      assert ops[1..] == rest;
    }
  }

  /** So every ready rotation has a legal run that gets it stuck. */
  lemma SomeRunSticks(w: Wallet, p: Params)
    requires p.maxCredNum >= 1 && Ready(w, p)
    ensures exists ops, a ::
      LegalRun(w, p, ops) && Turning(AfterOps(w, p, ops), p, a) && UsedUp(AfterOps(w, p, ops), p, a)
  {
    var a :| ReadyWith(w, p, a);
    ReadyTurns(w, p, a);
    TurningActive(w, p, a);
    var ops := FailuresUseUp(w, p, a, p.maxCredNum + 1 - w.lists[a].value.nextIndex);
  }

  /** When attempts may fail, publishing finds every bit it reads exactly when the lists are longer than the
      registry's size: the swap margin no longer keeps `next_index` down. */
  lemma ReadableIffLongerThanSize(w: Wallet, p: Params)
    requires p.maxCredNum >= 1 && Ready(w, p)
    ensures (forall ops, id, additional :: LegalRun(w, p, ops) ==> ReadableAfter(w, p, ops, id, additional))
            <==> p.length > p.maxCredNum
  {
    if p.length > p.maxCredNum {
      forall ops, id, additional | LegalRun(w, p, ops) ensures ReadableAfter(w, p, ops, id, additional) {
        var a := HistoryAfter(w, p, ops);
        var w' := AfterOps(w, p, ops);
        if Complete(w', id) && w'.defs[id].credDef == p.credDef {
          assert RegistryTurning(w', p, a, id);
        }
      }
    } else {
      var a :| ReadyWith(w, p, a);
      ReadyTurns(w, p, a);
      TurningActive(w, p, a);
      var ops := FailuresUseUp(w, p, a, p.maxCredNum + 1 - w.lists[a].value.nextIndex);
      LastIndexBeyond(AfterOps(w, p, ops), p, a);
      assert !ReadableAfter(w, p, ops, a, [p.maxCredNum]);
    }
  }

  lemma LastIndexBeyond(w: Wallet, p: Params, a: Id)
    requires p.maxCredNum >= 1 && p.length <= p.maxCredNum && Turning(w, p, a) && UsedUp(w, p, a)
    ensures Complete(w, a) && w.defs[a].credDef == p.credDef
    ensures !Readable(w.lists[a].value, w.defs[a].maxCredNum, [p.maxCredNum])
  {
    TurningActive(w, p, a);
    assert RegistryTurning(w, p, a, a);
    var v := w.lists[a].value;
    assert Requests(v, [p.maxCredNum])[|Pending(v)|] == p.maxCredNum;
    assert BeyondList(v, p.maxCredNum, p.maxCredNum);
  }
}
