/** The whole operations of the rotation are runs of the atomic steps: what is proved about every interleaved run
    holds of them, and the two descriptions agree (acapy_agent/anoncreds/revocation.py). */
module OperationRuns {
  import opened Prelude
  import opened RevocationWallet
  import opened Publishing
  import opened RevocationRuns
  import opened HotSwap

  lemma {:induction false} ContinueConcat(s: System, a: seq<Step>, b: seq<Step>)
    ensures Continue(s, a + b) == Continue(Continue(s, a), b)
  {
    if b == [] {
      assert a + b == a;
    } else {
      ContinueConcat(s, a, b[..|b| - 1]);
      assert (a + b)[..|a + b| - 1] == a + b[..|b| - 1];
    }
  }

  lemma OneStep(s: System, a: Step)
    ensures Continue(s, [a]) == Next(s, a)
  {
    ContinueAppend(s, [], a);
    assert [] + [a] == [a];
  }

  /** The steps change the wallet to `w` and the indices handed out to `issued`, and leave no task behind. */
  ghost predicate LeadsTo(s: System, steps: seq<Step>, w: Wallet, issued: seq<Alloc>) {
    var s' := Continue(s, steps);
    s'.w == w && s'.issued == issued && s'.tasks == s.tasks && s'.retired == s.retired
  }

  lemma LeadsOn(s: System, a: seq<Step>, w: Wallet, issued: seq<Alloc>, b: seq<Step>, w': Wallet, issued': seq<Alloc>)
    requires LeadsTo(s, a, w, issued) && LeadsTo(s.(w := w, issued := issued), b, w', issued')
    ensures LeadsTo(s, a + b, w', issued')
  {
    ContinueConcat(s, a, b);
    assert Continue(s, a) == s.(w := w, issued := issued);
  }

  function CreateSteps(p: Params, id: Id): seq<Step> {
    [StoreDefStep(id, p.credDef, p.maxCredNum, Finished), StoreListStep(id, p.length, 0, ListFinished)]
  }

  lemma Creates(s: System, p: Params, id: Id)
    ensures LeadsTo(s, CreateSteps(p, id), CreateRegistry(s.w, p, id), s.issued)
  {
    TwoSteps(s, CreateSteps(p, id)[0], CreateSteps(p, id)[1]);
  }

  lemma Activates(s: System, id: Id)
    ensures LeadsTo(s, [SetActiveStep(id)], SetActive(s.w, id), s.issued)
  {
    OneStep(s, SetActiveStep(id));
  }

  lemma MarksFull(s: System, id: Id)
    ensures LeadsTo(s, [MarkFullStep(id)], MarkFull(s.w, id), s.issued)
  {
    OneStep(s, MarkFullStep(id));
  }

  lemma Decommissions(s: System, credDef: Id, keep: Id)
    ensures LeadsTo(s, [DecommissionStep(credDef, keep)], DecommissionAll(s.w, credDef, keep), s.issued)
  {
    OneStep(s, DecommissionStep(credDef, keep));
  }

  lemma Draws(s: System, id: Id)
    requires s.tasks == map[] && Complete(s.w, id) && s.w.lists[id].value.nextIndex <= s.w.defs[id].maxCredNum
    ensures LeadsTo(s, [DrawRead(0, id, true), DrawReplace(0)], DrawWrite(s.w, id, Drawn(s.w.lists[id])),
                    s.issued + [Alloc(id, s.w.lists[id].value.nextIndex)])
  {
    TwoSteps(s, DrawRead(0, id, true), DrawReplace(0));
    var s1 := Next(s, DrawRead(0, id, true));
    assert s1.tasks == map[0 := Drawing(id, Drawn(s.w.lists[id]), s.w.defs[id].maxCredNum)] && s1.tasks - {0} == map[];
  }

  lemma Swaps(s: System, length: nat, full: Id, spare: Id, newId: Id) returns (steps: seq<Step>)
    requires full in s.w.defs
    ensures LeadsTo(s, steps, HandleFull(s.w, length, full, spare, newId), s.issued)
  {
    var p := Successor(s.w.defs[full], length);
    var w1 := SetActive(s.w, spare);
    var w2 := MarkFull(w1, full);
    Activates(s, spare);
    MarksFull(s.(w := w1), full);
    LeadsOn(s, [SetActiveStep(spare)], w1, s.issued, [MarkFullStep(full)], w2, s.issued);
    Creates(s.(w := w2), p, newId);
    steps := [SetActiveStep(spare)] + [MarkFullStep(full)];
    LeadsOn(s, steps, w2, s.issued, CreateSteps(p, newId), CreateRegistry(w2, p, newId), s.issued);
    steps := steps + CreateSteps(p, newId);
  }

  /** What an operation hands out, to a credential or to nobody: an issuance that is refused for want of a backup has
      drawn its index, too. */
  function HandedOut(w: Wallet, op: Op, out: HotSwap.Outcome): seq<Alloc> {
    if out.Issued? || out.Lost? then [Alloc(out.id, out.index)]
    else if op.Issue? && out == Refused(NoBackupRegistry) && op.active in w.lists
    then [Alloc(op.active, w.lists[op.active].value.nextIndex)]
    else []
  }

  lemma IssueIsRun(s: System, p: Params, op: Op) returns (steps: seq<Step>)
    requires s.tasks == map[] && op.Issue?
    ensures LeadsTo(s, steps, Perform(s.w, p, op).0, s.issued + HandedOut(s.w, op, Perform(s.w, p, op).1))
  {
    var (w', out) := Perform(s.w, p, op);
    if out.Refused? && out != Refused(NoBackupRegistry) {
      steps := [];
      assert s.issued + [] == s.issued;
    } else {
      var a := op.active;
      var w1, issued := DrawWrite(s.w, a, Drawn(s.w.lists[a])), s.issued + [Alloc(a, s.w.lists[a].value.nextIndex)];
      Draws(s, a);
      steps := [DrawRead(0, a, true), DrawReplace(0)];
      if out.Issued? && IsFull(s.w.defs[a].maxCredNum, out.index) {
        var rest := Swaps(s.(w := w1, issued := issued), p.length, a, op.spare, op.newId);
        LeadsOn(s, steps, w1, issued, rest, w', issued);
        steps := steps + rest;
      }
    }
  }

  lemma DecommissionIsRun(s: System, p: Params, op: Op) returns (steps: seq<Step>)
    requires op.Decommission?
    ensures LeadsTo(s, steps, Perform(s.w, p, op).0, s.issued)
  {
    if op.active !in ActiveRegistries(s.w, p.credDef) {
      steps := [];
    } else {
      var q := Successor(s.w.defs[op.active], p.length);
      var w1 := CreateRegistry(s.w, q, op.newId);
      var w2 := SetActive(w1, op.newId);
      var w3 := DecommissionAll(w2, q.credDef, op.newId);
      Creates(s, q, op.newId);
      steps := CreateSteps(q, op.newId);
      Activates(s.(w := w1), op.newId);
      LeadsOn(s, steps, w1, s.issued, [SetActiveStep(op.newId)], w2, s.issued);
      steps := steps + [SetActiveStep(op.newId)];
      Decommissions(s.(w := w2), q.credDef, op.newId);
      LeadsOn(s, steps, w2, s.issued, [DecommissionStep(q.credDef, op.newId)], w3, s.issued);
      steps := steps + [DecommissionStep(q.credDef, op.newId)];
      Creates(s.(w := w3), q, op.backup);
      LeadsOn(s, steps, w3, s.issued, CreateSteps(q, op.backup), CreateRegistry(w3, q, op.backup), s.issued);
      steps := steps + CreateSteps(q, op.backup);
    }
  }

  lemma RevokeIsRun(s: System, p: Params, op: Op) returns (steps: seq<Step>)
    requires s.tasks == map[] && op.Revoke? && Legal(s.w, p, op)
    ensures LeadsTo(s, steps, Perform(s.w, p, op).0, s.issued)
  {
    steps := [RevokeRead(0, op.id, op.additional, op.limit), RevokeCommit(0, op.stamp, op.order)];
    TwoSteps(s, steps[0], steps[1]);
    var s1 := Next(s, steps[0]);
    if 0 in s1.tasks {
      assert s1.tasks - {0} == map[] && Commits(s1, 0, op.order);
    }
  }

  /** From any state without tasks, every legal operation is a sequence of steps that leaves the same wallet and hands
      out the same index, and no task behind. */
  lemma OperationIsRun(s: System, p: Params, op: Op) returns (steps: seq<Step>)
    requires s.tasks == map[] && Legal(s.w, p, op)
    ensures LeadsTo(s, steps, Perform(s.w, p, op).0, s.issued + HandedOut(s.w, op, Perform(s.w, p, op).1))
  {
    assert s.issued + [] == s.issued;
    match op
    case Issue(_, _, _, _) => steps := IssueIsRun(s, p, op);
    case Decommission(_, _, _) => steps := DecommissionIsRun(s, p, op);
    case Revoke(_, _, _, _, _) => steps := RevokeIsRun(s, p, op);
    case Mark(id, crids) =>
      steps := [MarkPendingStep(id, crids)];
      OneStep(s, steps[0]);
    case Clear(id) =>
      steps := [ClearPendingStep(id)];
      OneStep(s, steps[0]);
  }

  /** So every run of operations is a run of steps. */
  lemma {:induction false} OperationsAreRun(s: System, p: Params, ops: seq<Op>) returns (steps: seq<Step>, issued: seq<Alloc>)
    requires s.tasks == map[] && LegalRun(s.w, p, ops)
    ensures LeadsTo(s, steps, AfterOps(s.w, p, ops), issued) && s.issued <= issued
    decreases |ops|
  {
    if ops == [] {
      steps, issued := [], s.issued;
    } else {
      var (w', out) := Perform(s.w, p, ops[0]);
      var issued' := s.issued + HandedOut(s.w, ops[0], out);
      steps := OperationIsRun(s, p, ops[0]);
      var rest;
      rest, issued := OperationsAreRun(s.(w := w', issued := issued'), p, ops[1..]);
      LeadsOn(s, steps, w', issued', rest, AfterOps(s.w, p, ops), issued);
      steps := steps + rest;
    }
  }
}
