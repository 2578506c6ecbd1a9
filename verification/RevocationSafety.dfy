/** Safety of whole interleaved runs: when revocation is permanent and of what, that the `pending` tag is an exact
    index, that at most one registry is active, and when spent registries stay spent. */
module RevocationSafety {
  import opened Prelude
  import opened RevocationWallet
  import opened Publishing
  import opened RevocationRuns

  // ---- Publishing is linearizable ----

  /** In every reachable state, a commit that changes the wallet is the pure publication of the record as it stands
      then: seen from the current record and the registry's current size, exactly the ids revoked get their bits,
      each of them issued, in range and unrevoked until then; nothing else in the wallet changes. */
  lemma CommitIsLinearizable(run: seq<Step>, step: Step)
    requires Everywhere(NamesNew, run) && step.RevokeCommit? && Next(After(run), step).w != After(run).w
    ensures var s := After(run);
      && step.task in s.tasks && s.tasks[step.task].Revoking?
      && var r := s.tasks[step.task];
      && r.id in s.w.lists && r.id in Next(s, step).w.lists
      && var e, e' := s.w.lists[r.id], Next(s, step).w.lists[r.id];
      && e' == Publish(e, r.max, r.additional, r.limit, step.stamp, step.order)
      && Next(s, step).w == s.w.(lists := s.w.lists[r.id := e'])
      && |e'.value.bits| == |e.value.bits|
      && (forall i :: 0 <= i < |e.value.bits| ==>
            (e'.value.bits[i] != e.value.bits[i] <==> i in Revoked(e.value, r.max, r.additional, r.limit)))
      && (r.id in s.w.defs ==> forall i :: i in Revoked(e.value, r.max, r.additional, r.limit) ==>
            1 <= i <= s.w.defs[r.id].maxCredNum && i < e.value.nextIndex && i < |e.value.bits| && !e.value.bits[i])
      && e'.value.nextIndex == e.value.nextIndex && e'.state == e.state && e'.value.stamp == step.stamp
      && e'.value.pending == (if step.order == [] then None else Some(step.order))
      && e'.pendingTag == (step.order != [])
  {
    IndexRange(run);
    var r := After(run).tasks[step.task];
    PublishConserves(After(run).w.lists[r.id], r.max, r.additional, r.limit, step.stamp, step.order);
    EnumeratesNothing(step.order, Skipped(After(run).w.lists[r.id].value, r.max, r.additional, r.limit));
  }

  // ---- Permanence of revocation ----

  /** No bit set in `v` is clear in `v'`. */
  ghost predicate Keeps(v: ListValue, v': ListValue) {
    |v.bits| == |v'.bits| && forall i :: 0 <= i < |v.bits| && v.bits[i] ==> v'.bits[i]
  }

  ghost predicate StepKeepsRevocations(s: System, step: Step) {
    forall id :: id in s.w.lists && id in Next(s, step).w.lists ==>
      Keeps(s.w.lists[id].value, Next(s, step).w.lists[id].value)
  }

  /** A blind replace, of an issuance or of a status update, finds the revocation bits as its task read them. */
  ghost predicate BitsKept(s: System, step: Step) {
    Overwrites(s, step) ==>
      s.w.lists[s.tasks[step.task].id].value.bits == s.tasks[step.task].snap.value.bits
  }

  /** What waiting tasks read is never ahead of what is stored. */
  ghost predicate BitsInv(s: System) {
    && NamesInv(s)
    && (forall t :: t in s.tasks && !s.tasks[t].Revoking? && s.tasks[t].id in s.w.lists ==>
          Keeps(s.tasks[t].snap.value, s.w.lists[s.tasks[t].id].value))
  }

  lemma BitsKeptStep(s: System, step: Step)
    requires BitsKept(s, step)
    ensures StepKeepsRevocations(s, step)
  {
    var s' := Next(s, step);
    if step.RevokeCommit? && s' != s && Commits(s, step.task, step.order) {
      var r := s.tasks[step.task];
      PublishConserves(s.w.lists[r.id], r.max, r.additional, r.limit, step.stamp, step.order);
    }
  }

  lemma BitsInvStep(s: System, step: Step)
    requires BitsInv(s) && StepKeepsRevocations(s, step) && NamesNew(s, step)
    ensures BitsInv(Next(s, step))
  {
    NamesStep(s, step);
    StepGrows(s, step);
    var s' := Next(s, step);
    forall t | t in s'.tasks && !s'.tasks[t].Revoking? && s'.tasks[t].id in s'.w.lists
      ensures Keeps(s'.tasks[t].snap.value, s'.w.lists[s'.tasks[t].id].value)
    {
      if t in s.tasks {
        assert s.tasks[t] == s'.tasks[t];
        assert Keeps(s.w.lists[s.tasks[t].id].value, s'.w.lists[s.tasks[t].id].value);
      }
    }
  }

  lemma KeepingStepFindsBits(s: System, step: Step)
    requires BitsInv(s) && StepKeepsRevocations(s, step)
    ensures BitsKept(s, step)
  {
    if Overwrites(s, step) {
      var d := s.tasks[step.task];
      var stored := s.w.lists[d.id].value;
      assert Keeps(d.snap.value, stored);
      assert Keeps(stored, Next(s, step).w.lists[d.id].value);
      assert stored.bits == d.snap.value.bits;
    }
  }

  /** Whatever names are given, a run whose replaces all find the bits as they were read never clears one. */
  lemma {:induction false} BitsKeptSuffices(run: seq<Step>)
    requires Everywhere(BitsKept, run)
    ensures Everywhere(StepKeepsRevocations, run)
  {
    if run != [] {
      BitsKeptSuffices(run[..|run| - 1]);
      BitsKeptStep(After(run[..|run| - 1]), run[|run| - 1]);
    }
  }

  lemma {:induction false} BitsKeptInvariant(run: seq<Step>)
    requires Everywhere(NamesNew, run) && Everywhere(BitsKept, run)
    ensures BitsInv(After(run))
  {
    if run != [] {
      var init, last := run[..|run| - 1], run[|run| - 1];
      BitsKeptInvariant(init);
      BitsKeptStep(After(init), last);
      BitsInvStep(After(init), last);
    }
  }

  /** A run never clears a revocation bit exactly when every blind replace finds the bits as they were read. */
  lemma {:induction false} PermanentIffBitsKept(run: seq<Step>)
    requires Everywhere(NamesNew, run)
    ensures Everywhere(StepKeepsRevocations, run) <==> Everywhere(BitsKept, run)
  {
    if run != [] {
      var init, last := run[..|run| - 1], run[|run| - 1];
      PermanentIffBitsKept(init);
      if Everywhere(BitsKept, init) {
        BitsKeptInvariant(init);
        if BitsKept(After(init), last) {
          BitsKeptStep(After(init), last);
        }
        if StepKeepsRevocations(After(init), last) {
          KeepingStepFindsBits(After(init), last);
        }
      }
    }
  }

  /** Once revoked in such a run, a credential is revoked at every later point. */
  lemma {:induction false} RevokedForever(run: seq<Step>, m: nat, id: Id, i: nat)
    requires Everywhere(NamesNew, run) && Everywhere(BitsKept, run) && m <= |run|
    requires id in After(run[..m]).w.lists && id in After(run).w.lists
    requires i < |After(run[..m]).w.lists[id].value.bits| && After(run[..m]).w.lists[id].value.bits[i]
    ensures i < |After(run).w.lists[id].value.bits| && After(run).w.lists[id].value.bits[i]
  {
    if m == |run| {
      assert run[..m] == run;
    } else {
      var init, last := run[..|run| - 1], run[|run| - 1];
      ListThroughout(run, m, id);
      RevokedForever(init, m, id, i);
      BitsKeptStep(After(init), last);
    }
  }

  // ---- Only issued credentials are revoked ----

  /** Every revoked index has been passed by `next_index`. */
  ghost predicate OnlyIssued(v: ListValue) {
    forall i :: 0 <= i < |v.bits| && v.bits[i] ==> 1 <= i < v.nextIndex
  }

  ghost predicate IssuedInv(s: System) {
    && (forall id :: id in s.w.lists ==> s.w.lists[id].value.nextIndex >= 1 && OnlyIssued(s.w.lists[id].value))
    && (forall t :: t in s.tasks && !s.tasks[t].Revoking? ==>
          s.tasks[t].snap.value.nextIndex >= 1 && OnlyIssued(s.tasks[t].snap.value))
  }

  lemma CommitIssued(s: System, step: Step)
    requires IssuedInv(s) && step.RevokeCommit? && Commits(s, step.task, step.order)
    ensures IssuedInv(Next(s, step))
  {
    var r := s.tasks[step.task];
    PublishConserves(s.w.lists[r.id], r.max, r.additional, r.limit, step.stamp, step.order);
  }

  lemma WalletStepIssued(s: System, step: Step)
    requires IssuedInv(s) && IsWalletStep(step)
    ensures IssuedInv(Next(s, step))
  {
  }

  lemma TaskStepIssued(s: System, step: Step)
    requires IssuedInv(s) && !IsWalletStep(step)
    ensures IssuedInv(Next(s, step))
  {
    if step.RevokeCommit? && Commits(s, step.task, step.order) {
      CommitIssued(s, step);
    }
  }

  lemma IssuedStep(s: System, step: Step)
    requires IssuedInv(s)
    ensures IssuedInv(Next(s, step))
  {
    if IsWalletStep(step) {
      WalletStepIssued(s, step);
    } else {
      TaskStepIssued(s, step);
    }
  }

  /** In every interleaved run, whatever the interleaving and whatever is lost, only issued indices are revoked: a
      stale record that is written back carries its own, smaller `next_index`, but no bit beyond it. */
  lemma {:induction false} OnlyIssuedAreRevoked(run: seq<Step>)
    ensures forall id :: id in After(run).w.lists ==> OnlyIssued(After(run).w.lists[id].value)
    ensures IssuedInv(After(run))
  {
    if run != [] {
      OnlyIssuedAreRevoked(run[..|run| - 1]);
      IssuedStep(After(run[..|run| - 1]), run[|run| - 1]);
    }
  }

  /** No revoked index exceeds `max`. */
  ghost predicate Within(v: ListValue, max: int) {
    forall i :: 0 <= i < |v.bits| && v.bits[i] ==> i <= max
  }

  /** Every list stays within the size of the definition of the same name, if there is one. */
  ghost predicate WithinSize(s: System) {
    forall id :: id in s.w.lists && id in s.w.defs ==> Within(s.w.lists[id].value, s.w.defs[id].maxCredNum)
  }

  /** When a step brings a list and a definition together under one name, the list fits the definition; a status
      update does so with the list that it fetched. */
  ghost predicate Fits(s: System, step: Step) {
    match step
    case StoreDefStep(id, _, max, _) =>
      id !in s.w.defs && id !in s.w.keys && id in s.w.lists ==> Within(s.w.lists[id].value, max)
    case FinishDefStep(job, id) =>
      MovesDef(s.w, job, id) && id in s.w.lists ==> Within(s.w.lists[id].value, s.w.defs[job].maxCredNum)
    case FinishListStep(job, id) =>
      MovesList(s.w, job, id) && id in s.w.defs ==> Within(s.w.lists[job].value, s.w.defs[id].maxCredNum)
    case StatusReplace(t, _) =>
      WritesStatus(s, t) && s.tasks[t].id in s.w.defs ==>
        Within(s.tasks[t].snap.value, s.w.defs[s.tasks[t].id].maxCredNum)
    case _ => true
  }

  ghost predicate SizeInv(s: System) {
    && NamesInv(s)
    && WithinSize(s)
    && (forall t :: t in s.tasks && s.tasks[t].Drawing? ==> Within(s.tasks[t].snap.value, s.tasks[t].max))
  }

  lemma CommitWithin(s: System, step: Step)
    requires SizeInv(s) && step.RevokeCommit? && Commits(s, step.task, step.order) && NamesNew(s, step)
    ensures SizeInv(Next(s, step))
  {
    NamesStep(s, step);
    var r := s.tasks[step.task];
    PublishConserves(s.w.lists[r.id], r.max, r.additional, r.limit, step.stamp, step.order);
  }

  lemma WalletStepWithin(s: System, step: Step)
    requires SizeInv(s) && IsWalletStep(step)
    ensures WithinSize(Next(s, step)) <==> Fits(s, step)
  {
    var w' := Next(s, step).w;
    if step.StoreDefStep? && !Fits(s, step) {
      assert step.id in w'.defs && step.id in w'.lists;
    } else if step.FinishDefStep? && !Fits(s, step) {
      assert step.id in w'.defs && step.id in w'.lists;
    } else if step.FinishListStep? && !Fits(s, step) {
      assert step.id in w'.defs && step.id in w'.lists;
    }
  }

  lemma StatusWithin(s: System, step: Step)
    requires SizeInv(s) && step.StatusReplace? && NamesNew(s, step)
    ensures WithinSize(Next(s, step)) <==> Fits(s, step)
    ensures Fits(s, step) ==> SizeInv(Next(s, step))
  {
    NamesStep(s, step);
    if WritesStatus(s, step.task) {
      var id := s.tasks[step.task].id;
      assert id in Next(s, step).w.lists && Next(s, step).w.lists[id].value == s.tasks[step.task].snap.value;
    }
  }

  lemma TaskStepWithin(s: System, step: Step)
    requires SizeInv(s) && !IsWalletStep(step) && !step.StatusReplace? && NamesNew(s, step)
    ensures SizeInv(Next(s, step))
  {
    NamesStep(s, step);
    if step.RevokeCommit? && Commits(s, step.task, step.order) {
      CommitWithin(s, step);
    }
  }

  lemma SizeStep(s: System, step: Step)
    requires SizeInv(s) && NamesNew(s, step)
    ensures WithinSize(Next(s, step)) <==> Fits(s, step)
    ensures Fits(s, step) ==> SizeInv(Next(s, step))
  {
    NamesStep(s, step);
    if IsWalletStep(step) {
      WalletStepWithin(s, step);
    } else if step.StatusReplace? {
      StatusWithin(s, step);
    } else {
      TaskStepWithin(s, step);
    }
  }

  /** The state after a step is within its sizes. */
  ghost predicate StaysWithin(s: System, step: Step) {
    WithinSize(Next(s, step))
  }

  lemma {:induction false} SizeInvariant(run: seq<Step>)
    requires Everywhere(NamesNew, run) && Everywhere(Fits, run)
    ensures SizeInv(After(run))
  {
    if run != [] {
      SizeInvariant(run[..|run| - 1]);
      SizeStep(After(run[..|run| - 1]), run[|run| - 1]);
    }
  }

  /** Throughout a run no revoked index exceeds its registry's `max_cred_num`, exactly when every list and
      definition that come together under one name fit each other then. */
  lemma {:induction false} WithinSizeIffFits(run: seq<Step>)
    requires Everywhere(NamesNew, run)
    ensures Everywhere(StaysWithin, run) <==> Everywhere(Fits, run)
  {
    if run != [] {
      var init, last := run[..|run| - 1], run[|run| - 1];
      WithinSizeIffFits(init);
      if Everywhere(Fits, init) {
        SizeInvariant(init);
        SizeStep(After(init), last);
      }
    }
  }

  /** A list still waiting for its registration has issued nothing. */
  ghost predicate WaitingListUnused(s: System, step: Step) {
    step.FinishListStep? && step.job in s.w.lists ==> s.w.lists[step.job].value.nextIndex == 1
  }

  ghost predicate Unrevoked(v: ListValue) {
    forall i :: 0 <= i < |v.bits| ==> !v.bits[i]
  }

  /** A list with a revoked index, stored or fetched for a status update, belongs to a definition that has been there;
      a fetched one fits it as long as it is there. */
  ghost predicate RevokedSettled(s: System) {
    && SizeInv(s) && IssuedInv(s)
    && ListsSettled(s)
    && (forall t :: t in s.tasks && s.tasks[t].Updating? ==> FetchSettled(s, s.tasks[t]))
  }

  ghost predicate ListsSettled(s: System) {
    forall id :: id in s.w.lists && !Unrevoked(s.w.lists[id].value) ==> Settled(s.w.defs.Keys, s.retired, id)
  }

  ghost predicate FetchSettled(s: System, k: Task)
    requires k.Updating?
  {
    && (!Unrevoked(k.snap.value) ==> Settled(s.w.defs.Keys, s.retired, k.id))
    && (k.id in s.w.defs ==> Within(k.snap.value, s.w.defs[k.id].maxCredNum))
  }

  lemma UnissuedUnrevoked(v: ListValue)
    requires OnlyIssued(v) && v.nextIndex == 1
    ensures Unrevoked(v)
  {
  }

  lemma SettledStepFits(s: System, step: Step)
    requires RevokedSettled(s) && NamesNew(s, step) && WaitingListUnused(s, step)
    ensures Fits(s, step)
  {
    if step.FinishListStep? && step.job in s.w.lists {
      UnissuedUnrevoked(s.w.lists[step.job].value);
    } else if step.StoreDefStep? || step.FinishDefStep? {
      assert step.id in s.w.lists && !Unrevoked(s.w.lists[step.id].value) ==>
             Settled(s.w.defs.Keys, s.retired, step.id);
    } else if step.StatusReplace? && WritesStatus(s, step.task) {
      assert FetchSettled(s, s.tasks[step.task]);
    }
  }

  lemma WalletStepSettled(s: System, step: Step)
    requires RevokedSettled(s) && Grows(s, Next(s, step)) && IsWalletStep(step) && WaitingListUnused(s, step)
    ensures ListsSettled(Next(s, step))
  {
    if step.FinishListStep? && step.job in s.w.lists {
      UnissuedUnrevoked(s.w.lists[step.job].value);
    }
  }

  lemma TaskStepSettled(s: System, step: Step)
    requires RevokedSettled(s) && !IsWalletStep(step)
    ensures ListsSettled(Next(s, step))
  {
    if step.StatusReplace? && WritesStatus(s, step.task) {
      assert FetchSettled(s, s.tasks[step.task]);
    }
  }

  lemma FetchStaysSettled(s: System, step: Step, k: Task)
    requires k.Updating? && FetchSettled(s, k) && NamesNew(s, step) && Grows(s, Next(s, step))
    ensures FetchSettled(Next(s, step), k)
  {
  }

  lemma FetchesSettled(s: System, step: Step)
    requires RevokedSettled(s) && NamesNew(s, step) && Grows(s, Next(s, step))
    ensures forall t :: t in Next(s, step).tasks && Next(s, step).tasks[t].Updating? ==>
      FetchSettled(Next(s, step), Next(s, step).tasks[t])
  {
    var s' := Next(s, step);
    forall t | t in s'.tasks && s'.tasks[t].Updating? ensures FetchSettled(s', s'.tasks[t]) {
      if t in s.tasks {
        assert s.tasks[t] == s'.tasks[t];
        FetchStaysSettled(s, step, s.tasks[t]);
      } else {
        assert s'.w == s.w && s'.retired == s.retired;
      }
    }
  }

  lemma RevokedSettledStep(s: System, step: Step)
    requires RevokedSettled(s) && NamesNew(s, step) && WaitingListUnused(s, step)
    ensures RevokedSettled(Next(s, step)) && Fits(s, step)
  {
    StepGrows(s, step);
    IssuedStep(s, step);
    SettledStepFits(s, step);
    SizeStep(s, step);
    FetchesSettled(s, step);
    if IsWalletStep(step) {
      WalletStepSettled(s, step);
    } else {
      TaskStepSettled(s, step);
    }
  }

  /** In particular, when no list issues before it is registered. */
  lemma {:induction false} WithinSizeIfWaitingUnused(run: seq<Step>)
    requires Everywhere(NamesNew, run) && Everywhere(WaitingListUnused, run)
    ensures Everywhere(Fits, run) && Everywhere(StaysWithin, run) && RevokedSettled(After(run))
  {
    if run != [] {
      WithinSizeIfWaitingUnused(run[..|run| - 1]);
      RevokedSettledStep(After(run[..|run| - 1]), run[|run| - 1]);
    }
    WithinSizeIffFits(run);
  }

  /** Credential 1 of registry "r" is issued, nothing is revoked or pending, and no task is under way. */
  ghost predicate FirstIssuedState(s: System) {
    && s.tasks == map[] && s.retired == {}
    && s.w.defs.Keys == {"r"} && s.w.keys == {"r"} && s.w.lists.Keys == {"r"}
    && s.w.defs["r"].maxCredNum == 4
    && s.w.lists["r"].state == ListFinished
    && s.w.lists["r"].value == NewList(5, 0, ListFinished).value.(nextIndex := 2)
  }

  lemma FirstIssued() returns (run: seq<Step>)
    ensures Everywhere(NamesNew, run) && FirstIssuedState(After(run))
  {
    run := RegistrySetUp(4, 5);
    DrawsOnce(After(run), 0, "r");
    PairAppended(run, DrawRead(0, "r", true), DrawReplace(0));
    run := run + [DrawRead(0, "r", true), DrawReplace(0)];
  }

  lemma FirstIssuedRevocable(s: System)
    requires FirstIssuedState(s)
    ensures Revocable(s.w.lists["r"].value, 4, 1) && Readable(s.w.lists["r"].value, 4, [1])
  {
  }

  /** Wherever an issuance is about to allocate, a publication that commits between its read and its replace
      is undone by the replace. */
  lemma DrawUndoesRevocation(s: System, t: nat, u: nat, id: Id, i: int)
    requires t != u && t !in s.tasks && u !in s.tasks && Complete(s.w, id)
    requires s.w.lists[id].value.nextIndex <= s.w.defs[id].maxCredNum && s.w.lists[id].state != ListFailed
    requires Revocable(s.w.lists[id].value, s.w.defs[id].maxCredNum, i)
    requires Readable(s.w.lists[id].value, s.w.defs[id].maxCredNum, [i])
    ensures var s1 := Next(Next(s, DrawRead(t, id, true)), RevokeRead(u, id, [i], None));
            var s2 := Next(s1, RevokeCommit(u, 0, []));
            !StepKeepsRevocations(s2, DrawReplace(t))
  {
    var e, max := s.w.lists[id], s.w.defs[id].maxCredNum;
    assert Requests(e.value, [i])[|Pending(e.value)|] == i;
    assert i in Eligible(e.value, max, [i]);
    var s0 := Next(s, DrawRead(t, id, true));
    assert s0 == s.(tasks := s.tasks[t := Drawing(id, e, max)]);
    var s1 := Next(s0, RevokeRead(u, id, [i], None));
    assert s1 == s.(tasks := s.tasks[t := Drawing(id, e, max)][u := Revoking(id, e.value, max, [i], None)]);
    CommitBetween(s1, t, u, id, max, i);
    StaleWriteClears(Next(s1, RevokeCommit(u, 0, [])), DrawReplace(t), i);
  }

  /** A commit after some task has read the record, and before it replaces it. */
  lemma CommitBetween(s: System, t: nat, u: nat, id: Id, max: int, i: int)
    requires t != u && t in s.tasks && u in s.tasks && id in s.w.lists
    requires var e := s.w.lists[id];
      && !s.tasks[t].Revoking? && s.tasks[t].id == id && s.tasks[t].snap == e
      && s.tasks[u] == Revoking(id, e.value, max, [i], None)
      && i in Eligible(e.value, max, [i])
    ensures var s' := Next(s, RevokeCommit(u, 0, []));
      && t in s'.tasks && s'.tasks[t] == s.tasks[t] && id in s'.w.lists
      && i < |s'.w.lists[id].value.bits| && s'.w.lists[id].value.bits[i]
      && i < |s.tasks[t].snap.value.bits| && !s.tasks[t].snap.value.bits[i]
  {
    assert Commits(s, u, []);
  }

  lemma StaleWriteClears(s: System, step: Step, i: nat)
    requires Overwrites(s, step)
    requires var k := s.tasks[step.task]; var v := s.w.lists[k.id].value;
      i < |v.bits| && v.bits[i] && i < |k.snap.value.bits| && !k.snap.value.bits[i]
    ensures !StepKeepsRevocations(s, step)
  {
    var id := s.tasks[step.task].id;
    assert Next(s, step).w.lists[id].value.bits == s.tasks[step.task].snap.value.bits;
    assert !Keeps(s.w.lists[id].value, Next(s, step).w.lists[id].value);
  }

  /** A publication that commits between the fetch and the replace of a status update is undone as well, without any
      issuance taking part. */
  lemma StatusUndoesRevocation(s: System, t: nat, u: nat, id: Id, i: int, state: ListState)
    requires t != u && t !in s.tasks && u !in s.tasks && Complete(s.w, id)
    requires Revocable(s.w.lists[id].value, s.w.defs[id].maxCredNum, i)
    requires Readable(s.w.lists[id].value, s.w.defs[id].maxCredNum, [i])
    ensures var s1 := Next(Next(s, StatusFetch(t, id)), RevokeRead(u, id, [i], None));
            var s2 := Next(s1, RevokeCommit(u, 0, []));
            !StepKeepsRevocations(s2, StatusReplace(t, state))
  {
    var e, max := s.w.lists[id], s.w.defs[id].maxCredNum;
    assert Requests(e.value, [i])[|Pending(e.value)|] == i;
    assert i in Eligible(e.value, max, [i]);
    var s0 := Next(s, StatusFetch(t, id));
    assert s0 == s.(tasks := s.tasks[t := Updating(id, e)]);
    var s1 := Next(s0, RevokeRead(u, id, [i], None));
    assert s1 == s.(tasks := s.tasks[t := Updating(id, e)][u := Revoking(id, e.value, max, [i], None)]);
    CommitBetween(s1, t, u, id, max, i);
    StaleWriteClears(Next(s1, RevokeCommit(u, 0, [])), StatusReplace(t, state), i);
  }

  /** Some run from the empty wallet ends with a status update that clears a revocation bit. */
  lemma SomeStatusUndoesRevocation()
    ensures exists run, t, state :: Everywhere(NamesNew, run) && !StepKeepsRevocations(After(run), StatusReplace(t, state))
  {
    var run := FirstIssued();
    FirstIssuedRevocable(After(run));
    StatusUndoesAfter(run, "r", 1);
  }

  lemma StatusUndoesAfter(run: seq<Step>, id: Id, i: int)
    requires Everywhere(NamesNew, run) && After(run).tasks == map[] && Complete(After(run).w, id)
    requires var e, max := After(run).w.lists[id], After(run).w.defs[id].maxCredNum;
      Revocable(e.value, max, i) && Readable(e.value, max, [i])
    ensures exists run', t, state :: Everywhere(NamesNew, run') && !StepKeepsRevocations(After(run'), StatusReplace(t, state))
  {
    var steps := StatusUndoingSteps(After(run), id, i);
    TaskStepsNameNothing(After(run), steps);
    Continued(NamesNew, run, steps);
  }

  lemma StatusUndoingSteps(s: System, id: Id, i: int) returns (steps: seq<Step>)
    requires s.tasks == map[] && Complete(s.w, id)
    requires var e, max := s.w.lists[id], s.w.defs[id].maxCredNum;
      Revocable(e.value, max, i) && Readable(e.value, max, [i])
    ensures forall n :: 0 <= n < |steps| ==> !IsWalletStep(steps[n])
    ensures !StepKeepsRevocations(Continue(s, steps), StatusReplace(1, ListFinished))
  {
    StatusUndoesRevocation(s, 1, 2, id, i, ListFinished);
    steps := [StatusFetch(1, id), RevokeRead(2, id, [i], None), RevokeCommit(2, 0, [])];
    ThreeSteps(s, steps[0], steps[1], steps[2]);
  }

  /** So permanence needs its hypothesis: some run from the empty wallet clears a revocation bit. */
  lemma SomeRunUndoesRevocation()
    ensures exists run :: Everywhere(NamesNew, run) && !Everywhere(StepKeepsRevocations, run)
  {
    var run := FirstIssued();
    FirstIssuedRevocable(After(run));
    UndoAfter(run, "r", 1);
  }

  lemma UndoAfter(run: seq<Step>, id: Id, i: int)
    requires Everywhere(NamesNew, run) && After(run).tasks == map[] && Complete(After(run).w, id)
    requires var e, max := After(run).w.lists[id], After(run).w.defs[id].maxCredNum;
      e.value.nextIndex <= max && e.state != ListFailed && Revocable(e.value, max, i) && Readable(e.value, max, [i])
    ensures exists run' :: Everywhere(NamesNew, run') && !Everywhere(StepKeepsRevocations, run')
  {
    var steps := UndoingSteps(After(run), id, i);
    TaskStepsNameNothing(After(run), steps);
    Continued(NamesNew, run, steps);
    Continued(NamesNew, run, steps[..3]);
    BrokenAtLast(StepKeepsRevocations, run, steps);
  }

  lemma UndoingSteps(s: System, id: Id, i: int) returns (steps: seq<Step>)
    requires s.tasks == map[] && Complete(s.w, id)
    requires var e, max := s.w.lists[id], s.w.defs[id].maxCredNum;
      e.value.nextIndex <= max && e.state != ListFailed && Revocable(e.value, max, i) && Readable(e.value, max, [i])
    ensures forall n :: 0 <= n < |steps| ==> !IsWalletStep(steps[n])
    ensures |steps| == 4 && !StepKeepsRevocations(Continue(s, steps[..3]), steps[3])
  {
    DrawUndoesRevocation(s, 1, 2, id, i);
    steps := [DrawRead(1, id, true), RevokeRead(2, id, [i], None), RevokeCommit(2, 0, []), DrawReplace(1)];
    ThreeSteps(s, steps[0], steps[1], steps[2]);
    assert steps[..3] == [steps[0], steps[1], steps[2]];
  }

  lemma BrokenAtLast(p: (System, Step) -> bool, run: seq<Step>, steps: seq<Step>)
    requires steps != [] && !p(After(run + steps[..|steps| - 1]), steps[|steps| - 1])
    ensures !Everywhere(p, run + steps)
  {
    assert (run + steps)[..|run + steps| - 1] == run + steps[..|steps| - 1];
  }

  // ---- Lists that do not fit ----

  lemma PublishesOne(s: System, id: Id, i: int)
    requires s.tasks == map[] && Complete(s.w, id)
    requires Revocable(s.w.lists[id].value, s.w.defs[id].maxCredNum, i)
    requires Readable(s.w.lists[id].value, s.w.defs[id].maxCredNum, [i])
    ensures var s' := Next(Next(s, RevokeRead(0, id, [i], None)), RevokeCommit(0, 0, []));
      && s'.tasks == map[] && s'.w.defs == s.w.defs && s'.w.keys == s.w.keys && s'.retired == s.retired
      && s'.w.lists.Keys == s.w.lists.Keys
      && i < |s'.w.lists[id].value.bits| && s'.w.lists[id].value.bits[i]
  {
    var e, max := s.w.lists[id], s.w.defs[id].maxCredNum;
    assert Requests(e.value, [i])[|Pending(e.value)|] == i;
    assert i in Eligible(e.value, max, [i]);
    var s1 := Next(s, RevokeRead(0, id, [i], None));
    assert s1.tasks == map[0 := Revoking(id, e.value, max, [i], None)] && s1.tasks - {0} == map[];
    assert Commits(s1, 0, []);
  }

  /** Credential 2 of registry "r", the only one, is revoked. */
  ghost predicate SecondRevokedState(s: System) {
    && s.retired == {} && s.w.defs.Keys == {"r"} && s.w.keys == {"r"} && s.w.lists.Keys == {"r"}
    && !Within(s.w.lists["r"].value, 1)
  }

  lemma SecondRevoked() returns (run: seq<Step>)
    ensures Everywhere(NamesNew, run) && SecondRevokedState(After(run))
  {
    run := FirstIssued();
    DrawsOnce(After(run), 0, "r");
    PairAppended(run, DrawRead(0, "r", true), DrawReplace(0));
    run := run + [DrawRead(0, "r", true), DrawReplace(0)];
    PublishesOne(After(run), "r", 2);
    PairAppended(run, RevokeRead(0, "r", [2], None), RevokeCommit(0, 0, []));
    run := run + [RevokeRead(0, "r", [2], None), RevokeCommit(0, 0, [])];
  }

  ghost predicate ExceedsSize(s: System) {
    !WithinSize(s)
  }

  lemma SmallerDefinition(s: System)
    requires SecondRevokedState(s)
    ensures NamesNew(s, StoreDefStep("q", "c", 1, Finished))
    ensures var s1 := Next(s, StoreDefStep("q", "c", 1, Finished));
      NamesNew(s1, FinishListStep("r", "q")) && ExceedsSize(Next(s1, FinishListStep("r", "q")))
  {
    var s1 := Next(s, StoreDefStep("q", "c", 1, Finished));
    var s2 := Next(s1, FinishListStep("r", "q"));
    assert s2.w.lists["q"].value == s.w.lists["r"].value && s2.w.defs["q"].maxCredNum == 1;
  }

  /** The size needs its hypothesis: a list that has issued and revoked before its registration is finished can end
      up beside a smaller definition, even when every name is new. */
  lemma SomeRunExceedsSize()
    ensures exists run :: Everywhere(NamesNew, run) && ExceedsSize(After(run))
  {
    var run := SecondRevoked();
    SmallerDefinition(After(run));
    Reached(NamesNew, ExceedsSize, run, StoreDefStep("q", "c", 1, Finished), FinishListStep("r", "q"));
  }

  // ---- What is pending ----

  /** What a step makes of the requests pending on `id`, and on the job that it may get its list from: a mark adds
      to them, a clear drops them, and a publication leaves what it skipped. */
  function Requested(s: System, step: Step, id: Id, own: seq<int>, job: seq<int>): seq<int> {
    if step.MarkPendingStep? && step.id == id && id in s.w.lists then own + step.crids
    else if step.ClearPendingStep? && step.id == id && id in s.w.lists then []
    else if step.RevokeCommit? && Commits(s, step.task, step.order) && s.tasks[step.task].id == id then step.order
    else if step.StoreListStep? && step.id == id && id !in s.w.lists then []
    else if step.FinishListStep? && step.id == id && MovesList(s.w, step.job, id) then job
    else own
  }

  /** What a list should have pending after a run, by the log of its marks, clears and publications. */
  function LoggedPending(run: seq<Step>, id: Id): seq<int> {
    if run == [] then []
    else
      var init, last := run[..|run| - 1], run[|run| - 1];
      Requested(After(init), last, id, LoggedPending(init, id),
                if last.FinishListStep? then LoggedPending(init, last.job) else [])
  }

  function PendingOn(w: Wallet, id: Id): seq<int> {
    if id in w.lists then Pending(w.lists[id].value) else []
  }

  ghost predicate AsLogged(run: seq<Step>) {
    forall id :: id in After(run).w.lists ==> Pending(After(run).w.lists[id].value) == LoggedPending(run, id)
  }

  ghost predicate AlwaysAsLogged(run: seq<Step>) {
    AsLogged(run) && (run != [] ==> AlwaysAsLogged(run[..|run| - 1]))
  }

  /** A blind replace finds `pending` as its task read it. */
  ghost predicate PendingKept(s: System, step: Step) {
    Overwrites(s, step) ==>
      Pending(s.w.lists[s.tasks[step.task].id].value) == Pending(s.tasks[step.task].snap.value)
  }

  lemma EnumeratesNothing(order: seq<int>, s: set<int>)
    requires Enumerates(order, s)
    ensures order == [] <==> s == {}
  {
    if order != [] {
      assert order[0] in s;
    }
  }

  lemma CommitLeavesPending(s: System, step: Step)
    requires step.RevokeCommit? && Commits(s, step.task, step.order)
    ensures var id, w' := s.tasks[step.task].id, Next(s, step).w;
      w'.lists.Keys == s.w.lists.Keys && Pending(w'.lists[id].value) == step.order
      && forall r :: r in s.w.lists && r != id ==> w'.lists[r] == s.w.lists[r]
  {
    var r := s.tasks[step.task];
    EnumeratesNothing(step.order, Skipped(r.seen, r.max, r.additional, r.limit));
  }

  lemma BlindWriteAsLogged(run: seq<Step>, step: Step)
    requires AsLogged(run) && Overwrites(After(run), step)
    ensures AsLogged(run + [step]) <==> PendingKept(After(run), step)
  {
    AfterAppend(run, step);
    assert (run + [step])[..|run|] == run;
    var id := After(run).tasks[step.task].id;
    assert id in After(run + [step]).w.lists && LoggedPending(run + [step], id) == LoggedPending(run, id);
  }

  lemma WalletStepPending(s: System, step: Step, id: Id)
    requires IsWalletStep(step) && id in Next(s, step).w.lists
    ensures PendingOn(Next(s, step).w, id) ==
            Requested(s, step, id, PendingOn(s.w, id), if step.FinishListStep? then PendingOn(s.w, step.job) else [])
  {
  }

  lemma TaskStepPending(s: System, step: Step, id: Id)
    requires !IsWalletStep(step) && !Overwrites(s, step) && id in Next(s, step).w.lists
    ensures PendingOn(Next(s, step).w, id) == Requested(s, step, id, PendingOn(s.w, id), [])
  {
    if step.RevokeCommit? && Commits(s, step.task, step.order) {
      CommitLeavesPending(s, step);
    }
  }

  lemma ListAppears(s: System, step: Step, id: Id)
    requires id in Next(s, step).w.lists && id !in s.w.lists
    ensures (step.StoreListStep? && step.id == id) || (step.FinishListStep? && step.id == id && MovesList(s.w, step.job, id))
  {
  }

  lemma OtherStepAsLogged(run: seq<Step>, step: Step)
    requires AsLogged(run) && !Overwrites(After(run), step)
    ensures AsLogged(run + [step])
  {
    AfterAppend(run, step);
    assert (run + [step])[..|run|] == run;
    forall id | id in After(run + [step]).w.lists
      ensures PendingOn(After(run + [step]).w, id) == LoggedPending(run + [step], id)
    {
      OtherStepLogged(run, step, id);
    }
  }

  lemma OtherStepLogged(run: seq<Step>, step: Step, id: Id)
    requires AsLogged(run) && !Overwrites(After(run), step) && id in Next(After(run), step).w.lists
    ensures PendingOn(Next(After(run), step).w, id) ==
            Requested(After(run), step, id, LoggedPending(run, id),
                      if step.FinishListStep? then LoggedPending(run, step.job) else [])
  {
    var s := After(run);
    if IsWalletStep(step) {
      WalletStepPending(s, step, id);
    } else {
      TaskStepPending(s, step, id);
    }
    if id !in s.w.lists {
      ListAppears(s, step, id);
    }
  }

  /** At every point of a run each list has pending what the log of its marks, clears and publications prescribes,
      exactly when every blind replace finds `pending` as it was read: otherwise requests get lost, or come back. */
  lemma {:induction false} PendingAsLoggedIff(run: seq<Step>)
    ensures AlwaysAsLogged(run) <==> Everywhere(PendingKept, run)
  {
    if run != [] {
      var init, last := run[..|run| - 1], run[|run| - 1];
      PendingAsLoggedIff(init);
      assert run == init + [last];
      if AsLogged(init) && Overwrites(After(init), last) {
        BlindWriteAsLogged(init, last);
      } else if AsLogged(init) {
        OtherStepAsLogged(init, last);
      }
    }
  }

  /** The step clears or publishes the requests on `id`. */
  ghost predicate Handles(s: System, step: Step, id: Id) {
    || (step.ClearPendingStep? && step.id == id)
    || (step.RevokeCommit? && Commits(s, step.task, step.order) && s.tasks[step.task].id == id)
  }

  ghost predicate UnhandledSince(run: seq<Step>, m: nat, id: Id)
    requires m <= |run|
  {
    m < |run| ==>
      UnhandledSince(run[..|run| - 1], m, id) && !Handles(After(run[..|run| - 1]), run[|run| - 1], id)
  }

  lemma RequestsStayOneStep(s: System, step: Step, id: Id)
    requires PendingKept(s, step) && !Handles(s, step, id) && id in s.w.lists && id in Next(s, step).w.lists
    ensures forall x :: x in PendingOn(s.w, id) ==> x in PendingOn(Next(s, step).w, id)
  {
    if IsWalletStep(step) {
      WalletStepPending(s, step, id);
    } else if !Overwrites(s, step) {
      TaskStepPending(s, step, id);
    }
  }

  /** In such runs a request that is pending stays pending until it is cleared or published. */
  lemma {:induction false} RequestsStay(run: seq<Step>, m: nat, id: Id, x: int)
    requires Everywhere(NamesNew, run) && Everywhere(PendingKept, run) && m <= |run| && UnhandledSince(run, m, id)
    requires id in After(run[..m]).w.lists && id in After(run).w.lists
    requires x in PendingOn(After(run[..m]).w, id)
    ensures x in PendingOn(After(run).w, id)
  {
    if m == |run| {
      assert run[..m] == run;
    } else {
      var init, last := run[..|run| - 1], run[|run| - 1];
      ListThroughout(run, m, id);
      RequestsStay(init, m, id, x);
      RequestsStayOneStep(After(init), last, id);
    }
  }

  /** A mark that comes between the read and the replace of an issuance is lost, although the issuance finds
      `next_index` and the bits as it read them. */
  lemma DrawLosesRequest(s: System, t: nat, id: Id, x: int)
    requires t !in s.tasks && Complete(s.w, id) && s.w.lists[id].state != ListFailed
    requires s.w.lists[id].value.nextIndex <= s.w.defs[id].maxCredNum && x !in Pending(s.w.lists[id].value)
    ensures var s1 := Next(Next(s, DrawRead(t, id, true)), MarkPendingStep(id, [x]));
      var s2 := Next(s1, DrawReplace(t));
      && IndexKept(s1, DrawReplace(t)) && BitsKept(s1, DrawReplace(t))
      && id in s1.w.lists && x in Pending(s1.w.lists[id].value)
      && id in s2.w.lists && x !in Pending(s2.w.lists[id].value)
  {
    var e := s.w.lists[id];
    var s0 := Next(s, DrawRead(t, id, true));
    assert s0.tasks[t] == Drawing(id, e, s.w.defs[id].maxCredNum) && s0.w == s.w;
    var s1 := Next(s0, MarkPendingStep(id, [x]));
    assert Pending(s1.w.lists[id].value)[|Pending(e.value)|] == x;
    assert Replaces(s1, t);
  }

  // ---- The pending tag ----

  /** What the tag query returns. */
  function PendingQuery(w: Wallet): set<Id> {
    set id | id in w.lists && w.lists[id].pendingTag
  }

  /** What a scan of all lists for pending requests would return. */
  function PendingScan(w: Wallet): set<Id> {
    set id | id in w.lists && Pending(w.lists[id].value) != []
  }

  ghost predicate TagExact(e: ListEntry) {
    e.pendingTag <==> Pending(e.value) != []
  }

  /** A mark leaves something pending: it names an id, or finds some already pending. */
  ghost predicate MarksSomething(s: System, step: Step) {
    step.MarkPendingStep? && step.id in s.w.lists ==> step.crids != [] || Pending(s.w.lists[step.id].value) != []
  }

  ghost predicate TagInv(s: System) {
    && (forall id :: id in s.w.lists ==> TagExact(s.w.lists[id]))
    && (forall t :: t in s.tasks && !s.tasks[t].Revoking? ==> TagExact(s.tasks[t].snap))
  }

  lemma CommitKeepsTag(s: System, step: Step)
    requires TagInv(s) && step.RevokeCommit?
    ensures TagInv(Next(s, step))
  {
    if Commits(s, step.task, step.order) {
      var r := s.tasks[step.task];
      EnumeratesNothing(step.order, Skipped(r.seen, r.max, r.additional, r.limit));
    }
  }

  lemma WalletStepTag(s: System, step: Step)
    requires TagInv(s) && IsWalletStep(step)
    ensures TagInv(Next(s, step)) <==> MarksSomething(s, step)
  {
    if step.MarkPendingStep? && !MarksSomething(s, step) {
      assert !TagExact(Next(s, step).w.lists[step.id]);
    }
  }

  lemma TaskStepTag(s: System, step: Step)
    requires TagInv(s) && !IsWalletStep(step) && !step.RevokeCommit?
    ensures TagInv(Next(s, step))
  {
  }

  /** From a state where the tag is exact, one step keeps it exact if and only if it is not a mark of nothing. */
  lemma TagStep(s: System, step: Step)
    requires TagInv(s)
    ensures TagInv(Next(s, step)) <==> MarksSomething(s, step)
  {
    if IsWalletStep(step) {
      WalletStepTag(s, step);
    } else if step.RevokeCommit? {
      CommitKeepsTag(s, step);
    } else {
      TaskStepTag(s, step);
    }
  }

  /** Under every interleaving, the query by tag returns exactly the lists with pending requests. */
  lemma {:induction false} TagQueryExact(run: seq<Step>)
    requires Everywhere(MarksSomething, run)
    ensures TagInv(After(run))
    ensures PendingQuery(After(run).w) == PendingScan(After(run).w)
  {
    if run != [] {
      TagQueryExact(run[..|run| - 1]);
      TagStep(After(run[..|run| - 1]), run[|run| - 1]);
    }
  }

  // ---- Active registries and their life cycle ----

  ghost predicate OneActive(w: Wallet) {
    forall r, q :: r in w.defs && q in w.defs && w.defs[r].active && w.defs[q].active && w.defs[r].credDef == w.defs[q].credDef
      ==> r == q
  }

  lemma OneActiveStep(s: System, step: Step)
    requires OneActive(s.w)
    ensures OneActive(Next(s, step).w)
  {
  }

  /** Every reachable state has at most one active registry for each credential definition. */
  lemma {:induction false} AtMostOneActive(run: seq<Step>)
    ensures OneActive(After(run).w)
  {
    if run != [] {
      AtMostOneActive(run[..|run| - 1]);
      OneActiveStep(After(run[..|run| - 1]), run[|run| - 1]);
    }
  }

  predicate Spent(d: RegDef) {
    d.state == Full || d.state == Decommissioned
  }

  ghost predicate SpentAt(s: System, id: Id) {
    id in s.w.defs && Spent(s.w.defs[id])
  }

  /** The name under which a step leaves the registry called `id`. */
  function Renamed(w: Wallet, step: Step, id: Id): Id {
    if step.FinishDefStep? && step.job == id && MovesDef(w, step.job, step.id) then step.id else id
  }

  /** Every spent registry, followed to the name that the step gives it, is still spent. */
  ghost predicate StepKeepsSpent(s: System, step: Step) {
    forall id :: SpentAt(s, id) ==> SpentAt(Next(s, step), Renamed(s.w, step, id))
  }

  /** A registration that finishes finds its registry unspent. */
  ghost predicate FinishesUnspent(s: System, step: Step) {
    step.FinishDefStep? && MovesDef(s.w, step.job, step.id) ==> !Spent(s.w.defs[step.job])
  }

  lemma SpentStep(s: System, step: Step)
    ensures StepKeepsSpent(s, step) <==> FinishesUnspent(s, step)
  {
    if !FinishesUnspent(s, step) {
      assert SpentAt(s, step.job) && !SpentAt(Next(s, step), Renamed(s.w, step, step.job));
    }
  }

  /** Full and decommissioned registries stay so at every step of a run, under whatever name, exactly when no
      registration finishes after its registry was spent. */
  lemma {:induction false} SpentIffFinishedBefore(run: seq<Step>)
    ensures Everywhere(StepKeepsSpent, run) <==> Everywhere(FinishesUnspent, run)
  {
    if run != [] {
      SpentIffFinishedBefore(run[..|run| - 1]);
      SpentStep(After(run[..|run| - 1]), run[|run| - 1]);
    }
  }

  /** `id` is spent at every point of the run from the m-th on. */
  ghost predicate SpentSince(run: seq<Step>, m: nat, id: Id)
    requires m <= |run|
  {
    SpentAt(After(run), id) && (m < |run| ==> SpentSince(run[..|run| - 1], m, id))
  }

  /** No step from the m-th on finishes the registration of `id`. */
  ghost predicate NotFinishedSince(run: seq<Step>, m: nat, id: Id)
    requires m <= |run|
  {
    m < |run| ==>
      var init := run[..|run| - 1];
      NotFinishedSince(init, m, id) && Renamed(After(init).w, run[|run| - 1], id) == id
  }

  lemma SpentOneStep(s: System, step: Step, id: Id)
    requires SpentAt(s, id)
    ensures SpentAt(Next(s, step), id) <==> Renamed(s.w, step, id) == id
  {
  }

  /** Registry by registry: a spent one stays so from then on exactly when its registration does not finish later,
      and then it is never chosen as a spare. */
  lemma {:induction false} SpentStaysSpent(run: seq<Step>, m: nat, id: Id)
    requires m <= |run| && SpentAt(After(run[..m]), id)
    ensures SpentSince(run, m, id) <==> NotFinishedSince(run, m, id)
    ensures NotFinishedSince(run, m, id) ==> forall credDef :: id !in Spares(After(run).w, credDef)
  {
    if m == |run| {
      assert run[..m] == run;
    } else {
      var init := run[..|run| - 1];
      assert init[..m] == run[..m];
      SpentStaysSpent(init, m, id);
      if NotFinishedSince(init, m, id) {
        SpentOneStep(After(init), run[|run| - 1], id);
      }
    }
  }

  /** A registration is stored as the registrar reports it. */
  lemma StoredAsReported(s: System, id: Id, credDef: Id, max: int, state: DefState)
    requires id !in s.w.defs && id !in s.w.keys
    ensures var w' := Next(s, StoreDefStep(id, credDef, max, state)).w;
      && w'.defs == s.w.defs[id := RegDef(credDef, max, state, false)]
      && w'.keys == s.w.keys + {id} && w'.lists == s.w.lists
  {
  }

  /** One that is not finished yet, such as one in wait or action, is never chosen as a spare until it is: nothing but
      the end of its registration finishes it. */
  lemma {:induction false} NoSpareBeforeFinish(run: seq<Step>, m: nat, id: Id)
    requires m <= |run| && NotFinishedSince(run, m, id)
    requires id in After(run[..m]).w.defs && After(run[..m]).w.defs[id].state != Finished
    ensures id in After(run).w.defs && After(run).w.defs[id].state != Finished
    ensures forall credDef :: id !in Spares(After(run).w, credDef)
  {
    if m == |run| {
      assert run[..m] == run;
    } else {
      var init := run[..|run| - 1];
      assert init[..m] == run[..m];
      NoSpareBeforeFinish(init, m, id);
      UnfinishedOneStep(After(init), run[|run| - 1], id);
    }
  }

  lemma UnfinishedOneStep(s: System, step: Step, id: Id)
    requires id in s.w.defs && s.w.defs[id].state != Finished && Renamed(s.w, step, id) == id
    ensures id in Next(s, step).w.defs && Next(s, step).w.defs[id].state != Finished
  {
  }

  /** A decommissioned registry whose registration finishes afterwards is a spare again, under its registered id. */
  lemma FinishRevivesSpent(s: System, job: Id, id: Id)
    requires MovesDef(s.w, job, id) && Spent(s.w.defs[job]) && !s.w.defs[job].active
    ensures id in Spares(Next(s, FinishDefStep(job, id)).w, s.w.defs[job].credDef)
    ensures !StepKeepsSpent(s, FinishDefStep(job, id))
  {
    SpentStep(s, FinishDefStep(job, id));
  }

  /** This happens: a registry waiting under a job id is decommissioned and then finished. */
  lemma SomeRunRevivesDecommissioned()
    ensures exists run, job, id :: Revived(run, job, id)
  {
    var run: seq<Step> := [];
    AfterAppend(run, StoreDefStep("job", "c", 4, Action));
    run := run + [StoreDefStep("job", "c", 4, Action)];
    AfterAppend(run, DecommissionStep("c", "new"));
    run := run + [DecommissionStep("c", "new")];
    assert MovesDef(After(run).w, "job", "reg");
    FinishRevivesSpent(After(run), "job", "reg");
    AfterAppend(run, FinishDefStep("job", "reg"));
    assert Revived(run, "job", "reg");
  }

  /** After the run a registry is decommissioned; one step later it is a spare. */
  ghost predicate Revived(run: seq<Step>, job: Id, id: Id) {
    && job in After(run).w.defs && After(run).w.defs[job].state == Decommissioned
    && id in Spares(After(run + [FinishDefStep(job, id)]).w, After(run).w.defs[job].credDef)
  }
}
