/** Every interleaving of the revocation manager's atomic steps, by any number of concurrent tasks.

    Issuance and the status update after a publication read the list record in one step and replace it blindly in a
    later one; publishing reads in one step and compares before it writes in a later one; all other operations are
    single steps. */
module RevocationRuns {
  import opened Prelude
  import opened RevocationWallet
  import opened Publishing

  /** A task between its read and its write. */
  datatype Task =
    | Drawing(id: Id, snap: ListEntry, max: int)
    | Updating(id: Id, snap: ListEntry)
    | Revoking(id: Id, seen: ListValue, max: int, additional: seq<int>, limit: Option<set<int>>)

  /** An index that issuance has taken from a registry. */
  datatype Alloc = Alloc(id: Id, index: int)

  /** Beside the wallet and the tasks, the history: the indices handed out, and the names that finished jobs gave
      up. */
  datatype System = System(w: Wallet, tasks: map<nat, Task>, issued: seq<Alloc>, retired: set<Id>)

  datatype Step =
    | StoreDefStep(id: Id, credDef: Id, maxCredNum: int, defState: DefState)
    | FinishDefStep(job: Id, id: Id)
    | SetActiveStep(id: Id)
    | MarkFullStep(id: Id)
    | DecommissionStep(credDef: Id, keep: Id)
    | StoreListStep(id: Id, length: nat, stamp: int, listState: ListState)
    | FinishListStep(job: Id, id: Id)
    | MarkPendingStep(id: Id, crids: seq<int>)
    | ClearPendingStep(id: Id)
    | DrawRead(task: nat, id: Id, uploadOk: bool)
    | DrawReplace(task: nat)
    | StatusFetch(task: nat, id: Id)
    | StatusReplace(task: nat, listState: ListState)
    | RevokeRead(task: nat, id: Id, additional: seq<int>, limit: Option<set<int>>)
    | RevokeCommit(task: nat, stamp: int, order: seq<int>)

  const INIT := System(EMPTY, map[], [], {})

  function ReadForDraw(s: System, t: nat, id: Id, uploadOk: bool): System {
    if t in s.tasks || !Complete(s.w, id) || (s.w.lists[id].state == ListFailed && !uploadOk) then s
    else s.(tasks := s.tasks[t := Drawing(id, Drawn(s.w.lists[id]), s.w.defs[id].maxCredNum)])
  }

  /** The task holds an index that its registry can still give out, and the record is still there to replace. */
  predicate Replaces(s: System, t: nat) {
    && t in s.tasks && s.tasks[t].Drawing?
    && s.tasks[t].snap.value.nextIndex <= s.tasks[t].max
    && s.tasks[t].id in s.w.lists
  }

  function ReplaceAfterDraw(s: System, t: nat): System {
    if t !in s.tasks || !s.tasks[t].Drawing? then s
    else if !Replaces(s, t) then s.(tasks := s.tasks - {t})
    else
      var d := s.tasks[t];
      System(DrawWrite(s.w, d.id, d.snap), s.tasks - {t}, s.issued + [Alloc(d.id, d.snap.value.nextIndex)], s.retired)
  }

  function FetchForStatus(s: System, t: nat, id: Id): System {
    if t in s.tasks || id !in s.w.lists then s else s.(tasks := s.tasks[t := Updating(id, s.w.lists[id])])
  }

  /** The record whose status is being updated is still there to replace. */
  predicate WritesStatus(s: System, t: nat) {
    t in s.tasks && s.tasks[t].Updating? && s.tasks[t].id in s.w.lists
  }

  function ReplaceForStatus(s: System, t: nat, state: ListState): System {
    if t !in s.tasks || !s.tasks[t].Updating? then s
    else s.(w := StatusWrite(s.w, s.tasks[t].id, s.tasks[t].snap, state), tasks := s.tasks - {t})
  }

  /** A blind replace that takes effect. */
  predicate Overwrites(s: System, step: Step) {
    (step.DrawReplace? && Replaces(s, step.task)) || (step.StatusReplace? && WritesStatus(s, step.task))
  }

  function ReadForRevoke(s: System, t: nat, id: Id, additional: seq<int>, limit: Option<set<int>>): System {
    if t in s.tasks || !Attempts(Attempt(s.w, s.w, true, 0), id, additional) then s
    else s.(tasks := s.tasks[t := Revoking(id, s.w.lists[id].value, s.w.defs[id].maxCredNum, additional, limit)])
  }

  predicate Commits(s: System, t: nat, order: seq<int>) {
    && t in s.tasks && s.tasks[t].Revoking?
    && s.tasks[t].id in s.w.lists
    && s.w.lists[s.tasks[t].id].value == s.tasks[t].seen
    && Enumerates(order, Skipped(s.tasks[t].seen, s.tasks[t].max, s.tasks[t].additional, s.tasks[t].limit))
  }

  /** The record is written from the value the task read, with the tags it finds now. */
  function CommitRevoke(s: System, t: nat, stamp: int, order: seq<int>): System {
    if t !in s.tasks || !s.tasks[t].Revoking? then s
    else if !Commits(s, t, order) then s.(tasks := s.tasks - {t})
    else
      var r := s.tasks[t];
      var e := Publish(ListEntry(r.seen, s.w.lists[r.id].state, s.w.lists[r.id].pendingTag),
                       r.max, r.additional, r.limit, stamp, order);
      s.(w := s.w.(lists := s.w.lists[r.id := e]), tasks := s.tasks - {t})
  }

  function NextWallet(w: Wallet, step: Step): Wallet {
    match step
    case StoreDefStep(id, credDef, max, state) => StoreDef(w, id, credDef, max, state)
    case FinishDefStep(job, id) => FinishDef(w, job, id)
    case SetActiveStep(id) => SetActive(w, id)
    case MarkFullStep(id) => MarkFull(w, id)
    case DecommissionStep(credDef, keep) => DecommissionAll(w, credDef, keep)
    case StoreListStep(id, length, stamp, state) => StoreList(w, id, length, stamp, state)
    case FinishListStep(job, id) => FinishList(w, job, id)
    case MarkPendingStep(id, crids) => MarkPending(w, id, crids)
    case ClearPendingStep(id) => ClearPending(w, id)
    case _ => w
  }

  /** The names that a step takes away from a record. */
  function GivenUp(w: Wallet, step: Step): set<Id> {
    if step.FinishDefStep? && MovesDef(w, step.job, step.id) then {step.job}
    else if step.FinishListStep? && MovesList(w, step.job, step.id) then {step.job}
    else {}
  }

  function Next(s: System, step: Step): System {
    match step
    case DrawRead(t, id, uploadOk) => ReadForDraw(s, t, id, uploadOk)
    case DrawReplace(t) => ReplaceAfterDraw(s, t)
    case StatusFetch(t, id) => FetchForStatus(s, t, id)
    case StatusReplace(t, state) => ReplaceForStatus(s, t, state)
    case RevokeRead(t, id, additional, limit) => ReadForRevoke(s, t, id, additional, limit)
    case RevokeCommit(t, stamp, order) => CommitRevoke(s, t, stamp, order)
    case _ => s.(w := NextWallet(s.w, step), retired := s.retired + GivenUp(s.w, step))
  }

  /** The system after a run from the empty wallet. */
  function After(run: seq<Step>): System {
    if run == [] then INIT else Next(After(run[..|run| - 1]), run[|run| - 1])
  }

  lemma AfterAppend(run: seq<Step>, step: Step)
    ensures After(run + [step]) == Next(After(run), step)
  {
    assert (run + [step])[..|run|] == run;
  }

  /** The system after further steps. */
  function Continue(s: System, steps: seq<Step>): System {
    if steps == [] then s else Next(Continue(s, steps[..|steps| - 1]), steps[|steps| - 1])
  }

  lemma ContinueAppend(s: System, steps: seq<Step>, step: Step)
    ensures Continue(s, steps + [step]) == Next(Continue(s, steps), step)
  {
    assert (steps + [step])[..|steps|] == steps;
  }

  lemma TwoSteps(s: System, a: Step, b: Step)
    ensures Continue(s, [a, b]) == Next(Next(s, a), b)
  {
    ContinueAppend(s, [], a);
    ContinueAppend(s, [a], b);
    assert [] + [a] == [a] && [a] + [b] == [a, b];
  }

  lemma ThreeSteps(s: System, a: Step, b: Step, c: Step)
    ensures Continue(s, [a, b, c]) == Next(Next(Next(s, a), b), c)
  {
    TwoSteps(s, a, b);
    ContinueAppend(s, [a, b], c);
    assert [a, b] + [c] == [a, b, c];
  }

  lemma FourSteps(s: System, a: Step, b: Step, c: Step, d: Step)
    ensures Continue(s, [a, b, c, d]) == Next(Next(Next(Next(s, a), b), c), d)
  {
    ThreeSteps(s, a, b, c);
    ContinueAppend(s, [a, b, c], d);
    assert [a, b, c] + [d] == [a, b, c, d];
  }

  /** `p` holds at every one of the further steps. */
  ghost predicate Along(p: (System, Step) -> bool, s: System, steps: seq<Step>) {
    steps != [] ==> Along(p, s, steps[..|steps| - 1]) && p(Continue(s, steps[..|steps| - 1]), steps[|steps| - 1])
  }

  lemma {:induction false} Continued(p: (System, Step) -> bool, run: seq<Step>, steps: seq<Step>)
    requires Everywhere(p, run) && Along(p, After(run), steps)
    ensures After(run + steps) == Continue(After(run), steps) && Everywhere(p, run + steps)
  {
    if steps == [] {
      assert run + steps == run;
    } else {
      Continued(p, run, steps[..|steps| - 1]);
      assert (run + steps)[..|run + steps| - 1] == run + steps[..|steps| - 1];
    }
  }

  /** `p` holds at every step of the run. */
  ghost predicate Everywhere(p: (System, Step) -> bool, run: seq<Step>) {
    run != [] ==> Everywhere(p, run[..|run| - 1]) && p(After(run[..|run| - 1]), run[|run| - 1])
  }

  lemma EverywhereAppend(p: (System, Step) -> bool, run: seq<Step>, step: Step)
    requires Everywhere(p, run) && p(After(run), step)
    ensures Everywhere(p, run + [step]) && After(run + [step]) == Next(After(run), step)
  {
    AfterAppend(run, step);
    assert (run + [step])[..|run|] == run;
  }

  lemma Reached(p: (System, Step) -> bool, goal: System -> bool, run: seq<Step>, a: Step, b: Step)
    requires Everywhere(p, run) && p(After(run), a) && p(Next(After(run), a), b)
    requires goal(Next(Next(After(run), a), b))
    ensures exists run' :: Everywhere(p, run') && goal(After(run'))
  {
    TwoAppended(p, run, a, b);
  }

  lemma TwoAppended(p: (System, Step) -> bool, run: seq<Step>, a: Step, b: Step)
    requires Everywhere(p, run) && p(After(run), a) && p(Next(After(run), a), b)
    ensures Everywhere(p, run + [a] + [b]) && After(run + [a] + [b]) == Next(Next(After(run), a), b)
  {
    EverywhereAppend(p, run, a);
    EverywhereAppend(p, run + [a], b);
  }

  // ---- Names do not come back ----

  /** What registrars owe to the wallet: the step gives no record a name that a finished job gave up. */
  ghost predicate NamesNew(s: System, step: Step) {
    && (forall id :: id in Next(s, step).w.defs && id !in s.w.defs ==> id !in s.retired)
    && (forall id :: id in Next(s, step).w.lists && id !in s.w.lists ==> id !in s.retired)
  }

  /** A name that has held a record holds it still, or was a job id and has been given up. */
  ghost predicate Settled(names: set<Id>, retired: set<Id>, id: Id) {
    id in names || id in retired
  }

  ghost predicate NamesInv(s: System) {
    && (forall t :: t in s.tasks ==>
          && Settled(s.w.lists.Keys, s.retired, s.tasks[t].id)
          && (!s.tasks[t].Updating? ==>
                && Settled(s.w.defs.Keys, s.retired, s.tasks[t].id)
                && (s.tasks[t].id in s.w.defs ==> s.tasks[t].max == s.w.defs[s.tasks[t].id].maxCredNum)))
    && (forall a :: a in s.issued ==>
          && Settled(s.w.lists.Keys, s.retired, a.id)
          && Settled(s.w.defs.Keys, s.retired, a.id))
  }

  /** What no step can do to the wallet, whatever the tasks hold. */
  ghost predicate Grows(s: System, s': System) {
    && s.retired <= s'.retired
    && (forall id :: Settled(s.w.defs.Keys, s.retired, id) ==> Settled(s'.w.defs.Keys, s'.retired, id))
    && (forall id :: Settled(s.w.lists.Keys, s.retired, id) ==> Settled(s'.w.lists.Keys, s'.retired, id))
    && (forall id :: Settled(s.w.defs.Keys, s.retired, id) && id in s'.w.defs ==>
          && id in s.w.defs
          && s'.w.defs[id].maxCredNum == s.w.defs[id].maxCredNum && s'.w.defs[id].credDef == s.w.defs[id].credDef)
    && (forall id :: Settled(s.w.lists.Keys, s.retired, id) && id in s'.w.lists ==> id in s.w.lists)
  }

  lemma StepGrows(s: System, step: Step)
    requires NamesNew(s, step)
    ensures Grows(s, Next(s, step))
  {
  }

  /** With new names for new records, a name that has held a list or a definition never holds another one later
      in the run. */
  lemma {:induction false} StaysSettled(run: seq<Step>, m: nat, id: Id)
    requires m <= |run| && Everywhere(NamesNew, run)
    ensures var s, s' := After(run[..m]), After(run);
      && (Settled(s.w.lists.Keys, s.retired, id) ==> Settled(s'.w.lists.Keys, s'.retired, id))
      && (Settled(s.w.defs.Keys, s.retired, id) ==> Settled(s'.w.defs.Keys, s'.retired, id))
  {
    if m == |run| {
      assert run[..m] == run;
    } else {
      assert run[..|run| - 1][..m] == run[..m];
      StaysSettled(run[..|run| - 1], m, id);
      StepGrows(After(run[..|run| - 1]), run[|run| - 1]);
    }
  }

  /** So a list that is there at two points of the run has been there all along. */
  lemma ListThroughout(run: seq<Step>, m: nat, id: Id)
    requires m < |run| && Everywhere(NamesNew, run)
    requires id in After(run[..m]).w.lists && id in After(run).w.lists
    ensures run[..|run| - 1][..m] == run[..m] && id in After(run[..|run| - 1]).w.lists
  {
    var init := run[..|run| - 1];
    assert init[..m] == run[..m];
    StaysSettled(init, m, id);
    StepGrows(After(init), run[|run| - 1]);
  }

  lemma NamesStep(s: System, step: Step)
    requires NamesInv(s) && NamesNew(s, step)
    ensures NamesInv(Next(s, step))
  {
    StepGrows(s, step);
  }

  // ---- Index allocation ----

  ghost predicate NoDuplicates(issued: seq<Alloc>) {
    forall i, j :: 0 <= i < j < |issued| ==> issued[i] != issued[j]
  }

  /** The replace of an issuance finds `next_index` as the task read it. */
  ghost predicate IndexKept(s: System, step: Step) {
    step.DrawReplace? && Replaces(s, step.task) ==>
      s.w.lists[s.tasks[step.task].id].value.nextIndex == s.tasks[step.task].snap.value.nextIndex
  }

  /** The replace of a status update finds `next_index` as it was fetched. */
  ghost predicate StatusIndexKept(s: System, step: Step) {
    step.StatusReplace? && WritesStatus(s, step.task) ==>
      s.w.lists[s.tasks[step.task].id].value.nextIndex == s.tasks[step.task].snap.value.nextIndex
  }

  ghost predicate RangeInv(s: System) {
    && NamesInv(s)
    && (forall id :: id in s.w.lists ==> s.w.lists[id].value.nextIndex >= 1)
    && (forall t :: t in s.tasks && !s.tasks[t].Revoking? ==> s.tasks[t].snap.value.nextIndex >= 1)
    && (forall a :: a in s.issued ==>
          && 1 <= a.index
          && (a.id in s.w.defs ==> a.index <= s.w.defs[a.id].maxCredNum))
  }

  /** The steps that only rewrite the wallet. */
  predicate IsWalletStep(step: Step) {
    && !step.DrawRead? && !step.DrawReplace? && !step.StatusFetch? && !step.StatusReplace?
    && !step.RevokeRead? && !step.RevokeCommit?
  }

  lemma WalletStepIndices(w: Wallet, step: Step)
    requires IsWalletStep(step)
    ensures forall id :: id in NextWallet(w, step).lists && id in w.lists ==>
      NextWallet(w, step).lists[id].value.nextIndex == w.lists[id].value.nextIndex
    ensures forall id :: id in NextWallet(w, step).lists && id !in w.lists ==>
      || NextWallet(w, step).lists[id].value.nextIndex == 1
      || (step.FinishListStep? && step.job in w.lists && NextWallet(w, step).lists[id].value == w.lists[step.job].value)
  {
  }

  lemma RangeWalletStep(s: System, step: Step)
    requires RangeInv(s) && IsWalletStep(step) && NamesNew(s, step)
    ensures RangeInv(Next(s, step))
  {
    NamesStep(s, step);
    StepGrows(s, step);
    WalletStepIndices(s.w, step);
  }

  lemma RangeReplace(s: System, t: nat)
    requires RangeInv(s) && NamesNew(s, DrawReplace(t))
    ensures RangeInv(Next(s, DrawReplace(t)))
  {
    NamesStep(s, DrawReplace(t));
  }

  lemma RangeOtherStep(s: System, step: Step)
    requires RangeInv(s) && NamesNew(s, step) && !IsWalletStep(step) && !step.DrawReplace?
    ensures RangeInv(Next(s, step))
  {
    NamesStep(s, step);
  }

  lemma RangeStep(s: System, step: Step)
    requires RangeInv(s) && NamesNew(s, step)
    ensures RangeInv(Next(s, step))
  {
    if IsWalletStep(step) {
      RangeWalletStep(s, step);
    } else if step.DrawReplace? {
      RangeReplace(s, step.task);
    } else {
      RangeOtherStep(s, step);
    }
  }

  /** In every run, however interleaved, allocated indices lie in 1..max_cred_num. */
  lemma {:induction false} IndexRange(run: seq<Step>)
    requires Everywhere(NamesNew, run)
    ensures RangeInv(After(run))
  {
    if run != [] {
      IndexRange(run[..|run| - 1]);
      RangeStep(After(run[..|run| - 1]), run[|run| - 1]);
    }
  }

  /** Allocation so far has been exact: everything below `next_index` that a waiting task has not seen yet
      was handed out, and nothing at or above it was. */
  ghost predicate IndexInv(s: System) {
    && RangeInv(s)
    && NoDuplicates(s.issued)
    && (forall a :: a in s.issued && a.id in s.w.lists ==> a.index < s.w.lists[a.id].value.nextIndex)
    && (forall t :: t in s.tasks && !s.tasks[t].Revoking? && s.tasks[t].id in s.w.lists ==>
          CaughtUp(s, s.tasks[t].id, s.tasks[t].snap.value.nextIndex))
  }

  ghost predicate CaughtUp(s: System, id: Id, from: int)
    requires id in s.w.lists
  {
    && from <= s.w.lists[id].value.nextIndex
    && (forall i :: from <= i < s.w.lists[id].value.nextIndex ==> Alloc(id, i) in s.issued)
  }

  lemma WalletStepKeepsIndexInv(s: System, step: Step)
    requires IndexInv(s) && IsWalletStep(step) && NamesNew(s, step)
    ensures IndexInv(Next(s, step))
  {
    var s' := Next(s, step);
    RangeStep(s, step);
    StepGrows(s, step);
    WalletStepIndices(s.w, step);
    forall u | u in s'.tasks && !s'.tasks[u].Revoking? && s'.tasks[u].id in s'.w.lists
      ensures CaughtUp(s', s'.tasks[u].id, s'.tasks[u].snap.value.nextIndex)
    {
      assert CaughtUp(s, s.tasks[u].id, s.tasks[u].snap.value.nextIndex);
    }
  }

  lemma ReadKeepsIndexInv(s: System, step: Step)
    requires IndexInv(s) && (step.DrawRead? || step.StatusFetch?) && NamesNew(s, step)
    ensures IndexInv(Next(s, step))
  {
    var s' := Next(s, step);
    RangeStep(s, step);
    forall u | u in s'.tasks && !s'.tasks[u].Revoking? && s'.tasks[u].id in s'.w.lists
      ensures CaughtUp(s', s'.tasks[u].id, s'.tasks[u].snap.value.nextIndex)
    {
      if u in s.tasks {
        assert CaughtUp(s, s.tasks[u].id, s.tasks[u].snap.value.nextIndex);
      }
    }
  }

  /** A task step after which no index has moved and no draw has begun. */
  lemma StillKeepsIndexInv(s: System, s': System)
    requires IndexInv(s) && RangeInv(s') && s'.issued == s.issued && s'.w.lists.Keys == s.w.lists.Keys
    requires forall id :: id in s.w.lists ==> s'.w.lists[id].value.nextIndex == s.w.lists[id].value.nextIndex
    requires forall t :: t in s'.tasks && !s'.tasks[t].Revoking? ==> t in s.tasks && s.tasks[t] == s'.tasks[t]
    ensures IndexInv(s')
  {
    forall u | u in s'.tasks && !s'.tasks[u].Revoking? && s'.tasks[u].id in s'.w.lists
      ensures CaughtUp(s', s'.tasks[u].id, s'.tasks[u].snap.value.nextIndex)
    {
      assert CaughtUp(s, s.tasks[u].id, s.tasks[u].snap.value.nextIndex);
    }
  }

  lemma OtherTaskStepKeepsIndexInv(s: System, step: Step)
    requires IndexInv(s) && NamesNew(s, step)
    requires StatusIndexKept(s, step)
    requires step.RevokeRead? || step.RevokeCommit? || step.StatusReplace? || (step.DrawReplace? && !Replaces(s, step.task))
    ensures IndexInv(Next(s, step))
  {
    RangeStep(s, step);
    StillKeepsIndexInv(s, Next(s, step));
  }

  lemma IndexStep(s: System, step: Step)
    requires IndexInv(s) && IndexKept(s, step) && StatusIndexKept(s, step) && NamesNew(s, step)
    ensures IndexInv(Next(s, step))
  {
    if IsWalletStep(step) {
      WalletStepKeepsIndexInv(s, step);
    } else if step.DrawReplace? && Replaces(s, step.task) {
      ReplaceKeepsIndexInv(s, step.task);
    } else if step.DrawRead? || step.StatusFetch? {
      ReadKeepsIndexInv(s, step);
    } else {
      OtherTaskStepKeepsIndexInv(s, step);
    }
  }

  lemma ReplaceHandsOut(s: System, t: nat)
    requires IndexInv(s) && Replaces(s, t) && IndexKept(s, DrawReplace(t))
    ensures var s' := Next(s, DrawReplace(t));
      && NoDuplicates(s'.issued)
      && forall a :: a in s'.issued && a.id in s'.w.lists ==> a.index < s'.w.lists[a.id].value.nextIndex
  {
  }

  lemma ReplaceKeepsIndexInv(s: System, t: nat)
    requires IndexInv(s) && Replaces(s, t) && IndexKept(s, DrawReplace(t)) && NamesNew(s, DrawReplace(t))
    ensures IndexInv(Next(s, DrawReplace(t)))
  {
    RangeReplace(s, t);
    ReplaceHandsOut(s, t);
    OthersCaughtUp(s, t);
  }

  lemma OthersCaughtUp(s: System, t: nat)
    requires IndexInv(s) && Replaces(s, t) && IndexKept(s, DrawReplace(t))
    ensures var s' := Next(s, DrawReplace(t));
      forall u :: u in s'.tasks && !s'.tasks[u].Revoking? && s'.tasks[u].id in s'.w.lists ==>
        CaughtUp(s', s'.tasks[u].id, s'.tasks[u].snap.value.nextIndex)
  {
    var s' := Next(s, DrawReplace(t));
    forall u | u in s'.tasks && !s'.tasks[u].Revoking? && s'.tasks[u].id in s'.w.lists
      ensures CaughtUp(s', s'.tasks[u].id, s'.tasks[u].snap.value.nextIndex)
    {
      assert CaughtUp(s, s.tasks[u].id, s.tasks[u].snap.value.nextIndex);
    }
  }

  /** A replace that finds `next_index` moved on hands out an index a second time. */
  lemma StaleReplaceDuplicates(s: System, step: Step)
    requires IndexInv(s) && !IndexKept(s, step)
    ensures !NoDuplicates(Next(s, step).issued)
  {
    var d := s.tasks[step.task];
    var a := Alloc(d.id, d.snap.value.nextIndex);
    assert CaughtUp(s, d.id, d.snap.value.nextIndex);
    RepeatedAtEnd(s.issued, a);
  }

  /** A status update that finds `next_index` moved on sets it back: the next issuance, though it finds it as it was
      read, hands out an index a second time. */
  lemma StaleStatusRepeats(s: System, t: nat, u: nat, state: ListState)
    requires IndexInv(s) && WritesStatus(s, t) && u !in s.tasks && state != ListFailed
    requires Complete(s.w, s.tasks[t].id)
    requires s.tasks[t].snap.value.nextIndex < s.w.lists[s.tasks[t].id].value.nextIndex
    ensures var s2 := Next(Next(s, StatusReplace(t, state)), DrawRead(u, s.tasks[t].id, true));
      IndexKept(s2, DrawReplace(u)) && !NoDuplicates(Next(s2, DrawReplace(u)).issued)
  {
    var id, n := s.tasks[t].id, s.tasks[t].snap.value.nextIndex;
    assert CaughtUp(s, id, n);
    HandedOut(s, id, n);
    StatusSetsBack(s, t, state);
    DrawsOnce(Next(s, StatusReplace(t, state)), u, id);
    RepeatedAtEnd(s.issued, Alloc(id, n));
  }

  lemma HandedOut(s: System, id: Id, n: int)
    requires IndexInv(s) && id in s.w.defs && id in s.w.lists
    requires CaughtUp(s, id, n) && n < s.w.lists[id].value.nextIndex
    ensures Alloc(id, n) in s.issued && n <= s.w.defs[id].maxCredNum
  {
  }

  lemma StatusSetsBack(s: System, t: nat, state: ListState)
    requires WritesStatus(s, t)
    ensures var s', id := Next(s, StatusReplace(t, state)), s.tasks[t].id;
      && s'.issued == s.issued && s'.w.defs == s.w.defs && s'.w.keys == s.w.keys && s'.tasks == s.tasks - {t}
      && id in s'.w.lists && s'.w.lists[id] == s.tasks[t].snap.(state := state)
  {
  }

  lemma RepeatedAtEnd(issued: seq<Alloc>, a: Alloc)
    requires a in issued
    ensures !NoDuplicates(issued + [a])
  {
    var i :| 0 <= i < |issued| && issued[i] == a;
    assert (issued + [a])[i] == (issued + [a])[|issued|];
  }

  lemma {:induction false} IndexKeptInvariant(run: seq<Step>)
    requires Everywhere(NamesNew, run) && Everywhere(StatusIndexKept, run) && Everywhere(IndexKept, run)
    ensures IndexInv(After(run))
  {
    if run != [] {
      var init := run[..|run| - 1];
      IndexKeptInvariant(init);
      IndexStep(After(init), run[|run| - 1]);
    }
  }

  lemma DuplicatesStay(s: System, step: Step)
    requires !NoDuplicates(s.issued)
    ensures !NoDuplicates(Next(s, step).issued)
  {
    var i, j :| 0 <= i < j < |s.issued| && s.issued[i] == s.issued[j];
    var issued' := Next(s, step).issued;
    assert issued'[i] == issued'[j];
  }

  /** As long as status updates write `next_index` back unchanged, allocated (registry, index) pairs are distinct in
      exactly the runs where every issuance, too, finds `next_index` as it was read: the comparison that publishing
      makes and the others do not. */
  lemma {:induction false} DistinctIffIndexKept(run: seq<Step>)
    requires Everywhere(NamesNew, run) && Everywhere(StatusIndexKept, run)
    ensures NoDuplicates(After(run).issued) <==> Everywhere(IndexKept, run)
  {
    if run != [] {
      var init, last := run[..|run| - 1], run[|run| - 1];
      DistinctIffIndexKept(init);
      if !Everywhere(IndexKept, init) {
        DuplicatesStay(After(init), last);
      } else {
        IndexKeptInvariant(init);
        if IndexKept(After(init), last) {
          IndexStep(After(init), last);
        } else {
          StaleReplaceDuplicates(After(init), last);
        }
      }
    }
  }

  // ---- Distinct means increasing ----

  /** The replace of an issuance hands out an index above all that the registry has handed out. */
  ghost predicate HandsOutAbove(s: System, step: Step) {
    step.DrawReplace? && Replaces(s, step.task) ==>
      forall a :: a in s.issued && a.id == s.tasks[step.task].id ==> a.index < s.tasks[step.task].snap.value.nextIndex
  }

  /** A stored list, or one that a task is going to write back, has this `next_index`. */
  ghost predicate Held(s: System, id: Id, n: int) {
    || (id in s.w.lists && s.w.lists[id].value.nextIndex == n)
    || (exists t :: t in s.tasks && HeldBy(s.tasks[t], id, n))
  }

  ghost predicate HeldBy(k: Task, id: Id, n: int) {
    !k.Revoking? && k.id == id && k.snap.value.nextIndex == n
  }

  /** However far a list has fallen back, every index from any value that it may have up to any other, and up to any
      index that has been handed out, has been handed out. */
  ghost predicate NoGaps(s: System) {
    && (forall id, x, y, i :: Held(s, id, x) && Held(s, id, y) && x <= i < y ==> Alloc(id, i) in s.issued)
    && (forall x, a, i :: a in s.issued && Held(s, a.id, x) && x <= i <= a.index ==> Alloc(a.id, i) in s.issued)
  }

  lemma HeldByTaskBefore(s: System, step: Step, t: nat, id: Id, n: int)
    requires t in Next(s, step).tasks && HeldBy(Next(s, step).tasks[t], id, n)
    ensures Held(s, id, n)
  {
    assert t in s.tasks ==> HeldBy(s.tasks[t], id, n);
  }

  /** Only an issuance, or a new record, brings a value that was not held before. */
  lemma HeldBefore(s: System, step: Step, id: Id, n: int)
    requires Held(Next(s, step), id, n)
    ensures
      || Held(s, id, n)
      || (step.DrawReplace? && Replaces(s, step.task) && id == s.tasks[step.task].id
          && n == s.tasks[step.task].snap.value.nextIndex + 1)
      || (id in Next(s, step).w.lists && id !in s.w.lists && n == Next(s, step).w.lists[id].value.nextIndex)
  {
    var s' := Next(s, step);
    if exists t :: t in s'.tasks && HeldBy(s'.tasks[t], id, n) {
      var t :| t in s'.tasks && HeldBy(s'.tasks[t], id, n);
      HeldByTaskBefore(s, step, t, id, n);
    } else if Overwrites(s, step) && s.tasks[step.task].id == id {
      assert HeldBy(s.tasks[step.task], id, s.tasks[step.task].snap.value.nextIndex);
    } else if IsWalletStep(step) {
      WalletStepIndices(s.w, step);
    }
  }

  /** A name that has never held a list has handed nothing out, and no task holds it. */
  lemma NewNameUnused(s: System, step: Step, id: Id)
    requires NamesInv(s) && NamesNew(s, step) && id in Next(s, step).w.lists && id !in s.w.lists
    ensures forall a :: a in Next(s, step).issued ==> a.id != id
    ensures forall n :: Held(Next(s, step), id, n) ==> n == Next(s, step).w.lists[id].value.nextIndex
  {
    var s' := Next(s, step);
    assert IsWalletStep(step);
    assert !Settled(s.w.lists.Keys, s.retired, id);
    forall t | t in s'.tasks ensures s'.tasks[t].id != id {
      assert s'.tasks[t] == s.tasks[t];
    }
  }

  lemma NewNameNoGaps(s: System, step: Step)
    requires NoGaps(s) && NamesInv(s) && NamesNew(s, step) && !(step.DrawReplace? && Replaces(s, step.task))
    ensures NoGaps(Next(s, step))
  {
    var s' := Next(s, step);
    assert s'.issued == s.issued;
    forall id, x | Held(s', id, x) ensures Held(s, id, x) || (id in s'.w.lists && id !in s.w.lists) {
      HeldBefore(s, step, id, x);
    }
    forall id | id in s'.w.lists && id !in s.w.lists
      ensures forall a :: a in s'.issued ==> a.id != id
      ensures forall n :: Held(s', id, n) ==> n == s'.w.lists[id].value.nextIndex
    {
      NewNameUnused(s, step, id);
    }
  }

  lemma DrawNoGaps(s: System, t: nat)
    requires NoGaps(s) && Replaces(s, t)
    ensures NoGaps(Next(s, DrawReplace(t)))
  {
    var s', id, n := Next(s, DrawReplace(t)), s.tasks[t].id, s.tasks[t].snap.value.nextIndex;
    assert HeldBy(s.tasks[t], id, n) && Held(s, id, n);
    assert s'.issued == s.issued + [Alloc(id, n)];
    forall r, x | Held(s', r, x) ensures Held(s, r, x) || (r == id && x == n + 1) {
      HeldBefore(s, DrawReplace(t), r, x);
    }
    forall r, x, y, i | Held(s', r, x) && Held(s', r, y) && x <= i < y ensures Alloc(r, i) in s'.issued {
      if i != n || r != id {
        assert Held(s, r, x) || (r == id && x == n + 1);
        assert Held(s, r, y) || (r == id && y == n + 1);
      }
    }
  }

  lemma NoGapsStep(s: System, step: Step)
    requires NoGaps(s) && NamesInv(s) && NamesNew(s, step)
    ensures NoGaps(Next(s, step))
  {
    if step.DrawReplace? && Replaces(s, step.task) {
      DrawNoGaps(s, step.task);
    } else {
      NewNameNoGaps(s, step);
    }
  }

  lemma {:induction false} NoGapsInvariant(run: seq<Step>)
    requires Everywhere(NamesNew, run)
    ensures NoGaps(After(run)) && NamesInv(After(run))
  {
    if run != [] {
      NoGapsInvariant(run[..|run| - 1]);
      NoGapsStep(After(run[..|run| - 1]), run[|run| - 1]);
      NamesStep(After(run[..|run| - 1]), run[|run| - 1]);
    }
  }

  lemma HandsOutStep(s: System, step: Step)
    requires NoGaps(s) && NoDuplicates(s.issued)
    ensures NoDuplicates(Next(s, step).issued) <==> HandsOutAbove(s, step)
  {
    if step.DrawReplace? && Replaces(s, step.task) {
      var id, n := s.tasks[step.task].id, s.tasks[step.task].snap.value.nextIndex;
      assert HeldBy(s.tasks[step.task], id, n) && Held(s, id, n);
      if !HandsOutAbove(s, step) {
        assert Alloc(id, n) in s.issued;
        RepeatedAtEnd(s.issued, Alloc(id, n));
      }
    }
  }

  /** In every interleaved run, whatever issuances and status updates write back: the indices of a registry are
      distinct exactly when they are handed out in increasing order. An issuance that has read a `next_index` at or
      below one handed out already does not skip a number, it repeats one. */
  lemma {:induction false} DistinctIffIncreasing(run: seq<Step>)
    requires Everywhere(NamesNew, run)
    ensures NoDuplicates(After(run).issued) <==> Everywhere(HandsOutAbove, run)
  {
    if run != [] {
      var init, last := run[..|run| - 1], run[|run| - 1];
      DistinctIffIncreasing(init);
      if NoDuplicates(After(init).issued) {
        NoGapsInvariant(init);
        HandsOutStep(After(init), last);
      } else {
        DuplicatesStay(After(init), last);
      }
    }
  }

  // ---- Next indices ----

  ghost predicate StepKeepsNextIndex(s: System, step: Step) {
    forall id :: id in s.w.lists && id in Next(s, step).w.lists ==>
      s.w.lists[id].value.nextIndex <= Next(s, step).w.lists[id].value.nextIndex
  }

  /** A blind replace finds `next_index` not ahead of what the task read, or one ahead if it adds one itself. */
  ghost predicate NotLeftBehind(s: System, step: Step) {
    Overwrites(s, step) ==>
      s.w.lists[s.tasks[step.task].id].value.nextIndex <=
      s.tasks[step.task].snap.value.nextIndex + (if step.DrawReplace? then 1 else 0)
  }

  lemma NextIndexStep(s: System, step: Step)
    ensures StepKeepsNextIndex(s, step) <==> NotLeftBehind(s, step)
  {
    if IsWalletStep(step) {
      WalletStepIndices(s.w, step);
    } else if Overwrites(s, step) {
      assert s.tasks[step.task].id in Next(s, step).w.lists;
    }
  }

  /** No step of a run lowers a list's `next_index` exactly when no blind replace has been left behind: a status
      update by any issuance in between, an issuance by two or more. */
  lemma {:induction false} NextIndexKeptIff(run: seq<Step>)
    ensures Everywhere(StepKeepsNextIndex, run) <==> Everywhere(NotLeftBehind, run)
  {
    if run != [] {
      NextIndexKeptIff(run[..|run| - 1]);
      NextIndexStep(After(run[..|run| - 1]), run[|run| - 1]);
    }
  }

  /** In such runs `next_index` never decreases, across failures, swaps, revocations and decommissioning. */
  lemma {:induction false} NextIndexNeverDecreases(run: seq<Step>, m: nat, id: Id)
    requires Everywhere(NamesNew, run) && Everywhere(NotLeftBehind, run) && m <= |run|
    requires id in After(run[..m]).w.lists && id in After(run).w.lists
    ensures After(run[..m]).w.lists[id].value.nextIndex <= After(run).w.lists[id].value.nextIndex
  {
    if m == |run| {
      assert run[..m] == run;
    } else {
      var init, last := run[..|run| - 1], run[|run| - 1];
      ListThroughout(run, m, id);
      NextIndexNeverDecreases(init, m, id);
      NextIndexStep(After(init), last);
    }
  }

  /** Wherever two issuances read before either replaces, they are given the same index. */
  lemma RacingDrawsCollide(s: System, t: nat, u: nat, id: Id)
    requires t != u && t !in s.tasks && u !in s.tasks && Complete(s.w, id) && s.w.lists[id].state != ListFailed
    requires s.w.lists[id].value.nextIndex <= s.w.defs[id].maxCredNum
    ensures var s2 := Next(Next(s, DrawRead(t, id, true)), DrawRead(u, id, true));
      var s' := Next(Next(s2, DrawReplace(t)), DrawReplace(u));
      && !NoDuplicates(s'.issued)
      && s'.w.defs == s.w.defs && id in s'.w.lists && s'.w.lists[id].value.bits == s.w.lists[id].value.bits
  {
    var s2 := Next(Next(s, DrawRead(t, id, true)), DrawRead(u, id, true));
    var d := Drawing(id, s.w.lists[id], s.w.defs[id].maxCredNum);
    assert s2.tasks[t] == d && s2.tasks[u] == d && s2.w == s.w;
    var s3 := Next(s2, DrawReplace(t));
    assert Replaces(s2, t) && s3.tasks[u] == d && s3.issued == s.issued + [Alloc(id, d.snap.value.nextIndex)];
    var s4 := Next(s3, DrawReplace(u));
    assert Replaces(s3, u) && s4.issued == s3.issued + [Alloc(id, d.snap.value.nextIndex)];
    assert s4.issued[|s.issued|] == s4.issued[|s.issued| + 1];
  }

  /** The registry has this size and list length, and an index has been handed out twice. */
  ghost predicate Collided(s: System, id: Id, max: int, length: nat) {
    && Sized(s, id, max, length)
    && !NoDuplicates(s.issued)
  }

  ghost predicate Sized(s: System, id: Id, max: int, length: nat) {
    && id in s.w.defs && s.w.defs[id].maxCredNum == max
    && id in s.w.lists && |s.w.lists[id].value.bits| == length
  }

  /** So distinctness needs its hypothesis: for every registry size and list length, some run from the empty wallet
      hands out an index twice. */
  lemma InterleavedDrawsCollide(max: int, length: nat)
    requires max >= 1
    ensures exists run :: Everywhere(NamesNew, run) && Collided(After(run), "r", max, length)
  {
    var run := RegistrySetUp(max, length);
    var steps := RacingSteps(After(run), "r", max, length);
    TaskStepsNameNothing(After(run), steps);
    Continued(NamesNew, run, steps);
  }

  lemma RacingSteps(s: System, id: Id, max: int, length: nat) returns (steps: seq<Step>)
    requires s.tasks == map[] && Complete(s.w, id) && s.w.lists[id].state != ListFailed
    requires s.w.lists[id].value.nextIndex <= max && Sized(s, id, max, length)
    ensures Collided(Continue(s, steps), id, max, length)
    ensures forall n :: 0 <= n < |steps| ==> !IsWalletStep(steps[n])
  {
    RacingDrawsCollide(s, 0, 1, id);
    steps := [DrawRead(0, id, true), DrawRead(1, id, true), DrawReplace(0), DrawReplace(1)];
    FourSteps(s, steps[0], steps[1], steps[2], steps[3]);
  }

  lemma RegistrySetUp(max: int, length: nat) returns (run: seq<Step>)
    ensures Everywhere(NamesNew, run) && Everywhere(IndexKept, run)
    ensures var s := After(run);
      && s.tasks == map[] && s.issued == [] && s.retired == {}
      && s.w.defs.Keys == {"r"} && s.w.keys == {"r"} && s.w.lists.Keys == {"r"}
      && s.w.defs["r"].maxCredNum == max
      && s.w.lists["r"] == NewList(length, 0, ListFinished)
  {
    run := [];
    EverywhereAppend(NamesNew, run, StoreDefStep("r", "c", max, Finished));
    EverywhereAppend(IndexKept, run, StoreDefStep("r", "c", max, Finished));
    run := run + [StoreDefStep("r", "c", max, Finished)];
    EverywhereAppend(NamesNew, run, StoreListStep("r", length, 0, ListFinished));
    EverywhereAppend(IndexKept, run, StoreListStep("r", length, 0, ListFinished));
    run := run + [StoreListStep("r", length, 0, ListFinished)];
  }

  /** Reading, replacing and committing give no record a name. */
  lemma TaskStepNamesNothing(s: System, step: Step)
    requires !IsWalletStep(step)
    ensures NamesNew(s, step)
  {
  }

  lemma {:induction false} TaskStepsNameNothing(s: System, steps: seq<Step>)
    requires forall n :: 0 <= n < |steps| ==> !IsWalletStep(steps[n])
    ensures Along(NamesNew, s, steps)
  {
    if steps != [] {
      TaskStepsNameNothing(s, steps[..|steps| - 1]);
      TaskStepNamesNothing(Continue(s, steps[..|steps| - 1]), steps[|steps| - 1]);
    }
  }

  lemma PairAppended(run: seq<Step>, a: Step, b: Step)
    requires Everywhere(NamesNew, run) && !IsWalletStep(a) && !IsWalletStep(b)
    ensures Everywhere(NamesNew, run + [a, b]) && After(run + [a, b]) == Next(Next(After(run), a), b)
  {
    TaskStepsNameNothing(After(run), [a, b]);
    Continued(NamesNew, run, [a, b]);
    TwoSteps(After(run), a, b);
  }

  /** An issuance on its own takes the next index. */
  lemma DrawsOnce(s: System, t: nat, id: Id)
    requires t !in s.tasks && Complete(s.w, id) && s.w.lists[id].state != ListFailed
    requires s.w.lists[id].value.nextIndex <= s.w.defs[id].maxCredNum
    ensures var e, s1 := s.w.lists[id], Next(s, DrawRead(t, id, true));
      var s' := Next(s1, DrawReplace(t));
      && IndexKept(s1, DrawReplace(t))
      && s' == System(s.w.(lists := s.w.lists[id := e.(value := e.value.(nextIndex := e.value.nextIndex + 1))]),
                      s.tasks, s.issued + [Alloc(id, e.value.nextIndex)], s.retired)
  {
    var s1 := Next(s, DrawRead(t, id, true));
    assert s1.tasks == s.tasks[t := Drawing(id, s.w.lists[id], s.w.defs[id].maxCredNum)];
    assert s1.tasks - {t} == s.tasks;
  }

  lemma DrawAppended(run: seq<Step>, id: Id) returns (run': seq<Step>)
    requires Everywhere(IndexKept, run)
    requires var s := After(run);
      && 0 !in s.tasks && Complete(s.w, id) && s.w.lists[id].state != ListFailed
      && s.w.lists[id].value.nextIndex <= s.w.defs[id].maxCredNum
    ensures Everywhere(IndexKept, run') && (Everywhere(NamesNew, run) ==> Everywhere(NamesNew, run'))
    ensures var s, s' := After(run), After(run');
      && s'.tasks == s.tasks && s'.w.defs == s.w.defs && s'.w.keys == s.w.keys && s'.w.lists.Keys == s.w.lists.Keys
      && s'.issued == s.issued + [Alloc(id, s.w.lists[id].value.nextIndex)]
  {
    DrawsOnce(After(run), 0, id);
    if Everywhere(NamesNew, run) {
      PairAppended(run, DrawRead(0, id, true), DrawReplace(0));
      assert run + [DrawRead(0, id, true)] + [DrawReplace(0)] == run + [DrawRead(0, id, true), DrawReplace(0)];
    }
    EverywhereAppend(IndexKept, run, DrawRead(0, id, true));
    run' := run + [DrawRead(0, id, true)];
    EverywhereAppend(IndexKept, run', DrawReplace(0));
    run' := run' + [DrawReplace(0)];
  }

  /** The status updates need their hypothesis as well: with one of them under way, two issuances that each find
      `next_index` as they read it are given the same index. */
  lemma StatusUpdateRepeatsIndex(max: int, length: nat)
    requires max >= 1
    ensures exists run :: Everywhere(NamesNew, run) && Everywhere(IndexKept, run) && !NoDuplicates(After(run).issued)
  {
    var run0 := RegistrySetUp(max, length);
    var run1 := FetchAppended(run0, "r");
    var run2 := DrawAppended(run1, "r");
    var run3 := StatusAppended(run2, "r");
    var run4 := DrawAppended(run3, "r");
    IssuedTwice(After(run4), Alloc("r", 1));
  }

  lemma FetchAppended(run: seq<Step>, id: Id) returns (run': seq<Step>)
    requires Everywhere(NamesNew, run) && Everywhere(IndexKept, run)
    requires After(run).tasks == map[] && id in After(run).w.lists
    ensures Everywhere(NamesNew, run') && Everywhere(IndexKept, run')
    ensures After(run') == After(run).(tasks := map[1 := Updating(id, After(run).w.lists[id])])
  {
    var step := StatusFetch(1, id);
    TaskStepNamesNothing(After(run), step);
    EverywhereAppend(NamesNew, run, step);
    EverywhereAppend(IndexKept, run, step);
    run' := run + [step];
  }

  lemma StatusAppended(run: seq<Step>, id: Id) returns (run': seq<Step>)
    requires Everywhere(NamesNew, run) && Everywhere(IndexKept, run)
    requires After(run).tasks.Keys == {1} && WritesStatus(After(run), 1) && After(run).tasks[1].id == id
    ensures Everywhere(NamesNew, run') && Everywhere(IndexKept, run')
    ensures var s, s' := After(run), After(run');
      && s'.tasks == map[] && s'.w.defs == s.w.defs && s'.w.keys == s.w.keys && s'.issued == s.issued
      && id in s'.w.lists && s'.w.lists[id] == s.tasks[1].snap.(state := ListFinished)
  {
    var step := StatusReplace(1, ListFinished);
    TaskStepNamesNothing(After(run), step);
    EverywhereAppend(NamesNew, run, step);
    EverywhereAppend(IndexKept, run, step);
    run' := run + [step];
  }

  /** New names are needed too: a list stored under the job id of a finished one starts at index 1 again. */
  lemma ReusedNameCollides(max: int, length: nat)
    requires max >= 1
    ensures exists run :: Everywhere(IndexKept, run) && !NoDuplicates(After(run).issued)
  {
    var run0 := RegistrySetUp(max, length);
    var run1 := DrawAppended(run0, "r");
    var run2 := NameReused(run1, length);
    var run3 := DrawAppended(run2, "r");
    IssuedTwice(After(run3), Alloc("r", 1));
  }

  lemma IssuedTwice(s: System, a: Alloc)
    requires s.issued == [a] + [a]
    ensures !NoDuplicates(s.issued)
  {
    assert s.issued[0] == s.issued[1];
  }

  lemma NameReused(run: seq<Step>, length: nat) returns (run': seq<Step>)
    requires Everywhere(IndexKept, run) && After(run).w.lists.Keys == {"r"} && After(run).tasks == map[]
    ensures Everywhere(IndexKept, run')
    ensures var s, s' := After(run), After(run');
      && s'.tasks == map[] && s'.w.defs == s.w.defs && s'.w.keys == s.w.keys && s'.issued == s.issued
      && "r" in s'.w.lists && s'.w.lists["r"] == NewList(length, 0, ListFinished)
  {
    EverywhereAppend(IndexKept, run, FinishListStep("r", "q"));
    run' := run + [FinishListStep("r", "q")];
    EverywhereAppend(IndexKept, run', StoreListStep("r", length, 0, ListFinished));
    run' := run' + [StoreListStep("r", length, 0, ListFinished)];
  }
}
