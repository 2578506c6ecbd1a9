/** What the operations of the revocation manager write, field by field and in literal terms, independently of the
    functions that the other modules compose them from (acapy_agent/anoncreds/revocation.py). */
module RevocationEffects {
  import opened Prelude
  import opened RevocationWallet
  import opened Publishing
  import opened RevocationRuns
  import opened HotSwap

  // ---- Tasks between their reads and writes ----

  /** Issuance reads a registry whose three parts are there; a failed list needs its tails file uploaded first, and is
      finished in memory then. Nothing is written. */
  lemma DrawReadEffect(s: System, t: nat, id: Id, uploadOk: bool)
    requires t !in s.tasks
    ensures var s' := Next(s, DrawRead(t, id, uploadOk));
      && s'.w == s.w && s'.issued == s.issued && s'.retired == s.retired
      && (t in s'.tasks <==>
            && id in s.w.defs && id in s.w.keys && id in s.w.lists
            && (s.w.lists[id].state == ListFailed ==> uploadOk))
      && (t !in s'.tasks ==> s'.tasks == s.tasks)
      && (t in s'.tasks ==>
            var e := s.w.lists[id];
            s'.tasks == s.tasks[t := Drawing(id,
              ListEntry(e.value, if e.state == ListFailed then ListFinished else e.state, e.pendingTag),
              s.w.defs[id].maxCredNum)])
  {
  }

  /** The replace writes back what was read, one index further, if there is an index left and the record is there. */
  lemma DrawReplaceEffect(s: System, t: nat)
    requires t in s.tasks && s.tasks[t].Drawing?
    ensures var s', k := Next(s, DrawReplace(t)), s.tasks[t];
      var v := k.snap.value;
      && s'.tasks == s.tasks - {t} && s'.retired == s.retired && s'.w.defs == s.w.defs && s'.w.keys == s.w.keys
      && if v.nextIndex <= k.max && k.id in s.w.lists then
           && s'.issued == s.issued + [Alloc(k.id, v.nextIndex)]
           && s'.w.lists == s.w.lists[k.id :=
                ListEntry(ListValue(v.bits, v.stamp, v.nextIndex + 1, v.pending), k.snap.state, k.snap.pendingTag)]
         else s'.issued == s.issued && s'.w.lists == s.w.lists
  {
  }

  lemma StatusFetchEffect(s: System, t: nat, id: Id)
    requires t !in s.tasks
    ensures Next(s, StatusFetch(t, id)) ==
            if id in s.w.lists then System(s.w, s.tasks[t := Updating(id, s.w.lists[id])], s.issued, s.retired) else s
  {
  }

  /** The status update writes back what was fetched, with nothing but the new state. */
  lemma StatusReplaceEffect(s: System, t: nat, state: ListState)
    requires t in s.tasks && s.tasks[t].Updating?
    ensures var s', k := Next(s, StatusReplace(t, state)), s.tasks[t];
      && s'.tasks == s.tasks - {t} && s'.issued == s.issued && s'.retired == s.retired
      && s'.w.defs == s.w.defs && s'.w.keys == s.w.keys
      && s'.w.lists == if k.id in s.w.lists
                       then s.w.lists[k.id := ListEntry(k.snap.value, state, k.snap.pendingTag)] else s.w.lists
  {
  }

  /** The ids that an attempt to publish has to account for. */
  function Ids(v: ListValue, additional: seq<int>): seq<int> {
    (match v.pending case None => [] case Some(ids) => ids) + additional
  }

  /** Publishing goes ahead when the three parts are there, no issued id lacks its bit, and some id is issued, in range
      and unrevoked. */
  lemma RevokeReadEffect(s: System, t: nat, id: Id, additional: seq<int>, limit: Option<set<int>>)
    requires t !in s.tasks
    ensures var s' := Next(s, RevokeRead(t, id, additional, limit));
      && s'.w == s.w && s'.issued == s.issued && s'.retired == s.retired
      && (t !in s'.tasks ==> s'.tasks == s.tasks)
      && (t in s'.tasks ==>
            && id in s.w.defs && id in s.w.keys && id in s.w.lists
            && s'.tasks == s.tasks[t := Revoking(id, s.w.lists[id].value, s.w.defs[id].maxCredNum, additional, limit)])
      && (id in s.w.defs && id in s.w.keys && id in s.w.lists ==>
            var v, max := s.w.lists[id].value, s.w.defs[id].maxCredNum;
            (t in s'.tasks <==>
               && (forall i :: i in Ids(v, additional) && 1 <= i <= max && i < v.nextIndex ==> i < |v.bits|)
               && (exists i :: i in Ids(v, additional) && 1 <= i <= max && i < v.nextIndex && i < |v.bits| && !v.bits[i])))
  {
    if id in s.w.defs && id in s.w.keys && id in s.w.lists {
      var v, max := s.w.lists[id].value, s.w.defs[id].maxCredNum;
      assert Ids(v, additional) == Requests(v, additional);
      EligibleExists(v, max, additional);
    }
  }

  lemma EligibleExists(v: ListValue, max: int, additional: seq<int>)
    ensures Eligible(v, max, additional) != {} <==>
            exists i :: i in Ids(v, additional) && 1 <= i <= max && i < v.nextIndex && i < |v.bits| && !v.bits[i]
  {
    assert Ids(v, additional) == Requests(v, additional);
    if Eligible(v, max, additional) != {} {
      var i := Member(Eligible(v, max, additional));
      assert i in Ids(v, additional) && 1 <= i <= max && i < v.nextIndex && i < |v.bits| && !v.bits[i];
    }
    if i :| i in Ids(v, additional) && 1 <= i <= max && i < v.nextIndex && i < |v.bits| && !v.bits[i] {
      assert i in Eligible(v, max, additional);
    }
  }

  /** Of the ids asked for: in range, issued, with a clear bit, and not held back by the limit. */
  predicate ToRevoke(v: ListValue, max: int, additional: seq<int>, limit: Option<set<int>>, i: int) {
    && i in Ids(v, additional) && 1 <= i <= max && i < v.nextIndex && i < |v.bits| && !v.bits[i]
    && (limit.Some? ==> i in limit.value)
  }

  predicate ToSkip(v: ListValue, max: int, additional: seq<int>, limit: Option<set<int>>, i: int) {
    && i in Ids(v, additional) && 1 <= i <= max && i < v.nextIndex && i < |v.bits| && !v.bits[i]
    && limit.Some? && i !in limit.value
  }

  lemma SkippedIds(v: ListValue, max: int, additional: seq<int>, limit: Option<set<int>>)
    ensures forall i :: i in Revoked(v, max, additional, limit) <==> ToRevoke(v, max, additional, limit, i)
    ensures forall i :: i in Skipped(v, max, additional, limit) <==> ToSkip(v, max, additional, limit, i)
    ensures forall i :: i in Rejected(v, max, additional) <==>
      i in Ids(v, additional) && !ToRevoke(v, max, additional, limit, i) && !ToSkip(v, max, additional, limit, i)
  {
    assert Ids(v, additional) == Requests(v, additional);
  }

  /** What an attempt to publish meets with, in literal terms: it needs all three parts, and a bit for every issued id
      in range; it conflicts when it has something to revoke, the native update works, and the list is still there with
      another value. */
  lemma AttemptMeets(a: Attempt, id: Id, additional: seq<int>)
    ensures Complete(a.seen, id) <==> id in a.seen.defs && id in a.seen.lists && id in a.seen.keys
    ensures Complete(a.seen, id) ==>
      var v, max := a.seen.lists[id].value, a.seen.defs[id].maxCredNum;
      && (Classifies(a, id, additional) <==>
            forall i :: i in Ids(v, additional) && 1 <= i <= max && i < v.nextIndex ==> i < |v.bits|)
      && (FindsNothing(a, id, additional) <==>
            Classifies(a, id, additional) && forall i :: !ToRevoke(v, max, additional, None, i))
      && (FindsSome(a, id, additional) <==>
            Classifies(a, id, additional) && exists i :: ToRevoke(v, max, additional, None, i))
      && (Attempts(a, id, additional) <==> FindsSome(a, id, additional) && a.nativeOk)
      && (Conflicts(a, id, additional) <==>
            FindsSome(a, id, additional) && a.nativeOk && id in a.now.lists && a.now.lists[id].value != v)
    ensures !Complete(a.seen, id) ==>
      && !Classifies(a, id, additional) && !FindsNothing(a, id, additional) && !FindsSome(a, id, additional)
      && !Attempts(a, id, additional) && !Conflicts(a, id, additional)
  {
    if Complete(a.seen, id) {
      var v, max := a.seen.lists[id].value, a.seen.defs[id].maxCredNum;
      assert Ids(v, additional) == Requests(v, additional);
      if Eligible(v, max, additional) != {} {
        var i := Member(Eligible(v, max, additional));
        assert ToRevoke(v, max, additional, None, i);
      }
      if i :| ToRevoke(v, max, additional, None, i) {
        assert i in Eligible(v, max, additional);
      }
    }
  }

  /** The list that an attempt computes has exactly the bits of what it revokes set in addition. */
  lemma ComputedBitsAre(a: Attempt, id: Id, additional: seq<int>, limit: Option<set<int>>)
    requires Complete(a.seen, id)
    ensures var v, max := a.seen.lists[id].value, a.seen.defs[id].maxCredNum;
      && |ComputedBits(a, id, additional, limit)| == |v.bits|
      && forall i :: 0 <= i < |v.bits| ==>
           (ComputedBits(a, id, additional, limit)[i] <==> v.bits[i] || ToRevoke(v, max, additional, limit, i))
  {
    SkippedIds(a.seen.lists[id].value, a.seen.defs[id].maxCredNum, additional, limit);
  }

  /** `order` names each id that is to be skipped, once. */
  ghost predicate ListsSkipped(v: ListValue, max: int, additional: seq<int>, limit: Option<set<int>>, order: seq<int>) {
    && (forall i, j :: 0 <= i < j < |order| ==> order[i] != order[j])
    && (forall x :: x in order <==> ToSkip(v, max, additional, limit, x))
  }

  /** A commit happens only to the value that was read, and sets the bits of what it revokes, the time stamp, and what
      stays pending with its tag; the `state` tag, `next_index` and every other record stay as they are. */
  lemma RevokeCommitEffect(s: System, t: nat, stamp: int, order: seq<int>)
    requires t in s.tasks && s.tasks[t].Revoking?
    ensures var s', k := Next(s, RevokeCommit(t, stamp, order)), s.tasks[t];
      && s'.tasks == s.tasks - {t} && s'.issued == s.issued && s'.retired == s.retired
      && s'.w.defs == s.w.defs && s'.w.keys == s.w.keys
      && if k.id in s.w.lists && s.w.lists[k.id].value == k.seen && ListsSkipped(k.seen, k.max, k.additional, k.limit, order)
         then
           && k.id in s'.w.lists && s'.w.lists == s.w.lists[k.id := s'.w.lists[k.id]]
           && var e, e' := s.w.lists[k.id], s'.w.lists[k.id];
           && |e'.value.bits| == |e.value.bits|
           && (forall i :: 0 <= i < |e.value.bits| ==>
                 (e'.value.bits[i] <==> e.value.bits[i] || ToRevoke(e.value, k.max, k.additional, k.limit, i)))
           && e'.value.stamp == stamp && e'.value.nextIndex == e.value.nextIndex
           && e'.value.pending == (if order == [] then None else Some(order))
           && e'.state == e.state && e'.pendingTag == (order != [])
         else s'.w.lists == s.w.lists
  {
    var k := s.tasks[t];
    SkippedIds(k.seen, k.max, k.additional, k.limit);
    OrderEnumerates(k.seen, k.max, k.additional, k.limit, order);
  }

  lemma OrderEnumerates(v: ListValue, max: int, additional: seq<int>, limit: Option<set<int>>, order: seq<int>)
    ensures ListsSkipped(v, max, additional, limit, order) <==> Enumerates(order, Skipped(v, max, additional, limit))
    ensures ListsSkipped(v, max, additional, limit, order) ==> (order == [] <==> Skipped(v, max, additional, limit) == {})
  {
    SkippedIds(v, max, additional, limit);
    ghost var listed := set x | x in order;
    assert forall x :: x in listed <==> x in order;
    if order != [] {
      assert order[0] in order;
    }
  }

  /** Only finishing a registration retires a name, and it retires the job id. */
  lemma RetiredEffect(s: System, step: Step, id: Id)
    ensures id in Next(s, step).retired <==>
      || id in s.retired
      || (step.FinishDefStep? && step.job == id
          && id in s.w.defs && id in s.w.keys && step.id !in s.w.defs && step.id !in s.w.keys)
      || (step.FinishListStep? && step.job == id && id in s.w.lists && step.id !in s.w.lists)
  {
  }

  // ---- Single steps on the wallet ----

  /** No single step on the wallet touches a task or hands out an index. */
  lemma WalletStepEffect(s: System, step: Step)
    requires IsWalletStep(step)
    ensures Next(s, step).tasks == s.tasks && Next(s, step).issued == s.issued
  {
  }

  lemma SetActiveEffect(s: System, id: Id)
    ensures var w' := Next(s, SetActiveStep(id)).w;
      && w'.keys == s.w.keys && w'.lists == s.w.lists && w'.defs.Keys == s.w.defs.Keys
      && (id !in s.w.defs || s.w.defs[id].active ==> w'.defs == s.w.defs)
      && (id in s.w.defs && !s.w.defs[id].active ==> forall r :: r in s.w.defs ==>
            var d := s.w.defs[r];
            w'.defs[r] == RegDef(d.credDef, d.maxCredNum, d.state,
                                 r == id || (d.credDef != s.w.defs[id].credDef && d.active)))
  {
  }

  lemma MarkFullEffect(s: System, id: Id)
    ensures Next(s, MarkFullStep(id)).w == Wallet(
      if id !in s.w.defs then s.w.defs
      else s.w.defs[id := RegDef(s.w.defs[id].credDef, s.w.defs[id].maxCredNum, Full, s.w.defs[id].active)],
      s.w.keys, s.w.lists)
  {
  }

  lemma DecommissionStepEffect(s: System, credDef: Id, keep: Id)
    ensures var w' := Next(s, DecommissionStep(credDef, keep)).w;
      && w'.keys == s.w.keys && w'.lists == s.w.lists && w'.defs.Keys == s.w.defs.Keys
      && forall r :: r in s.w.defs ==>
           var d := s.w.defs[r];
           w'.defs[r] == if d.credDef == credDef && d.state != Wait && r != keep
                         then RegDef(d.credDef, d.maxCredNum, Decommissioned, false) else d
  {
  }

  lemma FinishDefEffect(s: System, job: Id, id: Id)
    ensures Next(s, FinishDefStep(job, id)).w ==
      if job in s.w.defs && job in s.w.keys && id !in s.w.defs && id !in s.w.keys
      then Wallet(s.w.defs[id := RegDef(s.w.defs[job].credDef, s.w.defs[job].maxCredNum, Finished, s.w.defs[job].active)]
                    - {job},
                  s.w.keys + {id} - {job}, s.w.lists)
      else s.w
  {
  }

  lemma StoreListEffect(s: System, id: Id, length: nat, stamp: int, state: ListState)
    ensures var w' := Next(s, StoreListStep(id, length, stamp, state)).w;
      && w'.defs == s.w.defs && w'.keys == s.w.keys
      && (id in s.w.lists ==> w'.lists == s.w.lists)
      && (id !in s.w.lists ==>
            && id in w'.lists && w'.lists == s.w.lists[id := w'.lists[id]]
            && var bits := w'.lists[id].value.bits;
            && w'.lists[id] == ListEntry(ListValue(bits, stamp, 1, None), state, false)
            && |bits| == length && forall i :: 0 <= i < length ==> !bits[i])
  {
  }

  lemma FinishListEffect(s: System, job: Id, id: Id)
    ensures Next(s, FinishListStep(job, id)).w ==
      if job in s.w.lists && id !in s.w.lists
      then Wallet(s.w.defs, s.w.keys,
                  s.w.lists[id := ListEntry(s.w.lists[job].value, ListFinished, s.w.lists[job].pendingTag)] - {job})
      else s.w
  {
  }

  lemma MarkEffect(s: System, id: Id, crids: seq<int>)
    ensures Next(s, MarkPendingStep(id, crids)).w == Wallet(s.w.defs, s.w.keys,
      if id !in s.w.lists then s.w.lists
      else
        var e := s.w.lists[id];
        s.w.lists[id := ListEntry(ListValue(e.value.bits, e.value.stamp, e.value.nextIndex, Some(Ids(e.value, crids))),
                                  e.state, true)])
  {
  }

  lemma ClearEffect(s: System, id: Id)
    ensures Next(s, ClearPendingStep(id)).w == Wallet(s.w.defs, s.w.keys,
      if id !in s.w.lists then s.w.lists
      else
        var e := s.w.lists[id];
        s.w.lists[id := ListEntry(ListValue(e.value.bits, e.value.stamp, e.value.nextIndex, None), e.state, false)])
  {
  }

  // ---- Rotation ----

  /** Finished and inactive, of this credential definition. */
  predicate IsSpare(d: RegDef, credDef: Id) {
    !d.active && d.credDef == credDef && d.state == Finished
  }

  /** An attempt to issue is refused before it writes anything when there is no active registry, when a part of it is
      missing, and when it has no index left. */
  lemma IssueRefusedEarly(w: Wallet, p: Params, active: Id, spare: Id, newId: Id, created: bool)
    ensures var (w', out) := PerformIssue(w, p, active, spare, newId, created);
      && (out == Refused(NoActiveRegistry) <==>
            !(active in w.defs && w.defs[active].active && w.defs[active].credDef == p.credDef))
      && (out == Refused(MissingRegistryData) <==>
            && active in w.defs && w.defs[active].active && w.defs[active].credDef == p.credDef
            && (active !in w.lists || active !in w.keys))
      && (out == Refused(RegistryFull) <==>
            && active in w.defs && w.defs[active].active && w.defs[active].credDef == p.credDef
            && active in w.lists && active in w.keys && w.lists[active].value.nextIndex > w.defs[active].maxCredNum)
      && (out.Refused? && out.why != NoBackupRegistry ==> w' == w)
  {
  }

  /** The active registry has its parts and an index left. */
  ghost predicate CanDraw(w: Wallet, p: Params, active: Id) {
    && active in w.defs && w.defs[active].active && w.defs[active].credDef == p.credDef
    && active in w.lists && active in w.keys && w.lists[active].value.nextIndex <= w.defs[active].maxCredNum
  }

  /** The lists with the next index of `active` drawn. */
  function WithIndexDrawn(lists: map<Id, ListEntry>, active: Id): map<Id, ListEntry>
    requires active in lists
  {
    var e := lists[active];
    lists[active := ListEntry(ListValue(e.value.bits, e.value.stamp, e.value.nextIndex + 1, e.value.pending),
                              if e.state == ListFailed then ListFinished else e.state, e.pendingTag)]
  }

  /** Otherwise it draws the index, whatever becomes of the credential. A failed creation ends there, and so does a
      successful one below the margin. */
  lemma IssueDraws(w: Wallet, p: Params, active: Id, spare: Id, newId: Id, created: bool)
    requires CanDraw(w, p, active) && (created ==> w.lists[active].value.nextIndex + 1 < w.defs[active].maxCredNum)
    ensures PerformIssue(w, p, active, spare, newId, created) ==
            (Wallet(w.defs, w.keys, WithIndexDrawn(w.lists, active)),
             if created then HotSwap.Issued(active, w.lists[active].value.nextIndex)
             else Lost(active, w.lists[active].value.nextIndex))
  {
  }

  lemma SparesAre(w: Wallet, credDef: Id)
    ensures forall r :: r in Spares(w, credDef) <==> r in w.defs && IsSpare(w.defs[r], credDef)
    ensures Spares(w, credDef) == {} <==> forall r :: r in w.defs ==> !IsSpare(w.defs[r], credDef)
  {
    if Spares(w, credDef) != {} {
      var r := Member(Spares(w, credDef));
      assert r in w.defs && IsSpare(w.defs[r], credDef);
    } else {
      assert forall r :: r in w.defs ==> r !in Spares(w, credDef);
    }
  }

  /** A created credential at the margin needs a spare: without one the error is raised with the index drawn. */
  lemma IssueWithoutBackup(w: Wallet, p: Params, active: Id, spare: Id, newId: Id)
    requires CanDraw(w, p, active) && w.defs[active].maxCredNum <= w.lists[active].value.nextIndex + 1
    ensures var (w', out) := PerformIssue(w, p, active, spare, newId, true);
      && (out == Refused(NoBackupRegistry) <==> forall r :: r in w.defs ==> !IsSpare(w.defs[r], p.credDef))
      && (out == Refused(NoBackupRegistry) ==> w' == Wallet(w.defs, w.keys, WithIndexDrawn(w.lists, active)))
      && (out != Refused(NoBackupRegistry) ==> out == HotSwap.Issued(active, w.lists[active].value.nextIndex))
  {
    SparesAre(DrawWrite(w, active, Drawn(w.lists[active])), p.credDef);
  }

  /** A registry of this size and list length, as it is created. */
  ghost predicate Created(w: Wallet, id: Id, credDef: Id, max: int, length: nat, active: bool) {
    && id in w.defs && w.defs[id] == RegDef(credDef, max, Finished, active) && id in w.keys
    && id in w.lists
    && var e := w.lists[id];
    && e.value.stamp == 0 && e.value.nextIndex == 1 && e.value.pending == None && e.state == ListFinished && !e.pendingTag
    && |e.value.bits| == length && forall i :: 0 <= i < length ==> !e.value.bits[i]
  }

  /** With one, the spare becomes the one active registry, the old one is full, and a new spare of its size is there. */
  lemma IssueSwaps(w: Wallet, p: Params, active: Id, spare: Id, newId: Id)
    requires CanDraw(w, p, active) && w.defs[active].maxCredNum <= w.lists[active].value.nextIndex + 1
    requires spare in w.defs && IsSpare(w.defs[spare], p.credDef) && FreshName(w, newId)
    ensures var (w', out) := PerformIssue(w, p, active, spare, newId, true);
      var max := w.defs[active].maxCredNum;
      && out == HotSwap.Issued(active, w.lists[active].value.nextIndex)
      && w'.defs.Keys == w.defs.Keys + {newId} && w'.keys == w.keys + {newId} && w'.lists.Keys == w.lists.Keys + {newId}
      && (forall r :: r in w.lists ==> w'.lists[r] == WithIndexDrawn(w.lists, active)[r])
      && Created(w', newId, p.credDef, max, p.length, false)
      && (forall r :: r in w.defs ==>
            var d := w.defs[r];
            w'.defs[r] == RegDef(d.credDef, d.maxCredNum, if r == active then Full else d.state,
                                 r == spare || (d.credDef != p.credDef && d.active)))
  {
    var w1 := DrawWrite(w, active, Drawn(w.lists[active]));
    SparesAre(w1, p.credDef);
    assert spare in Spares(w1, p.credDef);
    SwapEffect(w1, p.length, active, spare, newId);
  }

  lemma SwapEffect(w: Wallet, length: nat, full: Id, spare: Id, newId: Id)
    requires full in w.defs && spare in w.defs && IsSpare(w.defs[spare], w.defs[full].credDef) && FreshName(w, newId)
    ensures var w', d := HandleFull(w, length, full, spare, newId), w.defs[full];
      && w'.defs.Keys == w.defs.Keys + {newId} && w'.keys == w.keys + {newId} && w'.lists.Keys == w.lists.Keys + {newId}
      && Created(w', newId, d.credDef, d.maxCredNum, length, false)
      && (forall r :: r in w.lists ==> w'.lists[r] == w.lists[r])
      && (forall r :: r in w.defs ==>
            var o := w.defs[r];
            w'.defs[r] == RegDef(o.credDef, o.maxCredNum, if r == full then Full else o.state,
                                 r == spare || (o.credDef != d.credDef && o.active)))
  {
    CreateAdds(MarkFull(SetActive(w, spare), full), Successor(w.defs[full], length), newId);
  }

  /** A decommission is refused without an active registry. Otherwise two registries of its size are created, the first
      of them active; waiting ones only lose the `active` tag, all others of the credential definition are
      decommissioned. */
  lemma DecommissionEffect(w: Wallet, p: Params, active: Id, newId: Id, backup: Id)
    requires FreshName(w, newId) && FreshName(w, backup) && newId != backup
    ensures var (w', out) := PerformDecommission(w, p, active, newId, backup);
      if active in w.defs && w.defs[active].active && w.defs[active].credDef == p.credDef then
        && out == Done
        && w'.defs.Keys == w.defs.Keys + {newId, backup} && w'.keys == w.keys + {newId, backup}
        && w'.lists.Keys == w.lists.Keys + {newId, backup}
        && Created(w', newId, p.credDef, w.defs[active].maxCredNum, p.length, true)
        && Created(w', backup, p.credDef, w.defs[active].maxCredNum, p.length, false)
        && (forall r :: r in w.lists ==> w'.lists[r] == w.lists[r])
        && (forall r :: r in w.defs ==>
              var d := w.defs[r];
              w'.defs[r] == if d.credDef != p.credDef then d
                            else RegDef(d.credDef, d.maxCredNum, if d.state == Wait then Wait else Decommissioned, false))
      else out == Refused(NoActiveRegistry) && w' == w
  {
    if active in ActiveRegistries(w, p.credDef) {
      DecommissionDefs(w, p, Decommission(active, newId, backup));
    }
  }

  /** The setup leaves the first registry active and the second one as a spare. */
  lemma SetupEffect(w: Wallet, p: Params, first: Id, second: Id)
    requires FreshName(w, first) && FreshName(w, second) && first != second
    requires forall r :: r in w.defs ==> w.defs[r].credDef != p.credDef
    ensures var w' := Setup(w, p, first, second);
      && Created(w', first, p.credDef, p.maxCredNum, p.length, true)
      && Created(w', second, p.credDef, p.maxCredNum, p.length, false)
      && w'.defs.Keys == w.defs.Keys + {first, second} && w'.keys == w.keys + {first, second}
      && w'.lists.Keys == w.lists.Keys + {first, second}
      && (forall r :: r in w.defs ==> w'.defs[r] == w.defs[r])
      && (forall r :: r in w.lists ==> w'.lists[r] == w.lists[r])
  {
    FirstEffect(w, p, first);
    CreateAdds(SetActive(CreateRegistry(w, p, first), first), p, second);
  }

  lemma FirstEffect(w: Wallet, p: Params, first: Id)
    requires FreshName(w, first) && forall r :: r in w.defs ==> w.defs[r].credDef != p.credDef
    ensures SetActive(CreateRegistry(w, p, first), first) ==
            Wallet(w.defs[first := RegDef(p.credDef, p.maxCredNum, Finished, true)], w.keys + {first},
                   w.lists[first := NewList(p.length, 0, ListFinished)])
  {
    CreateAdds(w, p, first);
  }

  /** One undisturbed publication, as an operation of the rotation. */
  lemma PublicationEffect(w: Wallet, op: Op)
    requires op.Revoke?
    requires op.id in w.lists && op.id in w.defs ==>
      ListsSkipped(w.lists[op.id].value, w.defs[op.id].maxCredNum, op.additional, op.limit, op.order)
    ensures var (w', out) := PerformRevoke(w, op);
      && w'.defs == w.defs && w'.keys == w.keys
      && (out == Refused(MissingRegistryData) <==> op.id !in w.defs || op.id !in w.lists || op.id !in w.keys)
      && (out != Refused(MissingRegistryData) ==>
            var e, max := w.lists[op.id], w.defs[op.id].maxCredNum;
            && (out == Refused(IndexUnreadable) <==>
                  exists i :: i in Ids(e.value, op.additional) && 1 <= i <= max && |e.value.bits| <= i < e.value.nextIndex)
            && (out == Done || out == Refused(IndexUnreadable))
            && op.id in w'.lists && w'.lists == w.lists[op.id := w'.lists[op.id]]
            && var e' := w'.lists[op.id];
            && |e'.value.bits| == |e.value.bits| && e'.value.nextIndex == e.value.nextIndex && e'.state == e.state
            && (out == Done ==> forall i :: 0 <= i < |e.value.bits| ==>
                  (e'.value.bits[i] <==> e.value.bits[i] || ToRevoke(e.value, max, op.additional, op.limit, i)))
            && (if out == Done && (exists i :: i in Ids(e.value, op.additional) && 1 <= i <= max && i < e.value.nextIndex
                                     && i < |e.value.bits| && !e.value.bits[i])
                then e'.value.stamp == op.stamp && e'.pendingTag == (op.order != [])
                     && e'.value.pending == if op.order == [] then None else Some(op.order)
                else e' == e))
  {
    if Complete(w, op.id) {
      var e, max := w.lists[op.id], w.defs[op.id].maxCredNum;
      assert Ids(e.value, op.additional) == Requests(e.value, op.additional);
      SkippedIds(e.value, max, op.additional, op.limit);
      OrderEnumerates(e.value, max, op.additional, op.limit, op.order);
      EligibleExists(e.value, max, op.additional);
      if Readable(e.value, max, op.additional) && Eligible(e.value, max, op.additional) == {} {
        forall i ensures !ToRevoke(e.value, max, op.additional, op.limit, i) {
          assert i !in Eligible(e.value, max, op.additional);
        }
      }
    }
  }
}
