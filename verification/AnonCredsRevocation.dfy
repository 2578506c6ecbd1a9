/** The revocation manager itself: methods that rewrite stored entries and tags, each proved against the
    specification functions that the whole-run theorems are about (acapy_agent/anoncreds/revocation.py). */
module AnonCredsRevocation {
  import opened Prelude
  import opened RevocationWallet
  import opened Publishing
  import opened HotSwap
  import RotationFailures

  datatype FullOutcome = Swapped(spare: Id) | NoBackup | Unassigned

  class Manager {
    var defs: map<Id, RegDef>
    var keys: set<Id>
    var lists: map<Id, ListEntry>

    ghost function Contents(): Wallet
      reads this
    {
      Wallet(defs, keys, lists)
    }

    constructor ()
      ensures Contents() == EMPTY && defs == map[] && keys == {} && lists == map[]
    {
      defs, keys, lists := map[], {}, map[];
    }

    /** Fails, leaving the wallet alone, when an entry of that name exists. */
    method StoreRegistryDefinition(id: Id, credDef: Id, max: int, state: DefState) returns (ok: bool)
      modifies this
      ensures Contents() == StoreDef(old(Contents()), id, credDef, max, state)
      ensures ok <==> id !in old(defs) && id !in old(keys)
      ensures ok ==> defs == old(defs)[id := RegDef(credDef, max, state, false)] && keys == old(keys) + {id}
      ensures !ok ==> defs == old(defs) && keys == old(keys)
      ensures lists == old(lists)
    {
      if id in defs {
        return false;
      }
      if id in keys {
        return false;
      }
      defs := defs[id := RegDef(credDef, max, state, false)];
      keys := keys + {id};
      ok := true;
    }

    /** Moves definition and key to the registered id in one transaction: both move or neither does. */
    method FinishRegistryDefinition(job: Id, id: Id) returns (ok: bool)
      modifies this
      ensures Contents() == FinishDef(old(Contents()), job, id)
      ensures ok <==> job in old(defs) && job in old(keys) && id !in old(defs) && id !in old(keys)
      ensures ok ==>
        && defs.Keys == old(defs).Keys + {id} - {job} && keys == old(keys) + {id} - {job}
        && defs[id].state == Finished && defs[id].active == old(defs[job].active)
        && defs[id].credDef == old(defs[job].credDef) && defs[id].maxCredNum == old(defs[job].maxCredNum)
        && (forall r :: r in old(defs) && r != job ==> defs[r] == old(defs)[r])
      ensures !ok ==> defs == old(defs) && keys == old(keys)
      ensures lists == old(lists)
    {
      if job !in defs || id in defs || job !in keys || id in keys {
        return false;
      }
      defs := defs[id := defs[job].(state := Finished)];
      defs := defs - {job};
      keys := keys + {id};
      keys := keys - {job};
      ok := true;
    }

    /** Clears the `active` tag of the registries that carry it, one by one, then sets it on `id`. */
    method SetActiveRegistry(id: Id) returns (ok: bool)
      modifies this`defs
      ensures Contents() == SetActive(old(Contents()), id)
      ensures ok <==> id in old(defs)
      ensures !ok || old(defs[id].active) ==> defs == old(defs)
      ensures defs.Keys == old(defs).Keys
      ensures forall r :: r in defs ==>
        && defs[r].credDef == old(defs)[r].credDef && defs[r].maxCredNum == old(defs)[r].maxCredNum
        && defs[r].state == old(defs)[r].state
      ensures ok && !old(defs[id].active) ==> forall r :: r in defs ==>
        (defs[r].active <==> r == id || (defs[r].credDef != defs[id].credDef && old(defs)[r].active))
    {
      if id !in defs {
        return false;
      }
      if defs[id].active {
        return true;
      }
      var credDef := defs[id].credDef;
      var oldActive := set r | r in defs && defs[r].active && defs[r].credDef == credDef;
      var todo := oldActive;
      while todo != {}
        invariant todo <= oldActive
        invariant defs == map r | r in old(defs) ::
                    if r in oldActive - todo then old(defs)[r].(active := false) else old(defs)[r]
        decreases todo
      {
        ghost var m := Member(todo);
        var r :| r in todo;
        defs := defs[r := defs[r].(active := false)];
        todo := todo - {r};
      }
      defs := defs[id := defs[id].(active := true)];
      ok := true;
    }

    method StoreRevocationList(id: Id, length: nat, stamp: int, state: ListState) returns (ok: bool)
      modifies this`lists
      ensures Contents() == StoreList(old(Contents()), id, length, stamp, state)
      ensures ok <==> id !in old(lists)
      ensures ok ==> id in lists && lists == old(lists)[id := lists[id]]
      ensures ok ==>
        var bits := lists[id].value.bits;
        && lists[id] == ListEntry(ListValue(bits, stamp, 1, None), state, false)
        && |bits| == length && forall i :: 0 <= i < length ==> !bits[i]
      ensures !ok ==> lists == old(lists)
    {
      if id in lists {
        return false;
      }
      var bits := seq(length, i => false);
      lists := lists[id := ListEntry(ListValue(bits, stamp, 1, None), state, false)];
      ok := true;
    }

    /** An existing list has already been updated, so only a new one is moved to its registered id. */
    method FinishRevocationList(job: Id, id: Id) returns (ok: bool)
      modifies this`lists
      ensures Contents() == FinishList(old(Contents()), job, id)
      ensures ok <==> id in old(lists) || job in old(lists)
      ensures id !in old(lists) && job in old(lists) ==>
        && lists.Keys == old(lists).Keys + {id} - {job}
        && lists[id] == ListEntry(old(lists[job].value), ListFinished, old(lists[job].pendingTag))
        && (forall r :: r in old(lists) && r != job ==> lists[r] == old(lists)[r])
      ensures id in old(lists) || job !in old(lists) ==> lists == old(lists)
    {
      if id in lists {
        return true;
      }
      if job !in lists {
        return false;
      }
      lists := lists[id := lists[job].(state := ListFinished)];
      lists := lists - {job};
      ok := true;
    }

    method MarkPendingRevocations(id: Id, crids: seq<int>) returns (ok: bool)
      modifies this`lists
      ensures Contents() == MarkPending(old(Contents()), id, crids)
      ensures ok <==> id in old(lists)
      ensures ok ==>
        var e := old(lists)[id];
        var before := match e.value.pending case None => [] case Some(ids) => ids;
        lists == old(lists)[id :=
          ListEntry(ListValue(e.value.bits, e.value.stamp, e.value.nextIndex, Some(before + crids)), e.state, true)]
      ensures !ok ==> lists == old(lists)
    {
      if id !in lists {
        return false;
      }
      var value := lists[id].value;
      var pending := crids;
      if value.pending.Some? && value.pending.value != [] {
        pending := value.pending.value + crids;
      }
      assert pending == Pending(value) + crids;
      lists := lists[id := lists[id].(value := value.(pending := Some(pending)), pendingTag := true)];
      ok := true;
    }

    method ClearPendingRevocations(id: Id) returns (ok: bool)
      modifies this`lists
      ensures Contents() == ClearPending(old(Contents()), id)
      ensures ok <==> id in old(lists)
      ensures ok ==>
        var e := old(lists)[id];
        lists == old(lists)[id :=
          ListEntry(ListValue(e.value.bits, e.value.stamp, e.value.nextIndex, None), e.state, false)]
      ensures !ok ==> lists == old(lists)
    {
      if id !in lists {
        return false;
      }
      lists := lists[id := lists[id].(value := lists[id].value.(pending := None), pendingTag := false)];
      ok := true;
    }

    /** A registration that finishes at once, with the list that its finished event creates. */
    method CreateAndRegister(p: Params, id: Id)
      requires FreshName(Contents(), id)
      modifies this
      ensures Contents() == CreateRegistry(old(Contents()), p, id)
      ensures defs == old(defs)[id := RegDef(p.credDef, p.maxCredNum, Finished, false)] && keys == old(keys) + {id}
      ensures id in lists && lists == old(lists)[id := lists[id]]
      ensures var bits := lists[id].value.bits;
        && lists[id] == ListEntry(ListValue(bits, 0, 1, None), ListFinished, false)
        && |bits| == p.length && forall i :: 0 <= i < p.length ==> !bits[i]
    {
      var stored := StoreRegistryDefinition(id, p.credDef, p.maxCredNum, Finished);
      var listed := StoreRevocationList(id, p.length, 0, ListFinished);
    }

    /** Swaps a filling registry for a finished, inactive one of the same credential definition. For a name without
        a definition the source goes on to an unassigned variable, which raises. */
    method HandleFullRegistry(id: Id, length: nat, newId: Id) returns (out: FullOutcome)
      requires FreshName(Contents(), newId)
      modifies this
      ensures out.Unassigned? <==> id !in old(defs)
      ensures out.NoBackup? <==> id in old(defs) && Spares(old(Contents()), old(defs[id]).credDef) == {}
      ensures out.NoBackup? <==> id in old(defs) && forall r :: r in old(defs) ==>
        !(!old(defs)[r].active && old(defs)[r].credDef == old(defs)[id].credDef && old(defs)[r].state == Finished)
      ensures out.Swapped? ==>
        && id in old(defs) && out.spare in Spares(old(Contents()), old(defs[id]).credDef)
        && Contents() == HandleFull(old(Contents()), length, id, out.spare, newId)
      ensures !out.Swapped? ==> Contents() == old(Contents())
    {
      if id !in defs {
        return Unassigned;
      }
      var p := Successor(defs[id], length);
      var found := set r | r in defs && !defs[r].active && defs[r].credDef == p.credDef && defs[r].state == Finished;
      if found == {} {
        assert forall r :: r in defs ==> r !in found;
        return NoBackup;
      }
      ghost var m := Member(found);
      var spare :| spare in found;
      var activated := SetActiveRegistry(spare);
      defs := defs[id := defs[id].(state := Full)];
      CreateAndRegister(p, newId);
      out := Swapped(spare);
    }

    /** One undisturbed attempt to issue: read the active registry, allocate the index, create the credential, swap
        when the margin is reached. `created` says whether the credential could be created. */
    method CreateCredential(p: Params, newId: Id, created: bool)
      returns (out: HotSwap.Outcome, active: Id, ghost spare: Id)
      requires FreshName(Contents(), newId)
      modifies this
      ensures (Contents(), out) == PerformIssue(old(Contents()), p, active, spare, newId, created)
      ensures Legal(old(Contents()), p, Issue(active, spare, newId, created))
      ensures out.Issued? || out.Lost? || out in {Refused(NoActiveRegistry), Refused(MissingRegistryData),
                                                  Refused(RegistryFull), Refused(NoBackupRegistry)}
    {
      active, spare := newId, newId;
      if Spares(Contents(), p.credDef) != {} {
        spare := Member(Spares(Contents(), p.credDef));
      }
      var actives := set r | r in defs && defs[r].active && defs[r].credDef == p.credDef;
      if actives == {} {
        out := Refused(NoActiveRegistry);
        return;
      }
      ghost var m := Member(actives);
      active :| active in actives;
      if active !in defs || active !in lists || active !in keys {
        out := Refused(MissingRegistryData);
        return;
      }
      var entry := lists[active];
      if entry.state == ListFailed {
        entry := entry.(state := ListFinished);
      }
      var index := entry.value.nextIndex;
      if index > defs[active].maxCredNum {
        out := Refused(RegistryFull);
        return;
      }
      lists := lists[active := entry.(value := entry.value.(nextIndex := index + 1))];
      assert Spares(Contents(), p.credDef) == Spares(old(Contents()), p.credDef);
      if !created {
        out := Lost(active, index);
        return;
      }
      if defs[active].maxCredNum <= index + 1 {
        var swap := HandleFullRegistry(active, p.length, newId);
        if !swap.Swapped? {
          out := Refused(NoBackupRegistry);
          return;
        }
        spare := swap.spare;
      }
      out := Issued(active, index);
    }

    /** The retry loop around the attempts: a failed creation, a full registry and missing data are retried, anything
        else ends it. `None` is the error raised when the last attempt was to be retried, too. */
    method CreateCredentialHelper(p: Params, newId: Id, retries: int, created: seq<bool>)
      returns (out: Option<HotSwap.Outcome>, attempts: nat, ghost ops: seq<Op>)
      requires FreshName(Contents(), newId) && |created| >= 1 && |created| >= retries
      modifies this
      ensures attempts == |ops| && 1 <= attempts && (attempts == 1 || attempts <= retries)
      ensures forall n :: 0 <= n < attempts ==> ops[n].Issue? && ops[n].created == created[n]
      ensures LegalRun(old(Contents()), p, ops) && Contents() == AfterOps(old(Contents()), p, ops)
      // What is retried, and what is not.
      ensures var outs := Outcomes(old(Contents()), p, ops);
        && |outs| == attempts
        && (forall n :: 0 <= n < attempts - 1 ==>
              outs[n].Lost? || outs[n] == Refused(RegistryFull) || outs[n] == Refused(MissingRegistryData))
        && (out == None ==>
              && (attempts >= retries)
              && (outs[attempts - 1].Lost? || outs[attempts - 1] == Refused(RegistryFull)
                  || outs[attempts - 1] == Refused(MissingRegistryData)))
        && (out.Some? ==>
              && out.value == outs[attempts - 1]
              && (out.value.Issued? || out.value == Refused(NoActiveRegistry) || out.value == Refused(NoBackupRegistry)))
      // With an index left for every attempt, it issues at the first creation that succeeds, if there is one.
      ensures forall a ::
        && RotationFailures.Turning(old(Contents()), p, a) && a in old(lists)
        && old(lists)[a].value.nextIndex + (if retries < 1 then 1 else retries) - 1 <= p.maxCredNum && p.maxCredNum >= 1
        ==>
          && (forall n :: 0 <= n < attempts - 1 ==> !created[n])
          && (out == None ==> !created[attempts - 1] && attempts == (if retries < 1 then 1 else retries))
          && (out != None ==>
                created[attempts - 1] && out == Some(HotSwap.Issued(a, old(lists)[a].value.nextIndex + attempts - 1)))
    {
      ghost var w := Contents();
      out, attempts, ops := RetryAttempts(p, newId, retries, created);
      EndsFrom(w, p, ops);
    }

    method RetryAttempts(p: Params, newId: Id, retries: int, created: seq<bool>)
      returns (out: Option<HotSwap.Outcome>, attempts: nat, ghost ops: seq<Op>)
      requires FreshName(Contents(), newId) && |created| >= Rounds(retries)
      modifies this
      ensures attempts == |ops| && 1 <= attempts <= Rounds(retries)
      ensures forall n :: 0 <= n < attempts ==> ops[n].Issue? && ops[n].created == created[n]
      ensures LegalRun(old(Contents()), p, ops) && Contents() == AfterOps(old(Contents()), p, ops)
      ensures var outs := Outcomes(old(Contents()), p, ops);
        && |outs| == attempts
        && (forall n :: 0 <= n < attempts - 1 ==> Retried(outs[n]))
        && (if Retried(outs[attempts - 1]) then attempts == Rounds(retries) && out == None
            else out == Some(outs[attempts - 1]))
      ensures out.Some? ==>
        out.value.Issued? || out.value == Refused(NoActiveRegistry) || out.value == Refused(NoBackupRegistry)
    {
      ops := [];
      ghost var w := Contents();
      attempts := 0;
      while attempts < Rounds(retries)
        invariant attempts == |ops| <= Rounds(retries) && FreshName(Contents(), newId)
        invariant forall n :: 0 <= n < |ops| ==> ops[n].Issue? && ops[n].created == created[n]
        invariant LegalRun(w, p, ops) && Contents() == AfterOps(w, p, ops)
        invariant |Outcomes(w, p, ops)| == |ops| && forall n :: 0 <= n < |ops| ==> Retried(Outcomes(w, p, ops)[n])
      {
        ghost var before := Contents();
        var o, active, spare := CreateCredential(p, newId, created[attempts]);
        ghost var op := Issue(active, spare, newId, created[attempts]);
        OneMoreAttempt(w, p, ops, op);
        ops := ops + [op];
        attempts := attempts + 1;
        if !Retried(o) {
          out := Some(o);
          return;
        }
        RetriedKeepsNames(before, p, op, newId);
      }
      out := None;
    }

    /** Activates a new registry and decommissions, one by one, every older one that is not waiting. */
    method DecommissionRegistry(p: Params, newId: Id, backup: Id) returns (out: HotSwap.Outcome, active: Id)
      requires FreshName(Contents(), newId) && FreshName(Contents(), backup) && newId != backup
      modifies this
      ensures (Contents(), out) == PerformDecommission(old(Contents()), p, active, newId, backup)
      ensures Legal(old(Contents()), p, Decommission(active, newId, backup))
    {
      var actives := set r | r in defs && defs[r].active && defs[r].credDef == p.credDef;
      active := newId;
      if actives == {} {
        out := Refused(NoActiveRegistry);
        return;
      }
      ghost var m := Member(actives);
      active :| active in actives;
      var q := Successor(defs[active], p.length);
      CreateAndRegister(q, newId);
      var activated := SetActiveRegistry(newId);
      DecommissionOlder(q.credDef, newId);
      CreateAndRegister(q, backup);
      out := Done;
    }

    method DecommissionOlder(credDef: Id, keep: Id)
      modifies this`defs
      ensures Contents() == DecommissionAll(old(Contents()), credDef, keep)
      ensures defs.Keys == old(defs).Keys && forall r :: r in defs ==>
        var o := old(defs)[r];
        defs[r] == if o.credDef == credDef && o.state != Wait && r != keep
                   then RegDef(o.credDef, o.maxCredNum, Decommissioned, false) else o
    {
      var recs := set r | r in defs && defs[r].credDef == credDef && defs[r].state != Wait;
      var todo := recs;
      while todo != {}
        invariant todo <= recs
        invariant defs == DecommissionedIn(old(defs), recs - todo - {keep})
        decreases todo
      {
        ghost var m := Member(todo);
        var r :| r in todo;
        ghost var done := recs - todo - {keep};
        if r != keep {
          OneMoreDecommissioned(old(defs), done, r);
          defs := defs[r := defs[r].(active := false, state := Decommissioned)];
        }
        todo := todo - {r};
        assert recs - todo - {keep} == if r == keep then done else done + {r};
      }
    }
  }

  function Rounds(retries: int): nat {
    if retries < 1 then 1 else retries
  }

  /** The outcomes that the retry loop catches. */
  predicate Retried(out: HotSwap.Outcome) {
    out.Lost? || out == Refused(RegistryFull) || out == Refused(MissingRegistryData)
  }

  /** In a rotation with an index left for each of them, attempts draw one index after the other until a creation
      succeeds. */
  lemma {:induction false} DrawnInTurn(w: Wallet, p: Params, a: Id, ops: seq<Op>)
    requires p.maxCredNum >= 1 && RotationFailures.Turning(w, p, a) && a in w.lists && LegalRun(w, p, ops)
    requires w.lists[a].value.nextIndex + |ops| - 1 <= p.maxCredNum && |Outcomes(w, p, ops)| == |ops|
    requires forall n :: 0 <= n < |ops| ==> ops[n].Issue?
    requires forall n :: 0 <= n < |ops| - 1 ==> Retried(Outcomes(w, p, ops)[n])
    ensures forall n :: 0 <= n < |ops| - 1 ==> !ops[n].created
    ensures ops != [] ==>
      var last, index := ops[|ops| - 1], w.lists[a].value.nextIndex + |ops| - 1;
      Outcomes(w, p, ops)[|ops| - 1] == if last.created then HotSwap.Issued(a, index) else Lost(a, index)
    decreases |ops|
  {
    if ops != [] {
      RotationFailures.IssueTurns(w, p, ops[0], a);
      if |ops| > 1 {
        assert Retried(Outcomes(w, p, ops)[0]);
        LostDraws(w, p, ops[0], a);
        OutcomesHead(w, p, ops);
        RetriedTail(Perform(w, p, ops[0]).1, Outcomes(Perform(w, p, ops[0]).0, p, ops[1..]));
        DrawnInTurn(Perform(w, p, ops[0]).0, p, a, ops[1..]);
        assert forall n :: 1 <= n < |ops| ==> ops[n] == ops[1..][n - 1];
      }
    }
  }

  lemma OutcomesHead(w: Wallet, p: Params, ops: seq<Op>)
    requires ops != []
    ensures Outcomes(w, p, ops) == [Perform(w, p, ops[0]).1] + Outcomes(Perform(w, p, ops[0]).0, p, ops[1..])
  {
  }

  lemma RetriedTail(first: HotSwap.Outcome, rest: seq<HotSwap.Outcome>)
    requires forall n :: 0 <= n < |rest| ==> Retried(([first] + rest)[n])
    ensures forall n :: 0 <= n < |rest| - 1 ==> Retried(rest[n])
  {
    assert forall n :: 0 <= n < |rest| - 1 ==> rest[n] == ([first] + rest)[n + 1];
  }

  /** One more attempt, after attempts that were all retried. */
  lemma OneMoreAttempt(w: Wallet, p: Params, ops: seq<Op>, op: Op)
    requires LegalRun(w, p, ops) && Legal(AfterOps(w, p, ops), p, op)
    requires |Outcomes(w, p, ops)| == |ops| && forall n :: 0 <= n < |ops| ==> Retried(Outcomes(w, p, ops)[n])
    ensures LegalRun(w, p, ops + [op]) && AfterOps(w, p, ops + [op]) == Perform(AfterOps(w, p, ops), p, op).0
    ensures var outs := Outcomes(w, p, ops + [op]);
      && |outs| == |ops| + 1 && outs[|ops|] == Perform(AfterOps(w, p, ops), p, op).1
      && forall n :: 0 <= n < |ops| ==> Retried(outs[n])
  {
    RotationFailures.AfterOpsAppend(w, p, ops, op);
  }

  lemma LostDraws(w: Wallet, p: Params, op: Op, a: Id)
    requires p.maxCredNum >= 1 && RotationFailures.Turning(w, p, a) && a in w.lists && op.Issue? && Legal(w, p, op)
    requires w.lists[a].value.nextIndex <= p.maxCredNum && !op.created
    ensures var w' := Perform(w, p, op).0;
      RotationFailures.Turning(w', p, a) && a in w'.lists
      && w'.lists[a].value.nextIndex == w.lists[a].value.nextIndex + 1
  {
    RotationFailures.IssueTurns(w, p, op, a);
    RotationFailures.TurningActive(w, p, a);
    RotationFailures.DrawTurns(w, p, a);
  }

  lemma EndsFrom(w: Wallet, p: Params, ops: seq<Op>)
    requires LegalRun(w, p, ops) && ops != [] && |Outcomes(w, p, ops)| == |ops|
    requires forall n :: 0 <= n < |ops| ==> ops[n].Issue?
    requires forall n :: 0 <= n < |ops| - 1 ==> Retried(Outcomes(w, p, ops)[n])
    ensures forall a ::
      && RotationFailures.Turning(w, p, a) && a in w.lists
      && w.lists[a].value.nextIndex + |ops| - 1 <= p.maxCredNum && p.maxCredNum >= 1
      ==>
        && (forall n :: 0 <= n < |ops| - 1 ==> !ops[n].created)
        && var last, index := ops[|ops| - 1], w.lists[a].value.nextIndex + |ops| - 1;
           Outcomes(w, p, ops)[|ops| - 1] == if last.created then HotSwap.Issued(a, index) else Lost(a, index)
  {
    forall a |
      && RotationFailures.Turning(w, p, a) && a in w.lists
      && w.lists[a].value.nextIndex + |ops| - 1 <= p.maxCredNum && p.maxCredNum >= 1
      ensures
        && (forall n :: 0 <= n < |ops| - 1 ==> !ops[n].created)
        && var last, index := ops[|ops| - 1], w.lists[a].value.nextIndex + |ops| - 1;
           Outcomes(w, p, ops)[|ops| - 1] == if last.created then HotSwap.Issued(a, index) else Lost(a, index)
    {
      DrawnInTurn(w, p, a, ops);
    }
  }

  lemma RetriedKeepsNames(w: Wallet, p: Params, op: Op, id: Id)
    requires op.Issue? && Retried(Perform(w, p, op).1) && FreshName(w, id)
    ensures FreshName(Perform(w, p, op).0, id)
  {
  }

  function DecommissionedIn(defs: map<Id, RegDef>, ids: set<Id>): map<Id, RegDef> {
    map r | r in defs :: if r in ids then defs[r].(active := false, state := Decommissioned) else defs[r]
  }

  lemma OneMoreDecommissioned(defs: map<Id, RegDef>, ids: set<Id>, r: Id)
    requires r in defs && r !in ids
    ensures DecommissionedIn(defs, ids + {r}) ==
            DecommissionedIn(defs, ids)[r := defs[r].(active := false, state := Decommissioned)]
  {
  }
}
