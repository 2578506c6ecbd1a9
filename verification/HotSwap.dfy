/** Registry rotation: two registries are set up for a credential definition, one active and one spare; when the
    active one fills, the spare takes over and a new spare is created (acapy_agent/anoncreds/revocation_setup.py).

    Here operations run one after the other and registrations finish at once. */
module HotSwap {
  import opened Prelude
  import opened RevocationWallet
  import opened Publishing

  datatype Refusal = NoActiveRegistry | MissingRegistryData | RegistryFull | NoBackupRegistry | IndexUnreadable

  /** `Lost` is an attempt that drew an index and then failed to create its credential. */
  datatype Outcome = Issued(id: Id, index: int) | Lost(id: Id, index: int) | Done | Refused(why: Refusal)

  /** A credential definition's registry parameters; `length` is the length of the native status list. */
  datatype Params = Params(credDef: Id, maxCredNum: int, length: nat)

  /** A registration that finishes at once: definition, key and, through the finished event, the list. */
  function CreateRegistry(w: Wallet, p: Params, id: Id): Wallet {
    StoreList(StoreDef(w, id, p.credDef, p.maxCredNum, Finished), id, p.length, 0, ListFinished)
  }

  /** The handler of a finished credential definition: registry 0 is activated, registry 1 is the spare. */
  function Setup(w: Wallet, p: Params, first: Id, second: Id): Wallet {
    CreateRegistry(SetActive(CreateRegistry(w, p, first), first), p, second)
  }

  /** A registry created to follow another one has its credential definition and size. */
  function Successor(d: RegDef, length: nat): Params {
    Params(d.credDef, d.maxCredNum, length)
  }

  /** `limit=1` queries may return any match: `spare` is the one that the store picks. */
  function HandleFull(w: Wallet, length: nat, full: Id, spare: Id, newId: Id): Wallet
    requires full in w.defs
  {
    CreateRegistry(MarkFull(SetActive(w, spare), full), Successor(w.defs[full], length), newId)
  }

  /** The swap margin: the index just given out is the last one below the registry's size, or beyond. */
  predicate IsFull(max: int, index: int) {
    max <= index + 1
  }

  datatype Op =
    | Issue(active: Id, spare: Id, newId: Id, created: bool)
    | Decommission(active: Id, newId: Id, backup: Id)
    | Mark(id: Id, crids: seq<int>)
    | Clear(id: Id)
    | Revoke(id: Id, additional: seq<int>, limit: Option<set<int>>, stamp: int, order: seq<int>)

  /** One attempt to issue. `active` is what the query for the active registry returned; only an attempt that creates
      its credential looks at the swap margin. */
  function PerformIssue(w: Wallet, p: Params, active: Id, spare: Id, newId: Id, created: bool): (Wallet, Outcome) {
    if active !in ActiveRegistries(w, p.credDef) then (w, Refused(NoActiveRegistry))
    else if !Complete(w, active) then (w, Refused(MissingRegistryData))
    else
      var index := w.lists[active].value.nextIndex;
      if index > w.defs[active].maxCredNum then (w, Refused(RegistryFull))
      else
        var w1 := DrawWrite(w, active, Drawn(w.lists[active]));
        if !created then (w1, Lost(active, index))
        else if !IsFull(w.defs[active].maxCredNum, index) then (w1, Issued(active, index))
        else if Spares(w1, p.credDef) == {} then (w1, Refused(NoBackupRegistry))
        else (HandleFull(w1, p.length, active, spare, newId), Issued(active, index))
  }

  function PerformDecommission(w: Wallet, p: Params, active: Id, newId: Id, backup: Id): (Wallet, Outcome) {
    if active !in ActiveRegistries(w, p.credDef) then (w, Refused(NoActiveRegistry))
    else
      var q := Successor(w.defs[active], p.length);
      var w1 := SetActive(CreateRegistry(w, q, newId), newId);
      (CreateRegistry(DecommissionAll(w1, q.credDef, newId), q, backup), Done)
  }

  function PerformRevoke(w: Wallet, op: Op): (Wallet, Outcome)
    requires op.Revoke?
  {
    if !Complete(w, op.id) then (w, Refused(MissingRegistryData))
    else
      var e, max := w.lists[op.id], w.defs[op.id].maxCredNum;
      if !Readable(e.value, max, op.additional) then (w, Refused(IndexUnreadable))
      else if Eligible(e.value, max, op.additional) == {} then (w, Done)
      else (w.(lists := w.lists[op.id := Publish(e, max, op.additional, op.limit, op.stamp, op.order)]), Done)
  }

  function Perform(w: Wallet, p: Params, op: Op): (Wallet, Outcome) {
    match op
    case Issue(active, spare, newId, created) => PerformIssue(w, p, active, spare, newId, created)
    case Decommission(active, newId, backup) => PerformDecommission(w, p, active, newId, backup)
    case Mark(id, crids) => (MarkPending(w, id, crids), Done)
    case Clear(id) => (ClearPending(w, id), Done)
    case Revoke(_, _, _, _, _) => PerformRevoke(w, op)
  }

  /** New names are new, queries return members of what they select, and sets are listed in some order. */
  ghost predicate Legal(w: Wallet, p: Params, op: Op) {
    match op
    case Issue(active, spare, newId, _) =>
      && (ActiveRegistries(w, p.credDef) != {} ==> active in ActiveRegistries(w, p.credDef))
      && (Spares(w, p.credDef) != {} ==> spare in Spares(w, p.credDef))
      && FreshName(w, newId)
    case Decommission(active, newId, backup) =>
      && (ActiveRegistries(w, p.credDef) != {} ==> active in ActiveRegistries(w, p.credDef))
      && FreshName(w, newId) && FreshName(w, backup) && newId != backup
    case Revoke(id, additional, limit, _, order) =>
      Complete(w, id) ==> Enumerates(order, Skipped(w.lists[id].value, w.defs[id].maxCredNum, additional, limit))
    case _ => true
  }

  ghost predicate LegalRun(w: Wallet, p: Params, ops: seq<Op>)
    decreases |ops|
  {
    ops != [] ==> Legal(w, p, ops[0]) && LegalRun(Perform(w, p, ops[0]).0, p, ops[1..])
  }

  function Outcomes(w: Wallet, p: Params, ops: seq<Op>): seq<Outcome>
    decreases |ops|
  {
    if ops == [] then [] else [Perform(w, p, ops[0]).1] + Outcomes(Perform(w, p, ops[0]).0, p, ops[1..])
  }

  /** The largest value `next_index` can reach: one more than the last index given out. */
  function Ceiling(p: Params): int {
    if p.maxCredNum == 1 then 2 else p.maxCredNum
  }

  /** A registry with an index to give: unused, or still short of the swap margin. */
  ghost predicate InService(w: Wallet, p: Params, id: Id) {
    && Complete(w, id)
    && (w.lists[id].value.nextIndex == 1 || 1 < w.lists[id].value.nextIndex < p.maxCredNum)
  }

  ghost predicate RegistryReady(w: Wallet, p: Params, active: Id, r: Id)
    requires r in w.defs
  {
    && (w.defs[r].active && w.defs[r].credDef == p.credDef <==> r == active)
    && (w.defs[r].credDef == p.credDef ==>
          && w.defs[r].maxCredNum == p.maxCredNum
          && (r in w.lists ==> w.lists[r].value.nextIndex <= Ceiling(p) && |w.lists[r].value.bits| == p.length)
          && (r == active ==> InService(w, p, r))
          && (r != active && w.defs[r].state == Finished ==> InService(w, p, r) && w.lists[r].value.nextIndex == 1))
  }

  /** `active` is the one active registry and has an index to give; at least one finished spare is unused. */
  ghost predicate ReadyWith(w: Wallet, p: Params, active: Id) {
    && active in w.defs
    && (exists r :: r in Spares(w, p.credDef))
    && (forall r :: r in w.defs ==> RegistryReady(w, p, active, r))
  }

  ghost predicate Ready(w: Wallet, p: Params) {
    exists active :: ReadyWith(w, p, active)
  }

  lemma SetupReady(w: Wallet, p: Params, first: Id, second: Id)
    requires p.maxCredNum >= 1
    requires forall r :: r in w.defs ==> w.defs[r].credDef != p.credDef
    requires FreshName(w, first) && FreshName(w, second) && first != second
    ensures Ready(Setup(w, p, first, second), p)
  {
    var w' := Setup(w, p, first, second);
    assert second in Spares(w', p.credDef);
    assert ReadyWith(w', p, first);
  }

  /** The active registry gives out its next index, which the margin keeps below max_cred_num; if that index
      reached the margin, the spare has taken over and a new spare is there. */
  lemma IssueReady(w: Wallet, p: Params, op: Op)
    requires p.maxCredNum >= 1 && Ready(w, p) && op.Issue? && op.created && Legal(w, p, op)
    ensures var (w', out) := Perform(w, p, op);
      && Ready(w', p)
      && op.active in w.lists
      && out == Issued(op.active, w.lists[op.active].value.nextIndex)
      && 1 <= out.index <= p.maxCredNum
      && (p.maxCredNum >= 2 ==> out.index <= p.maxCredNum - 1)
  {
    var a :| ReadyWith(w, p, a);
    var r :| r in Spares(w, p.credDef);
    assert RegistryReady(w, p, a, a) && a in ActiveRegistries(w, p.credDef);
    assert op.active == a && op.spare in Spares(w, p.credDef);
    var w1 := DrawWrite(w, a, Drawn(w.lists[a]));
    assert Spares(w1, p.credDef) == Spares(w, p.credDef);
    if IsFull(p.maxCredNum, w.lists[a].value.nextIndex) {
      SwapReady(w, w1, p, op);
    } else {
      assert r in Spares(w1, p.credDef);
      assert ReadyWith(w1, p, a);
    }
  }

  lemma SwapReady(w: Wallet, w1: Wallet, p: Params, op: Op)
    requires p.maxCredNum >= 1 && op.Issue? && ReadyWith(w, p, op.active)
    requires op.spare in Spares(w, p.credDef) && FreshName(w, op.newId)
    requires op.active in w.lists && w1 == DrawWrite(w, op.active, Drawn(w.lists[op.active]))
    ensures ReadyWith(HandleFull(w1, p.length, op.active, op.spare, op.newId), p, op.spare)
  {
    var w' := HandleFull(w1, p.length, op.active, op.spare, op.newId);
    assert op.newId in Spares(w', p.credDef);
    forall r | r in w'.defs ensures RegistryReady(w', p, op.spare, r) {
      if r != op.newId {
        assert RegistryReady(w, p, op.active, r);
      }
    }
  }

  lemma CreateAdds(w: Wallet, p: Params, id: Id)
    requires FreshName(w, id)
    ensures CreateRegistry(w, p, id) ==
            Wallet(w.defs[id := RegDef(p.credDef, p.maxCredNum, Finished, false)], w.keys + {id},
                   w.lists[id := NewList(p.length, 0, ListFinished)])
  {
  }

  /** A decommission, registry by registry: the new one is active, the backup is not, every older one that was
      not waiting is decommissioned, waiting ones only lose the active tag, and other credential definitions are
      untouched. */
  ghost predicate Rotated(w: Wallet, w': Wallet, p: Params, newId: Id, backup: Id) {
    && w'.defs.Keys == w.defs.Keys + {newId, backup}
    && w'.defs[newId] == RegDef(p.credDef, p.maxCredNum, Finished, true)
    && w'.defs[backup] == RegDef(p.credDef, p.maxCredNum, Finished, false)
    && (forall r :: r in w.defs ==> w'.defs[r] == Retired(w.defs[r], p))
    && w'.keys == w.keys + {newId, backup}
    && w'.lists == w.lists[newId := NewList(p.length, 0, ListFinished)][backup := NewList(p.length, 0, ListFinished)]
  }

  function Retired(d: RegDef, p: Params): RegDef {
    if d.credDef != p.credDef then d
    else if d.state == Wait then d.(active := false)
    else d.(state := Decommissioned, active := false)
  }

  lemma DecommissionMiddle(w: Wallet, p: Params, newId: Id)
    requires FreshName(w, newId)
    ensures var w' := DecommissionAll(SetActive(CreateRegistry(w, p, newId), newId), p.credDef, newId);
      && w'.defs.Keys == w.defs.Keys + {newId}
      && w'.defs[newId] == RegDef(p.credDef, p.maxCredNum, Finished, true)
      && (forall r :: r in w.defs ==> w'.defs[r] == Retired(w.defs[r], p))
      && w'.keys == w.keys + {newId}
      && w'.lists == w.lists[newId := NewList(p.length, 0, ListFinished)]
  {
    CreateAdds(w, p, newId);
  }

  lemma DecommissionDefs(w: Wallet, p: Params, op: Op)
    requires op.Decommission? && op.active in ActiveRegistries(w, p.credDef) && Legal(w, p, op)
    ensures Rotated(w, Perform(w, p, op).0, Successor(w.defs[op.active], p.length), op.newId, op.backup)
  {
    var q := Successor(w.defs[op.active], p.length);
    DecommissionMiddle(w, q, op.newId);
    CreateAdds(DecommissionAll(SetActive(CreateRegistry(w, q, op.newId), op.newId), q.credDef, op.newId), q, op.backup);
  }

  lemma RotatedRoles(w: Wallet, w': Wallet, p: Params, newId: Id, backup: Id)
    requires Rotated(w, w', p, newId, backup) && newId !in w.defs && backup !in w.defs && newId != backup
    ensures ActiveRegistries(w', p.credDef) == {newId} && Spares(w', p.credDef) == {backup}
  {
  }

  /** After a decommission exactly the new registry is active, exactly the backup is a spare, both as large as the
      one that was active, and every other registry is as a rotation leaves it. */
  lemma DecommissionRotates(w: Wallet, p: Params, op: Op)
    requires op.Decommission? && ActiveRegistries(w, p.credDef) != {} && Legal(w, p, op)
    ensures var w' := Perform(w, p, op).0;
      && Rotated(w, w', Successor(w.defs[op.active], p.length), op.newId, op.backup)
      && ActiveRegistries(w', p.credDef) == {op.newId}
      && Spares(w', p.credDef) == {op.backup}
  {
    DecommissionDefs(w, p, op);
    RotatedRoles(w, Perform(w, p, op).0, Successor(w.defs[op.active], p.length), op.newId, op.backup);
  }

  lemma DecommissionReady(w: Wallet, p: Params, op: Op)
    requires p.maxCredNum >= 1 && Ready(w, p) && op.Decommission? && Legal(w, p, op)
    ensures Ready(Perform(w, p, op).0, p) && Perform(w, p, op).1 == Done
  {
    var a :| ReadyWith(w, p, a);
    assert RegistryReady(w, p, a, a) && a in ActiveRegistries(w, p.credDef);
    DecommissionDefs(w, p, op);
    RotatedReady(w, Perform(w, p, op).0, p, a, op.newId, op.backup);
  }

  lemma RotatedReady(w: Wallet, w': Wallet, p: Params, a: Id, newId: Id, backup: Id)
    requires p.maxCredNum >= 1 && ReadyWith(w, p, a) && FreshName(w, newId) && FreshName(w, backup) && newId != backup
    requires Rotated(w, w', p, newId, backup)
    ensures ReadyWith(w', p, newId)
  {
    assert backup in Spares(w', p.credDef);
    forall r | r in w'.defs ensures RegistryReady(w', p, newId, r) {
      if r in w.defs {
        assert RegistryReady(w, p, a, r);
      }
    }
  }

  lemma OtherOpsReady(w: Wallet, p: Params, op: Op)
    requires Ready(w, p) && Legal(w, p, op) && !op.Issue? && !op.Decommission?
    ensures Ready(Perform(w, p, op).0, p)
  {
    var a :| ReadyWith(w, p, a);
    var w' := Perform(w, p, op).0;
    assert w'.defs == w.defs && w'.keys == w.keys && w'.lists.Keys == w.lists.Keys;
    assert Spares(w', p.credDef) == Spares(w, p.credDef);
    forall r | r in w'.defs ensures RegistryReady(w', p, a, r) {
      assert RegistryReady(w, p, a, r);
    }
    assert ReadyWith(w', p, a);
  }

  /** Issuance gives out an index below the swap margin, and decommissioning finds its active registry. */
  ghost predicate Succeeds(p: Params, op: Op, out: Outcome) {
    && (op.Issue? ==>
          && out.Issued?
          && 1 <= out.index <= p.maxCredNum
          && (p.maxCredNum >= 2 ==> out.index <= p.maxCredNum - 1))
    && (op.Decommission? ==> out == Done)
  }

  /** Every attempt that draws an index creates its credential. */
  ghost predicate DrawsSucceed(ops: seq<Op>) {
    forall n :: 0 <= n < |ops| && ops[n].Issue? ==> ops[n].created
  }

  /** The hot swap never starves: from the two-registry setup, over any run of issuances mixed with marks,
      clears, publications and decommissions, no issuance is refused and no index passes the swap margin. */
  lemma {:induction false} NeverStarves(w: Wallet, p: Params, ops: seq<Op>)
    requires p.maxCredNum >= 1 && Ready(w, p) && LegalRun(w, p, ops) && DrawsSucceed(ops)
    ensures |Outcomes(w, p, ops)| == |ops|
    ensures forall n :: 0 <= n < |ops| ==> Succeeds(p, ops[n], Outcomes(w, p, ops)[n])
    ensures forall n :: 0 <= n <= |ops| ==> RunReady(w, p, ops[..n])
    decreases |ops|
  {
    if ops != [] {
      var op := ops[0];
      var w' := Perform(w, p, op).0;
      OpReady(w, p, op);
      NeverStarves(w', p, ops[1..]);
      forall n | 0 <= n <= |ops| ensures RunReady(w, p, ops[..n]) {
        if n > 0 {
          assert ops[..n][1..] == ops[1..][..n - 1];
        }
      }
    }
  }

  function AfterOps(w: Wallet, p: Params, ops: seq<Op>): Wallet
    decreases |ops|
  {
    if ops == [] then w else AfterOps(Perform(w, p, ops[0]).0, p, ops[1..])
  }

  /** One active registry and an unused spare are there at this point of the run. */
  ghost predicate RunReady(w: Wallet, p: Params, ops: seq<Op>) {
    Ready(AfterOps(w, p, ops), p)
  }

  lemma OpReady(w: Wallet, p: Params, op: Op)
    requires p.maxCredNum >= 1 && Ready(w, p) && Legal(w, p, op) && (op.Issue? ==> op.created)
    ensures Ready(Perform(w, p, op).0, p) && Succeeds(p, op, Perform(w, p, op).1)
  {
    match op
    case Issue(_, _, _, _) => IssueReady(w, p, op);
    case Decommission(_, _, _) => DecommissionReady(w, p, op);
    case _ => OtherOpsReady(w, p, op);
  }

  // ---- Which list length publishing needs ----

  /** While the rotation is ready, every bit that publishing reads is there if the list reaches the ceiling. */
  lemma MarginKeepsBitsReadable(w: Wallet, p: Params, id: Id, additional: seq<int>)
    requires Ready(w, p) && p.length >= Ceiling(p)
    requires Complete(w, id) && w.defs[id].credDef == p.credDef
    ensures Readable(w.lists[id].value, w.defs[id].maxCredNum, additional)
  {
    var a :| ReadyWith(w, p, a);
    assert RegistryReady(w, p, a, id);
  }

  /** An index given out from a list that is too short for it cannot be revoked. */
  lemma ShortListUnreadable(w: Wallet, p: Params, op: Op, rev: Op)
    requires p.maxCredNum >= 1 && Ready(w, p) && op.Issue? && Legal(w, p, op)
    requires Perform(w, p, op).1.Issued? && Perform(w, p, op).1.index >= p.length
    requires rev.Revoke? && rev.id == op.active && Perform(w, p, op).1.index in rev.additional
    ensures Perform(Perform(w, p, op).0, p, rev).1 == Refused(IndexUnreadable)
  {
    IssuedBeyond(w, p, op);
    BeyondRefused(Perform(w, p, op).0, p, rev, Perform(w, p, op).1.index);
  }

  lemma BeyondRefused(w: Wallet, p: Params, rev: Op, index: int)
    requires rev.Revoke? && Complete(w, rev.id) && index in rev.additional
    requires BeyondList(w.lists[rev.id].value, w.defs[rev.id].maxCredNum, index)
    ensures Perform(w, p, rev).1 == Refused(IndexUnreadable)
  {
    assert index in Requests(w.lists[rev.id].value, rev.additional);
  }

  lemma IssueTakesIndex(w: Wallet, p: Params, op: Op)
    requires op.Issue? && Legal(w, p, op) && Perform(w, p, op).1.Issued?
    ensures var (w', out) := Perform(w, p, op);
      && Complete(w, op.active) && Complete(w', op.active)
      && w'.defs[op.active].credDef == w.defs[op.active].credDef == p.credDef
      && w'.defs[op.active].maxCredNum == w.defs[op.active].maxCredNum
      && w'.lists[op.active].value == w.lists[op.active].value.(nextIndex := out.index + 1)
  {
  }

  lemma IssuedBeyond(w: Wallet, p: Params, op: Op)
    requires p.maxCredNum >= 1 && Ready(w, p) && op.Issue? && Legal(w, p, op)
    requires Perform(w, p, op).1.Issued? && Perform(w, p, op).1.index >= p.length
    ensures var (w', out) := Perform(w, p, op);
      Complete(w', op.active) && w'.defs[op.active].credDef == p.credDef
      && BeyondList(w'.lists[op.active].value, w'.defs[op.active].maxCredNum, out.index)
  {
    IssueTakesIndex(w, p, op);
    IssueReady(w, p, op);
    var a :| ReadyWith(w, p, a);
    assert RegistryReady(w, p, a, op.active);
  }

  lemma Longest(names: set<Id>) returns (n: nat)
    ensures forall id :: id in names ==> |id| <= n
  {
    n := 0;
    if names != {} {
      var id := Member(names);
      n := Longest(names - {id});
      n := if n < |id| then |id| else n;
      assert forall id' :: id' in names ==> id' == id || id' in names - {id};
    }
  }

  lemma SomeFreshName(w: Wallet) returns (id: Id)
    ensures FreshName(w, id)
  {
    var n := Longest(w.defs.Keys + w.keys + w.lists.Keys);
    id := seq(n + 1, i => 'x');
    assert id !in w.defs.Keys + w.keys + w.lists.Keys;
  }

  lemma SomeLegalIssue(w: Wallet, p: Params) returns (op: Op)
    requires Ready(w, p)
    ensures op.Issue? && op.created && Legal(w, p, op)
  {
    var a :| ReadyWith(w, p, a);
    assert RegistryReady(w, p, a, a) && a in ActiveRegistries(w, p.credDef);
    var spare := Member(Spares(w, p.credDef));
    var newId := SomeFreshName(w);
    op := Issue(a, spare, newId, true);
  }

  /** The list of a registry of this rotation has no bit for some issued index. */
  ghost predicate SomeBeyond(w: Wallet, p: Params) {
    exists id, index :: Complete(w, id) && w.defs[id].credDef == p.credDef &&
                        BeyondList(w.lists[id].value, w.defs[id].maxCredNum, index)
  }

  /** Issuing on and on reaches an index that a list below the ceiling has no bit for. */
  lemma {:induction false} IssuesBeyond(w: Wallet, p: Params, left: nat) returns (ops: seq<Op>)
    requires p.maxCredNum >= 1 && Ready(w, p) && p.length < Ceiling(p)
    requires exists a :: ReadyWith(w, p, a) && a in w.lists && left == Ceiling(p) - w.lists[a].value.nextIndex
    ensures LegalRun(w, p, ops) && DrawsSucceed(ops) && SomeBeyond(AfterOps(w, p, ops), p)
    decreases left
  {
    var op := SomeLegalIssue(w, p);
    var (w', out) := Perform(w, p, op);
    IssueReady(w, p, op);
    if out.index >= p.length {
      IssuedBeyond(w, p, op);
      ops := [op];
      assert AfterOps(w, p, ops) == w';
    } else {
      IssueAdvances(w, p, op);
      var rest := IssuesBeyond(w', p, left - 1);
      ops := [op] + rest;
      assert ops[1..] == rest;
    }
  }

  /** Short of the ceiling the active registry stays active, one index further. */
  lemma IssueAdvances(w: Wallet, p: Params, op: Op)
    requires p.maxCredNum >= 1 && Ready(w, p) && op.Issue? && op.created && Legal(w, p, op) && p.length < Ceiling(p)
    requires Perform(w, p, op).1.Issued? && Perform(w, p, op).1.index < p.length
    ensures var w' := Perform(w, p, op).0;
      && (forall a :: ReadyWith(w, p, a) ==> a == op.active)
      && ReadyWith(w', p, op.active) && op.active in w.lists && op.active in w'.lists
      && w'.lists[op.active].value.nextIndex == w.lists[op.active].value.nextIndex + 1
      && w.lists[op.active].value.nextIndex < Ceiling(p)
  {
    IssueReady(w, p, op);
    forall a | ReadyWith(w, p, a) ensures a == op.active {
      assert RegistryReady(w, p, a, a) && a in ActiveRegistries(w, p.credDef);
      assert RegistryReady(w, p, a, op.active);
    }
    assert ReadyWith(w, p, op.active);
    var w' := Perform(w, p, op).0;
    assert !IsFull(p.maxCredNum, w.lists[op.active].value.nextIndex);
    assert Spares(w', p.credDef) == Spares(w, p.credDef);
    forall r | r in w'.defs ensures RegistryReady(w', p, op.active, r) {
      assert RegistryReady(w, p, op.active, r);
    }
  }

  /** After this run, publishing any request on this registry finds every bit it reads. */
  ghost predicate ReadableAfter(w: Wallet, p: Params, ops: seq<Op>, id: Id, additional: seq<int>) {
    var w' := AfterOps(w, p, ops);
    Complete(w', id) && w'.defs[id].credDef == p.credDef ==>
      Readable(w'.lists[id].value, w'.defs[id].maxCredNum, additional)
  }

  /** Publishing finds every bit it reads, after every such run from a ready rotation and whatever is requested, exactly
      when the lists are as long as the largest value that `next_index` can reach: max_cred_num, or 2 for a
      registry of one credential. */
  lemma ReadableIffLongEnough(w: Wallet, p: Params)
    requires p.maxCredNum >= 1 && Ready(w, p)
    ensures (forall ops, id, additional ::
               LegalRun(w, p, ops) && DrawsSucceed(ops) ==> ReadableAfter(w, p, ops, id, additional))
            <==> p.length >= Ceiling(p)
  {
    if p.length >= Ceiling(p) {
      forall ops, id, additional | LegalRun(w, p, ops) && DrawsSucceed(ops)
        ensures ReadableAfter(w, p, ops, id, additional)
      {
        NeverStarves(w, p, ops);
        assert ops[..|ops|] == ops && RunReady(w, p, ops[..|ops|]);
        var w' := AfterOps(w, p, ops);
        if Complete(w', id) && w'.defs[id].credDef == p.credDef {
          MarginKeepsBitsReadable(w', p, id, additional);
        }
      }
    } else {
      var a :| ReadyWith(w, p, a);
      assert RegistryReady(w, p, a, a);
      var ops := IssuesBeyond(w, p, Ceiling(p) - w.lists[a].value.nextIndex);
      var w' := AfterOps(w, p, ops);
      var id, index :| Complete(w', id) && w'.defs[id].credDef == p.credDef &&
                       BeyondList(w'.lists[id].value, w'.defs[id].maxCredNum, index);
      assert index in Requests(w'.lists[id].value, [index]) by {
        assert Requests(w'.lists[id].value, [index])[|Pending(w'.lists[id].value)|] == index;
      }
      assert !ReadableAfter(w, p, ops, id, [index]);
    }
  }
}
