/** Registration of credential definitions: the definition, its private key and its key proof are stored under
    a job id and later moved together to the registered id (acapy_agent/anoncreds/issuer.py). */
module CredDefStore {
  import opened Prelude

  type Id = string

  datatype State = Finished | Failed | Action | Wait

  /** A wallet record; `settings` are the other tags, which say whether and how to set up revocation. */
  datatype Record = Record(value: string, state: Option<State>, settings: string)

  datatype Category = CredDef | CredDefPrivate | KeyProof

  type Store = map<(Category, Id), Record>

  datatype Parts = Parts(definition: string, privateKey: string, keyProof: string, settings: string)

  // ---- Single writes; each fails as the wallet fails ----

  function Insert(s: Store, c: Category, id: Id, r: Record): Option<Store> {
    if (c, id) in s then None else Some(s[(c, id) := r])
  }

  /** Fetch under the job id, insert under the registered id as finished, remove the job id. */
  function FinishPart(s: Store, c: Category, job: Id, id: Id): Option<Store> {
    if (c, job) !in s then None
    else
      var inserted := Insert(s, c, id, s[(c, job)].(state := Some(Finished)));
      if inserted.None? then None else Some(inserted.value - {(c, job)})
  }

  // ---- Transactions: all of their writes or none ----

  function StoreParts(s: Store, id: Id, p: Parts, state: State): Option<Store> {
    var s1 := Insert(s, CredDef, id, Record(p.definition, Some(state), p.settings));
    if s1.None? then None
    else
      var s2 := Insert(s1.value, CredDefPrivate, id, Record(p.privateKey, None, ""));
      if s2.None? then None else Insert(s2.value, KeyProof, id, Record(p.keyProof, None, ""))
  }

  function FinishParts(s: Store, job: Id, id: Id): Option<Store> {
    var s1 := FinishPart(s, CredDef, job, id);
    if s1.None? then None
    else
      var s2 := FinishPart(s1.value, CredDefPrivate, job, id);
      if s2.None? then None else FinishPart(s2.value, KeyProof, job, id)
  }

  datatype Op = StoreOp(id: Id, parts: Parts, state: State) | FinishOp(job: Id, id: Id)

  function Attempt(s: Store, op: Op): Option<Store> {
    match op
    case StoreOp(id, parts, state) => StoreParts(s, id, parts, state)
    case FinishOp(job, id) => FinishParts(s, job, id)
  }

  function After(run: seq<Op>): Store {
    if run == [] then map[]
    else
      var s := After(run[..|run| - 1]);
      var r := Attempt(s, run[|run| - 1]);
      if r.Some? then r.value else s
  }

  // ---- What the run was told to keep ----

  /** The parts of every store that succeeded, in order. */
  function StoredParts(run: seq<Op>): seq<Parts> {
    if run == [] then []
    else
      var init, last := run[..|run| - 1], run[|run| - 1];
      StoredParts(init) + (if last.StoreOp? && Attempt(After(init), last).Some? then [last.parts] else [])
  }

  /** Which stored parts each name holds now: a store adds a name, a finish renames one. */
  function Names(run: seq<Op>): map<Id, nat> {
    if run == [] then map[]
    else
      var init, last := run[..|run| - 1], run[|run| - 1];
      var names := Names(init);
      if Attempt(After(init), last).None? then names
      else match last
        case StoreOp(id, _, _) => names[id := |StoredParts(init)|]
        case FinishOp(job, id) => if job in names then names[id := names[job]] - {job} else names
  }

  /** The records under `id` are the three parts `p`. */
  ghost predicate Holds(s: Store, id: Id, p: Parts) {
    && (CredDef, id) in s && s[(CredDef, id)].value == p.definition && s[(CredDef, id)].settings == p.settings
    && (CredDefPrivate, id) in s && s[(CredDefPrivate, id)].value == p.privateKey
    && (KeyProof, id) in s && s[(KeyProof, id)].value == p.keyProof
  }

  /** Some name holds the n-th stored parts. */
  ghost predicate Kept(names: map<Id, nat>, n: nat) {
    exists id :: id in names && names[id] == n
  }

  /** The store is the names and nothing else, and the names are in bijection with what was stored. */
  ghost predicate Together(s: Store, names: map<Id, nat>, parts: seq<Parts>) {
    && (forall c, id :: (c, id) in s <==> id in names)
    && (forall id :: id in names ==> names[id] < |parts| && Holds(s, id, parts[names[id]]))
    && (forall id, id' :: id in names && id' in names && names[id] == names[id'] ==> id == id')
    && (forall n :: 0 <= n < |parts| ==> Kept(names, n))
  }

  lemma StoreTogether(s: Store, names: map<Id, nat>, parts: seq<Parts>, op: Op)
    requires Together(s, names, parts) && op.StoreOp?
    ensures Attempt(s, op).Some? <==> op.id !in names
    ensures Attempt(s, op).Some? ==> Together(Attempt(s, op).value, names[op.id := |parts|], parts + [op.parts])
  {
    assert (CredDef, op.id) in s <==> op.id in names;
    assert (CredDefPrivate, op.id) in s <==> op.id in names;
    assert (KeyProof, op.id) in s <==> op.id in names;
    if op.id !in names {
      var s', names' := Attempt(s, op).value, names[op.id := |parts|];
      forall c, id ensures (c, id) in s' <==> id in names' {
        assert (c, id) in s <==> id in names;
        match c
        case CredDef =>
        case CredDefPrivate =>
        case KeyProof =>
      }
      forall n | 0 <= n < |parts + [op.parts]| ensures Kept(names', n) {
        if n < |parts| {
          assert Kept(names, n);
          var id :| id in names && names[id] == n;
          assert id in names' && names'[id] == n;
        } else {
          assert op.id in names' && names'[op.id] == n;
        }
      }
      forall id | id in names' ensures names'[id] < |parts| + 1 && Holds(s', id, (parts + [op.parts])[names'[id]]) {
        if id != op.id {
          assert Holds(s, id, parts[names[id]]);
        }
      }
    }
  }

  /** Every record under the job id moves; every other record stays. */
  ghost predicate Moved(s: Store, s': Store, job: Id, id: Id) {
    && (forall c, x :: (c, x) in s' <==> x == id || (x != job && (c, x) in s))
    && (forall c, x :: x != job && x != id && (c, x) in s ==> s'[(c, x)] == s[(c, x)])
    && (forall c :: (c, job) in s ==> (c, id) in s' && s'[(c, id)] == s[(c, job)].(state := Some(Finished)))
  }

  lemma FinishMoves(s: Store, job: Id, id: Id)
    requires forall c :: (c, job) in s && (c, id) !in s
    ensures FinishParts(s, job, id).Some? && Moved(s, FinishParts(s, job, id).value, job, id)
  {
    assert (CredDef, job) in s && (CredDefPrivate, job) in s && (KeyProof, job) in s;
    assert (CredDef, id) !in s && (CredDefPrivate, id) !in s && (KeyProof, id) !in s;
    var s' := FinishParts(s, job, id).value;
    forall c, x ensures (c, x) in s' <==> x == id || (x != job && (c, x) in s) {
      match c
      case CredDef =>
      case CredDefPrivate =>
      case KeyProof =>
    }
    forall c ensures (c, id) in s' && s'[(c, id)] == s[(c, job)].(state := Some(Finished)) {
      match c
      case CredDef =>
      case CredDefPrivate =>
      case KeyProof =>
    }
  }

  lemma FinishTogether(s: Store, names: map<Id, nat>, parts: seq<Parts>, op: Op)
    requires Together(s, names, parts) && op.FinishOp?
    ensures Attempt(s, op).Some? <==> op.job in names && op.id !in names
    ensures Attempt(s, op).Some? ==>
      && Together(Attempt(s, op).value, names[op.id := names[op.job]] - {op.job}, parts)
      && Moved(s, Attempt(s, op).value, op.job, op.id)
  {
    assert (CredDef, op.job) in s <==> op.job in names;
    assert (CredDef, op.id) in s <==> op.id in names;
    if op.job in names && op.id !in names {
      FinishMoves(s, op.job, op.id);
      RenamedTogether(s, Attempt(s, op).value, names, parts, op.job, op.id);
    }
  }

  lemma RenamedHolds(s: Store, s': Store, names: map<Id, nat>, parts: seq<Parts>, job: Id, id: Id, x: Id)
    requires Together(s, names, parts) && job in names && id !in names && Moved(s, s', job, id)
    requires x in names[id := names[job]] - {job}
    ensures var n := names[id := names[job]][x]; n < |parts| && Holds(s', x, parts[n])
  {
    var n := names[id := names[job]][x];
    assert Holds(s, if x == id then job else x, parts[n]);
  }

  lemma RenamedKept(names: map<Id, nat>, parts: seq<Parts>, job: Id, id: Id)
    requires job in names && id !in names && forall n :: 0 <= n < |parts| ==> Kept(names, n)
    ensures var names' := names[id := names[job]] - {job}; forall n :: 0 <= n < |parts| ==> Kept(names', n)
  {
    var names' := names[id := names[job]] - {job};
    forall n | 0 <= n < |parts| ensures Kept(names', n) {
      assert Kept(names, n);
      var x :| x in names && names[x] == n;
      var x' := if x == job then id else x;
      assert x' in names' && names'[x'] == n;
    }
  }

  lemma RenamedTogether(s: Store, s': Store, names: map<Id, nat>, parts: seq<Parts>, job: Id, id: Id)
    requires Together(s, names, parts) && job in names && id !in names && Moved(s, s', job, id)
    ensures Together(s', names[id := names[job]] - {job}, parts)
  {
    var names' := names[id := names[job]] - {job};
    RenamedKept(names, parts, job, id);
    forall x | x in names' ensures names'[x] < |parts| && Holds(s', x, parts[names'[x]]) {
      RenamedHolds(s, s', names, parts, job, id, x);
    }
  }

  /** Over every run of stores and finishes, failed ones included: the three categories have the same names; no
      part is lost, duplicated or mixed up; and every value and setting is preserved from job id to registered
      id. */
  lemma {:induction false} PartsMoveTogether(run: seq<Op>)
    ensures Together(After(run), Names(run), StoredParts(run))
  {
    if run != [] {
      var init, last := run[..|run| - 1], run[|run| - 1];
      PartsMoveTogether(init);
      if last.StoreOp? {
        StoreTogether(After(init), Names(init), StoredParts(init), last);
      } else {
        FinishTogether(After(init), Names(init), StoredParts(init), last);
      }
    }
  }

  /** In a reachable wallet, a finish succeeds exactly when the job is there and the registered id is free, so
      its three moves never fail halfway; the records arrive as they were, marked finished. */
  lemma {:induction false} FinishIsAllOrNothing(run: seq<Op>, job: Id, id: Id)
    ensures var s := After(run);
      && (FinishParts(s, job, id).Some? <==> (CredDef, job) in s && (CredDef, id) !in s)
      && (FinishParts(s, job, id).Some? ==> Moved(s, FinishParts(s, job, id).value, job, id))
  {
    PartsMoveTogether(run);
    FinishTogether(After(run), Names(run), StoredParts(run), FinishOp(job, id));
  }

  /** Store and finish, record by record: all three names must be free, and what is stored has the given state; for a
      finish every job must be there and every registered id be free, and each record arrives with its own value and
      settings, finished. */
  lemma StoreEffect(s: Store, id: Id, p: Parts, state: State)
    ensures StoreParts(s, id, p, state) != None <==>
            (CredDef, id) !in s && (CredDefPrivate, id) !in s && (KeyProof, id) !in s
    ensures StoreParts(s, id, p, state) != None ==>
            StoreParts(s, id, p, state).value ==
            s[(CredDef, id) := Record(p.definition, Some(state), p.settings)]
             [(CredDefPrivate, id) := Record(p.privateKey, None, "")]
             [(KeyProof, id) := Record(p.keyProof, None, "")]
  {
  }

  lemma FinishEffect(s: Store, job: Id, id: Id)
    ensures FinishParts(s, job, id) != None <==>
            && (CredDef, job) in s && (CredDefPrivate, job) in s && (KeyProof, job) in s
            && (CredDef, id) !in s && (CredDefPrivate, id) !in s && (KeyProof, id) !in s
    ensures FinishParts(s, job, id) != None ==>
      var s' := FinishParts(s, job, id).value;
      && (forall c, x :: (c, x) in s' <==> x == id || (x != job && (c, x) in s))
      && (forall c, x :: x != job && x != id && (c, x) in s ==> s'[(c, x)] == s[(c, x)])
      && (forall c :: (c, job) in s ==>
            (c, id) in s' && s'[(c, id)] == Record(s[(c, job)].value, Some(Finished), s[(c, job)].settings))
  {
    if FinishParts(s, job, id) != None {
      forall c ensures (c, job) in s && (c, id) !in s {
        match c
        case CredDef =>
        case CredDefPrivate =>
        case KeyProof =>
      }
      FinishMoves(s, job, id);
    }
  }

  // ---- The class ----

  class AnonCredsIssuer {
    var store: Store

    constructor ()
      ensures store == After([])
    {
      store := map[];
    }

    /** Works on the transaction's copy; the caller commits it or drops it. */
    static method FinishRegistration(txn: Store, c: Category, job: Id, id: Id) returns (r: Option<Store>)
      ensures r == FinishPart(txn, c, job, id)
      ensures r == None <==> (c, job) !in txn || (c, id) in txn
      ensures r != None ==>
        r.value == txn[(c, id) := Record(txn[(c, job)].value, Some(Finished), txn[(c, job)].settings)] - {(c, job)}
    {
      if (c, job) !in txn || (c, id) in txn {
        return None;
      }
      var s := txn[(c, id) := txn[(c, job)].(state := Some(Finished))];
      r := Some(s - {(c, job)});
    }

    /** Returns whether a finished event follows. */
    method StoreCredentialDefinition(id: Id, p: Parts, state: State) returns (ok: bool, notified: bool)
      modifies this
      ensures ok == StoreParts(old(store), id, p, state).Some?
      ensures store == if ok then StoreParts(old(store), id, p, state).value else old(store)
      ensures notified <==> ok && state == Finished
      ensures ok <==>
        (CredDef, id) !in old(store) && (CredDefPrivate, id) !in old(store) && (KeyProof, id) !in old(store)
      ensures ok ==>
        store == old(store)[(CredDef, id) := Record(p.definition, Some(state), p.settings)]
                           [(CredDefPrivate, id) := Record(p.privateKey, None, "")]
                           [(KeyProof, id) := Record(p.keyProof, None, "")]
      ensures !ok ==> store == old(store)
    {
      if (CredDef, id) in store || (CredDefPrivate, id) in store || (KeyProof, id) in store {
        return false, false;
      }
      var txn := store[(CredDef, id) := Record(p.definition, Some(state), p.settings)];
      txn := txn[(CredDefPrivate, id) := Record(p.privateKey, None, "")];
      txn := txn[(KeyProof, id) := Record(p.keyProof, None, "")];
      store := txn;
      ok, notified := true, state == Finished;
    }

    /** Returns the settings that the finished event carries. */
    method FinishCredDef(job: Id, id: Id) returns (settings: Option<string>)
      modifies this
      ensures settings.Some? <==> FinishParts(old(store), job, id).Some?
      ensures store == if settings.Some? then FinishParts(old(store), job, id).value else old(store)
      ensures settings.Some? ==> (CredDef, job) in old(store) && settings.value == old(store)[(CredDef, job)].settings
      ensures settings != None <==>
        && (CredDef, job) in old(store) && (CredDefPrivate, job) in old(store) && (KeyProof, job) in old(store)
        && (CredDef, id) !in old(store) && (CredDefPrivate, id) !in old(store) && (KeyProof, id) !in old(store)
    {
      FinishEffect(store, job, id);
      settings := None;
      var s1 := FinishRegistration(store, CredDef, job, id);
      if s1.None? {
        return;
      }
      var s2 := FinishRegistration(s1.value, CredDefPrivate, job, id);
      if s2.None? {
        return;
      }
      var s3 := FinishRegistration(s2.value, KeyProof, job, id);
      if s3.None? {
        return;
      }
      settings := Some(store[(CredDef, job)].settings);
      store := s3.value;
    }
  }
}
