/** The stored records of the AnonCreds revocation manager and the atomic writes it performs on them.

    Every function below is one `profile.transaction()` or one single insert or replace of
    acapy_agent/anoncreds/revocation.py: other tasks may act before and after it, never inside it. Issuance and the
    status update fetch a record first and replace it later without comparing; only their replace is here. */
module RevocationWallet {
  import opened Prelude

  /** Names of wallet records: registered ids and job ids alike. */
  type Id = string

  datatype DefState = Finished | Failed | Action | Wait | Decommissioned | Full

  datatype ListState = ListFinished | ListFailed | ListAction | ListWait

  /** A registry definition: the stored value, then its `state` and `active` tags. */
  datatype RegDef = RegDef(credDef: Id, maxCredNum: int, state: DefState, active: bool)

  /** The JSON value of a revocation list record; `bits[i]` means that credential i is revoked. */
  datatype ListValue = ListValue(bits: seq<bool>, stamp: int, nextIndex: int, pending: Option<seq<int>>)

  /** A revocation list record: its value, then its `state` and `pending` tags. */
  datatype ListEntry = ListEntry(value: ListValue, state: ListState, pendingTag: bool)

  /** The three wallet categories: definitions, private keys and lists. */
  datatype Wallet = Wallet(defs: map<Id, RegDef>, keys: set<Id>, lists: map<Id, ListEntry>)

  const EMPTY: Wallet := Wallet(map[], {}, map[])

  /** No record has this name. */
  predicate FreshName(w: Wallet, id: Id) {
    id !in w.defs && id !in w.keys && id !in w.lists
  }

  function Pending(v: ListValue): seq<int> {
    if v.pending.Some? then v.pending.value else []
  }

  // ---- Registry definitions ----

  function StoreDef(w: Wallet, id: Id, credDef: Id, max: int, state: DefState): Wallet {
    if id in w.defs || id in w.keys then w
    else w.(defs := w.defs[id := RegDef(credDef, max, state, false)], keys := w.keys + {id})
  }

  /** Job and registered id are such that a finish can move the definition and its key. */
  predicate MovesDef(w: Wallet, job: Id, id: Id) {
    job in w.defs && job in w.keys && id !in w.defs && id !in w.keys
  }

  /** Moves a definition and its private key from the job id to the registered id. */
  function FinishDef(w: Wallet, job: Id, id: Id): Wallet {
    if !MovesDef(w, job, id) then w
    else w.(defs := w.defs[id := w.defs[job].(state := Finished)] - {job}, keys := w.keys + {id} - {job})
  }

  /** Activates `id` and deactivates every other registry of its credential definition. */
  function SetActive(w: Wallet, id: Id): Wallet {
    if id !in w.defs || w.defs[id].active then w
    else w.(defs := map r | r in w.defs ::
      if r == id then w.defs[r].(active := true)
      else if w.defs[r].credDef == w.defs[id].credDef then w.defs[r].(active := false)
      else w.defs[r])
  }

  function MarkFull(w: Wallet, id: Id): Wallet {
    if id !in w.defs then w else w.(defs := w.defs[id := w.defs[id].(state := Full)])
  }

  /** Decommissions every registry of `credDef` that is neither waiting nor `keep`. */
  function DecommissionAll(w: Wallet, credDef: Id, keep: Id): Wallet {
    w.(defs := map r | r in w.defs ::
      if w.defs[r].credDef == credDef && w.defs[r].state != Wait && r != keep
      then w.defs[r].(active := false, state := Decommissioned)
      else w.defs[r])
  }

  function ActiveRegistries(w: Wallet, credDef: Id): set<Id> {
    set r | r in w.defs && w.defs[r].active && w.defs[r].credDef == credDef
  }

  /** The registries that may replace a full one: finished and not active. */
  function Spares(w: Wallet, credDef: Id): set<Id> {
    set r | r in w.defs && !w.defs[r].active && w.defs[r].credDef == credDef && w.defs[r].state == Finished
  }

  // ---- Revocation lists ----

  /** A new list: `length` bits, all clear, as the native library creates it; index 0 is never issued. */
  function NewList(length: nat, stamp: int, state: ListState): ListEntry {
    ListEntry(ListValue(seq(length, i => false), stamp, 1, None), state, false)
  }

  function StoreList(w: Wallet, id: Id, length: nat, stamp: int, state: ListState): Wallet {
    if id in w.lists then w
    else w.(lists := w.lists[id := NewList(length, stamp, state)])
  }

  predicate MovesList(w: Wallet, job: Id, id: Id) {
    job in w.lists && id !in w.lists
  }

  /** Moves a list to its registered id, unless a list is already there. */
  function FinishList(w: Wallet, job: Id, id: Id): Wallet {
    if !MovesList(w, job, id) then w
    else w.(lists := w.lists[id := w.lists[job].(state := ListFinished)] - {job})
  }

  /** The blind replace at the end of a status update: the fetched record with the registrar's answer. */
  function StatusWrite(w: Wallet, id: Id, snap: ListEntry, state: ListState): Wallet {
    if id !in w.lists then w else w.(lists := w.lists[id := snap.(state := state)])
  }

  function MarkPending(w: Wallet, id: Id, crids: seq<int>): Wallet {
    if id !in w.lists then w
    else
      var e := w.lists[id];
      w.(lists := w.lists[id := e.(value := e.value.(pending := Some(Pending(e.value) + crids)), pendingTag := true)])
  }

  function ClearPending(w: Wallet, id: Id): Wallet {
    if id !in w.lists then w
    else
      var e := w.lists[id];
      w.(lists := w.lists[id := e.(value := e.value.(pending := None), pendingTag := false)])
  }

  /** The record issuance keeps in memory after its read; a failed list is finished once its tails file is up. */
  function Drawn(e: ListEntry): ListEntry {
    if e.state == ListFailed then e.(state := ListFinished) else e
  }

  /** The blind replace at the end of an issuance's index allocation. */
  function DrawWrite(w: Wallet, id: Id, snap: ListEntry): Wallet {
    if id !in w.lists then w
    else w.(lists := w.lists[id := snap.(value := snap.value.(nextIndex := snap.value.nextIndex + 1))])
  }
}
