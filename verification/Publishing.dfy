/** Publishing of revocations: how one attempt sorts the requested ids, what a commit writes, and the
    optimistic compare-and-retry loop around it (acapy_agent/anoncreds/revocation.py). */
module Publishing {
  import opened Prelude
  import opened RevocationWallet

  // ---- Declarative specification of one attempt ----

  /** Every id this attempt has to account for: the stored pending ones, then the caller's. */
  function Requests(v: ListValue, additional: seq<int>): seq<int> {
    Pending(v) + additional
  }

  predicate Issued(v: ListValue, max: int, id: int) {
    1 <= id <= max && id < v.nextIndex
  }

  /** An issued id for which the native list has no bit: reading it raises. */
  predicate BeyondList(v: ListValue, max: int, id: int) {
    Issued(v, max, id) && |v.bits| <= id
  }

  predicate Revocable(v: ListValue, max: int, id: int) {
    Issued(v, max, id) && id < |v.bits| && !v.bits[id]
  }

  predicate Readable(v: ListValue, max: int, additional: seq<int>) {
    forall id :: id in Requests(v, additional) ==> !BeyondList(v, max, id)
  }

  function Eligible(v: ListValue, max: int, additional: seq<int>): set<int> {
    set id | id in Requests(v, additional) && Revocable(v, max, id)
  }

  function Rejected(v: ListValue, max: int, additional: seq<int>): set<int> {
    set id | id in Requests(v, additional) && !Revocable(v, max, id)
  }

  function Skipped(v: ListValue, max: int, additional: seq<int>, limit: Option<set<int>>): set<int> {
    if limit.None? then {} else Eligible(v, max, additional) - limit.value
  }

  function Revoked(v: ListValue, max: int, additional: seq<int>, limit: Option<set<int>>): set<int> {
    Eligible(v, max, additional) - Skipped(v, max, additional, limit)
  }

  /** The native status list update: exactly these bits are set. */
  function SetBits(bits: seq<bool>, ids: set<int>): seq<bool> {
    seq(|bits|, i requires 0 <= i < |bits| => bits[i] || i in ids)
  }

  /** `order` lists the elements of `s`, each once. */
  predicate Enumerates(order: seq<int>, s: set<int>) {
    && (forall i, j :: 0 <= i < j < |order| ==> order[i] != order[j])
    && (set x | x in order) == s
  }

  /** What a successful publication makes of the record it finds. */
  function Publish(e: ListEntry, max: int, additional: seq<int>, limit: Option<set<int>>, stamp: int, order: seq<int>): ListEntry {
    var skipped := Skipped(e.value, max, additional, limit);
    ListEntry(
      e.value.(bits := SetBits(e.value.bits, Revoked(e.value, max, additional, limit)),
               stamp := stamp,
               pending := if skipped == {} then None else Some(order)),
      e.state,
      skipped != {})
  }

  /** Publishing conserves requests: each one is revoked, rejected or skipped, never two of these; the bits
      change at exactly the revoked ids; what stays pending is exactly the skipped ids, all still revocable. */
  lemma PublishConserves(e: ListEntry, max: int, additional: seq<int>, limit: Option<set<int>>, stamp: int, order: seq<int>)
    requires Enumerates(order, Skipped(e.value, max, additional, limit))
    ensures
      var v, v' := e.value, Publish(e, max, additional, limit, stamp, order).value;
      var revoked, failed, skipped :=
        Revoked(v, max, additional, limit), Rejected(v, max, additional), Skipped(v, max, additional, limit);
      && (set id | id in Requests(v, additional)) == revoked + failed + skipped
      && revoked !! failed !! skipped
      && |v'.bits| == |v.bits|
      && (forall i :: 0 <= i < |v.bits| ==> (v'.bits[i] != v.bits[i] <==> i in revoked))
      && (forall i :: 0 <= i < |v.bits| && v.bits[i] ==> v'.bits[i])
      && v'.nextIndex == v.nextIndex
      && (set id | id in Pending(v')) == skipped
      && (forall id :: id in Pending(v') ==> Revocable(v', max, id))
      && (limit.Some? ==> revoked <= limit.value && skipped !! limit.value)
  {
    var v, v' := e.value, Publish(e, max, additional, limit, stamp, order).value;
    var revoked, skipped := Revoked(v, max, additional, limit), Skipped(v, max, additional, limit);
    assert (set id | id in Pending(v')) == skipped;
    forall id | id in Pending(v') ensures Revocable(v', max, id) {
      assert id in skipped;
    }
  }

  /** Publishing a second time, whether nothing is asked for or some of the same ids again, changes no bit while
      the limit stays: what was skipped is skipped again, and everything else asked for again is rejected. */
  lemma PublishIsIdempotent(e: ListEntry, max: int, additional: seq<int>, again: seq<int>, limit: Option<set<int>>, stamp: int, order: seq<int>)
    requires Enumerates(order, Skipped(e.value, max, additional, limit))
    requires forall id :: id in again ==> id in Requests(e.value, additional)
    ensures
      var e', skipped := Publish(e, max, additional, limit, stamp, order), Skipped(e.value, max, additional, limit);
      && Revoked(e'.value, max, again, limit) == {}
      && Eligible(e'.value, max, again) == skipped
      && Rejected(e'.value, max, again) == (set id | id in again) - skipped
  {
    PublishConserves(e, max, additional, limit, stamp, order);
    var e', skipped := Publish(e, max, additional, limit, stamp, order), Skipped(e.value, max, additional, limit);
    forall id | id in Requests(e'.value, again) ensures Revocable(e'.value, max, id) <==> id in skipped {
      assert id in Pending(e'.value) ==> id in skipped;
      assert id in Requests(e.value, additional);
    }
    assert forall id :: id in skipped ==> id in Pending(e'.value);
  }

  // ---- The loops of the source ----

  datatype Sorted = BadIndex(id: int) | Sorted(eligible: set<int>, failed: set<int>)

  /** The classification loop over pending and additional ids. */
  method SortRequests(v: ListValue, max: int, additional: seq<int>) returns (r: Sorted)
    ensures r.BadIndex? <==> !Readable(v, max, additional)
    ensures r.BadIndex? ==> r.id in Requests(v, additional) && BeyondList(v, max, r.id)
    ensures r.Sorted? ==> r.eligible == Eligible(v, max, additional) && r.failed == Rejected(v, max, additional)
  {
    var ids := Requests(v, additional);
    var eligible, failed := {}, {};
    for n := 0 to |ids|
      invariant forall id :: id in ids[..n] ==> !BeyondList(v, max, id)
      invariant eligible == set id | id in ids[..n] && Revocable(v, max, id)
      invariant failed == set id | id in ids[..n] && !Revocable(v, max, id)
    {
      var id := ids[n];
      assert ids[..n + 1] == ids[..n] + [id];
      if id < 1 || id > max {
        failed := failed + {id};
      } else if id >= v.nextIndex {
        failed := failed + {id};
      } else if id >= |v.bits| {
        assert id in ids && BeyondList(v, max, id);
        return BadIndex(id);
      } else if v.bits[id] {
        failed := failed + {id};
      } else {
        eligible := eligible + {id};
      }
    }
    assert ids[..|ids|] == ids;
    r := Sorted(eligible, failed);
  }

  method ListOf(s: set<int>) returns (order: seq<int>)
    ensures Enumerates(order, s)
    ensures (forall i, j :: 0 <= i < j < |order| ==> order[i] != order[j]) && forall x :: x in order <==> x in s
  {
    order := [];
    var rest := s;
    while rest != {}
      invariant rest <= s
      invariant forall i, j :: 0 <= i < j < |order| ==> order[i] != order[j]
      invariant (set y | y in order) == s - rest
      invariant forall x :: x in order <==> x in s && x !in rest
      decreases rest
    {
      ghost var y := Member(rest);
      var x :| x in rest;
      assert x !in (set y | y in order);
      assert (set y | y in order + [x]) == (set y | y in order) + {x};
      order, rest := order + [x], rest - {x};
    }
  }

  /** One attempt as the outside world decides it: the wallet when it reads, the wallet when its transaction
      starts, whether the native update succeeds, and the clock. */
  datatype Attempt = Attempt(seen: Wallet, now: Wallet, nativeOk: bool, stamp: int)

  predicate Complete(w: Wallet, id: Id) {
    id in w.defs && id in w.lists && id in w.keys
  }

  /** Everything is there, and every id asked for can be classified. */
  predicate Classifies(a: Attempt, id: Id, additional: seq<int>) {
    Complete(a.seen, id) && Readable(a.seen.lists[id].value, a.seen.defs[id].maxCredNum, additional)
  }

  predicate FindsNothing(a: Attempt, id: Id, additional: seq<int>) {
    Classifies(a, id, additional) && Eligible(a.seen.lists[id].value, a.seen.defs[id].maxCredNum, additional) == {}
  }

  predicate FindsSome(a: Attempt, id: Id, additional: seq<int>) {
    Classifies(a, id, additional) && Eligible(a.seen.lists[id].value, a.seen.defs[id].maxCredNum, additional) != {}
  }

  /** The attempt gets as far as its transaction. */
  predicate Attempts(a: Attempt, id: Id, additional: seq<int>) {
    FindsSome(a, id, additional) && a.nativeOk
  }

  /** The attempt finds that another writer changed the record's value, so it retries. */
  predicate Conflicts(a: Attempt, id: Id, additional: seq<int>) {
    && Attempts(a, id, additional)
    && id in a.now.lists
    && a.now.lists[id].value != a.seen.lists[id].value
  }

  datatype Outcome =
    | MissingData
    | IndexMissing
    | NativeFailure
    | RepeatedConflict
    | NothingToDo
    | ListGone
    | Committed(entry: ListEntry)

  const MAX_ATTEMPT := 5

  /** The list that an attempt computes, whether or not it gets to store it. */
  function ComputedBits(a: Attempt, id: Id, additional: seq<int>, limit: Option<set<int>>): seq<bool>
    requires Complete(a.seen, id)
  {
    var v := a.seen.lists[id].value;
    SetBits(v.bits, Revoked(v, a.seen.defs[id].maxCredNum, additional, limit))
  }

  /** The attempts before the n-th, of which there is one at least, conflict; the n-th finds nothing eligible. */
  predicate StaleAt(history: seq<Attempt>, id: Id, additional: seq<int>, n: nat)
    requires |history| >= 4
  {
    && 1 <= n < 4
    && (forall k :: 0 <= k < n ==> Conflicts(history[k], id, additional))
    && FindsNothing(history[n], id, additional)
  }

  lemma OnlyStaleHere(history: seq<Attempt>, id: Id, additional: seq<int>, k: nat)
    requires |history| >= 4 && k < 4
    ensures !Conflicts(history[k], id, additional) ==> forall n: nat :: StaleAt(history, id, additional, n) ==> n <= k
    ensures (forall n :: 0 <= n < k ==> Conflicts(history[n], id, additional)) ==>
      forall n: nat :: StaleAt(history, id, additional, n) ==> k <= n
  {
  }

  /** A published record, field by field: the bits of what is revoked, the time stamp, and what stays pending with its
      tag; the `state` tag and `next_index` are those of the record found. */
  lemma PublishedFields(e: ListEntry, max: int, additional: seq<int>, limit: Option<set<int>>, stamp: int, order: seq<int>)
    requires Enumerates(order, Skipped(e.value, max, additional, limit))
    ensures
      var e', skipped := Publish(e, max, additional, limit, stamp, order), Skipped(e.value, max, additional, limit);
      && e'.state == e.state && e'.value.stamp == stamp && e'.value.nextIndex == e.value.nextIndex
      && |e'.value.bits| == |e.value.bits|
      && (forall i :: 0 <= i < |e.value.bits| ==>
            (e'.value.bits[i] <==> e.value.bits[i] || i in Revoked(e.value, max, additional, limit)))
      && (e'.pendingTag <==> skipped != {})
      && e'.value.pending == (if skipped == {} then None else Some(order))
      && (forall x :: x in order <==> x in skipped)
  {
    ghost var listed := set x | x in order;
    assert forall x :: x in order <==> x in listed;
  }

  lemma CommittedFields(e: ListEntry, e': ListEntry, max: int, additional: seq<int>, limit: Option<set<int>>, stamp: int)
    requires exists order ::
      Enumerates(order, Skipped(e.value, max, additional, limit)) && e' == Publish(e, max, additional, limit, stamp, order)
    ensures
      var skipped := Skipped(e.value, max, additional, limit);
      && e'.state == e.state && e'.value.stamp == stamp && e'.value.nextIndex == e.value.nextIndex
      && |e'.value.bits| == |e.value.bits|
      && (forall i :: 0 <= i < |e.value.bits| ==>
            (e'.value.bits[i] <==> e.value.bits[i] || i in Revoked(e.value, max, additional, limit)))
      && (e'.pendingTag <==> skipped != {}) && (e'.value.pending.None? <==> skipped == {})
      && (e'.value.pending.Some? ==>
            && (forall x :: x in e'.value.pending.value <==> x in skipped)
            && (forall i, j :: 0 <= i < j < |e'.value.pending.value| ==>
                  e'.value.pending.value[i] != e'.value.pending.value[j]))
      && e'.value.bits == SetBits(e.value.bits, Revoked(e.value, max, additional, limit))
  {
    var order :|
      Enumerates(order, Skipped(e.value, max, additional, limit)) && e' == Publish(e, max, additional, limit, stamp, order);
    PublishedFields(e, max, additional, limit, stamp, order);
  }

  /** One attempt. `None` is a conflict; `updated` is the list computed, if it got that far. */
  method PublishOnce(id: Id, additional: seq<int>, limit: Option<set<int>>, a: Attempt)
    returns (out: Option<Outcome>, updated: Option<seq<bool>>, revoked: set<int>, failed: set<int>)
    ensures out.None? <==> Conflicts(a, id, additional)
    ensures out == Some(MissingData) <==> !Complete(a.seen, id)
    ensures out == Some(IndexMissing) <==> Complete(a.seen, id) && !Classifies(a, id, additional)
    ensures out == Some(NothingToDo) <==> FindsNothing(a, id, additional)
    ensures out == Some(NativeFailure) <==> FindsSome(a, id, additional) && !a.nativeOk
    ensures out == Some(ListGone) <==> Attempts(a, id, additional) && id !in a.now.lists
    ensures out.Some? ==> !out.value.RepeatedConflict?
    ensures updated == if Attempts(a, id, additional) then Some(ComputedBits(a, id, additional, limit)) else None
    ensures FindsNothing(a, id, additional) || Attempts(a, id, additional) ==>
      && revoked == Revoked(a.seen.lists[id].value, a.seen.defs[id].maxCredNum, additional, limit)
      && failed == Rejected(a.seen.lists[id].value, a.seen.defs[id].maxCredNum, additional)
    ensures out.Some? && out.value.Committed? ==>
      && Attempts(a, id, additional) && id in a.now.lists && a.now.lists[id].value == a.seen.lists[id].value
      && exists order ::
           && Enumerates(order, Skipped(a.now.lists[id].value, a.seen.defs[id].maxCredNum, additional, limit))
           && out.value.entry ==
              Publish(a.now.lists[id], a.seen.defs[id].maxCredNum, additional, limit, a.stamp, order)
  {
    updated, revoked, failed := None, {}, {};
    if !Complete(a.seen, id) {
      out := Some(MissingData);
      return;
    }
    var max, v := a.seen.defs[id].maxCredNum, a.seen.lists[id].value;
    var sorted := SortRequests(v, max, additional);
    if sorted.BadIndex? {
      out := Some(IndexMissing);
      return;
    }
    revoked, failed := sorted.eligible, sorted.failed;
    if revoked == {} {
      out := Some(NothingToDo);
      return;
    }
    var skipped := if limit.None? then {} else revoked - limit.value;
    revoked := revoked - skipped;
    if !a.nativeOk {
      out := Some(NativeFailure);
      return;
    }
    updated := Some(SetBits(v.bits, revoked));
    if id !in a.now.lists {
      out := Some(ListGone);
      return;
    }
    if a.now.lists[id].value != v {
      out := None;
      return;
    }
    var order := ListOf(skipped);
    var e := ListEntry(
      v.(bits := updated.value, stamp := a.stamp, pending := if skipped == {} then None else Some(order)),
      a.now.lists[id].state, skipped != {});
    assert e == Publish(a.now.lists[id], max, additional, limit, a.stamp, order);
    out := Some(Committed(e));
  }

  /** The whole retry loop. `history` is what the environment does around each attempt, for any interleaving
      of other writers. `curr` is the list that the caller is handed. */
  method RevokePendingCredentials(id: Id, additional: seq<int>, limit: Option<set<int>>, history: seq<Attempt>)
    returns (out: Outcome, attempts: nat, curr: Option<seq<bool>>, revoked: set<int>, failed: set<int>)
    requires |history| >= 4
    // At most four attempts run; all but the last conflicted, and the last is the first one that does not, if there
    // is one.
    ensures 1 <= attempts <= 4
    ensures forall n :: 0 <= n < attempts - 1 ==> Conflicts(history[n], id, additional)
    ensures out.RepeatedConflict? <==> Conflicts(history[attempts - 1], id, additional)
    ensures out.RepeatedConflict? ==> attempts == 4
    // What the last attempt met with decides the outcome.
    ensures out.MissingData? <==> !Complete(history[attempts - 1].seen, id)
    ensures out.IndexMissing? <==>
      Complete(history[attempts - 1].seen, id) && !Classifies(history[attempts - 1], id, additional)
    ensures out.NothingToDo? <==> FindsNothing(history[attempts - 1], id, additional)
    ensures out.NativeFailure? <==> FindsSome(history[attempts - 1], id, additional) && !history[attempts - 1].nativeOk
    ensures out.ListGone? <==>
      Attempts(history[attempts - 1], id, additional) && id !in history[attempts - 1].now.lists
    ensures out.Committed? <==>
      && Attempts(history[attempts - 1], id, additional)
      && id in history[attempts - 1].now.lists
      && !Conflicts(history[attempts - 1], id, additional)
    // Linearizability: a commit is the pure function of the record as it stood when it committed.
    ensures out.Committed? ==>
      var a := history[attempts - 1];
      var max, e := a.seen.defs[id].maxCredNum, a.now.lists[id];
      && (exists order ::
            && Enumerates(order, Skipped(e.value, max, additional, limit))
            && out.entry == Publish(e, max, additional, limit, a.stamp, order))
      && curr == Some(out.entry.value.bits)
    // Field by field: the bits of what it revokes, the time stamp, and what stays pending with its tag; the state tag
    // and `next_index` are those that it found.
    ensures out.Committed? ==>
      var a := history[attempts - 1];
      var e, e' := a.now.lists[id], out.entry;
      var skipped := Skipped(e.value, a.seen.defs[id].maxCredNum, additional, limit);
      && e'.state == e.state && e'.value.stamp == a.stamp && e'.value.nextIndex == e.value.nextIndex
      && |e'.value.bits| == |e.value.bits|
      && (forall i :: 0 <= i < |e.value.bits| ==> (e'.value.bits[i] <==> e.value.bits[i] || i in revoked))
      && (e'.pendingTag <==> skipped != {}) && (e'.value.pending.None? <==> skipped == {})
      && (e'.value.pending.Some? ==>
            && (forall x :: x in e'.value.pending.value <==> x in skipped)
            && (forall i, j :: 0 <= i < j < |e'.value.pending.value| ==>
                  e'.value.pending.value[i] != e'.value.pending.value[j]))
    ensures out.Committed? || out.NothingToDo? || out.ListGone? ==>
      var a := history[attempts - 1];
      var max, v := a.seen.defs[id].maxCredNum, a.seen.lists[id].value;
      revoked == Revoked(v, max, additional, limit) && failed == Rejected(v, max, additional)
    // A list is returned without having been stored exactly when conflicts precede an attempt that finds nothing;
    // it is the list of the last attempt that conflicted.
    ensures curr.Some? && !out.Committed? <==> exists n :: StaleAt(history, id, additional, n)
    ensures curr.Some? && !out.Committed? ==>
      && attempts >= 2 && Complete(history[attempts - 2].seen, id)
      && curr == Some(ComputedBits(history[attempts - 2], id, additional, limit))
  {
    attempts, curr, revoked, failed := 0, None, {}, {};
    var updated: Option<seq<bool>> := None;
    while attempts + 1 < MAX_ATTEMPT
      invariant attempts < MAX_ATTEMPT
      invariant forall n :: 0 <= n < attempts ==> Conflicts(history[n], id, additional)
      invariant curr.None?
      invariant updated ==
        if attempts == 0 then None else Some(ComputedBits(history[attempts - 1], id, additional, limit))
    {
      var a := history[attempts];
      OnlyStaleHere(history, id, additional, attempts);
      attempts := attempts + 1;
      var o, computed, r, f := PublishOnce(id, additional, limit, a);
      revoked, failed := r, f;
      if o.Some? {
        out := o.value;
        if out.NothingToDo? {
          curr := updated;
          assert curr.Some? ==> StaleAt(history, id, additional, attempts - 1);
        } else if out.Committed? {
          curr := computed;
          CommittedFields(a.now.lists[id], out.entry, a.seen.defs[id].maxCredNum, additional, limit, a.stamp);
        }
        return;
      }
      updated := computed;
    }
    out := RepeatedConflict;
  }

  /** Such histories occur: take any publication of pending ids, and let another writer clear them between its read
      and its transaction. The list handed to the caller has their bits set; the stored list has them clear. */
  lemma ClearingLeavesStaleList(w: Wallet, id: Id, limit: Option<set<int>>, stamp: int)
    requires FindsSome(Attempt(w, w, true, stamp), id, [])
    ensures var w' := ClearPending(w, id);
      var first, second := Attempt(w, w', true, stamp), Attempt(w', w', true, stamp);
      && StaleAt([first, second, second, second], id, [], 1)
      && forall i :: i in Revoked(w.lists[id].value, w.defs[id].maxCredNum, [], limit) ==>
           ComputedBits(first, id, [], limit)[i] && !w'.lists[id].value.bits[i]
  {
    var w', v := ClearPending(w, id), w.lists[id].value;
    var i := Member(Eligible(v, w.defs[id].maxCredNum, []));
    assert i in Pending(v);
    assert w'.lists[id].value != v && Requests(w'.lists[id].value, []) == [];
  }
}
