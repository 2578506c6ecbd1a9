/** The single-flight lock on cache keys: the first task to ask for a key leads, later ones follow it and are
    handed its result (acapy_agent/cache/base.py). Locks are numbered in the order of their acquisition. Garbage
    collection is not a step: the table keeps a registered leader alive, and deleting any other lock changes
    nothing. */
module CacheKeyLocks {
  import opened Prelude

  type Key = string

  /** `Empty` stands for None and every other falsy result. */
  datatype Value = Empty | Present(content: string)

  /** Outside: not yet entered; Looking: about to consult the cache. */
  datatype Phase = Outside | Looking | Inside | Left

  /** `future` is None until done; `called` says that the parent's done callback has run. */
  datatype Lock = Lock(key: Key, parent: Option<nat>, future: Option<Value>, called: bool, phase: Phase, released: bool)

  /** The table of key locks and every lock ever acquired. */
  datatype State = State(table: map<Key, nat>, locks: seq<Lock>)

  const INIT := State(map[], [])

  datatype Step =
    | Acquire(key: Key)
    | ParentDone(lock: nat)              // the scheduled callback of a follower runs
    | Resume(lock: nat)                  // __aenter__ gets past waiting for the parent
    | Lookup(lock: nat, found: Value)    // __aenter__ consults the cache
    | SetResult(lock: nat, value: Value)
    | Exit(lock: nat)

  predicate IsLock(s: State, l: nat) { l < |s.locks| }

  function Put(s: State, l: nat, k: Lock): State
    requires IsLock(s, l)
  {
    s.(locks := s.locks[l := k])
  }

  /** The result of a lock's parent, once there is one. */
  function ParentResult(s: State, l: nat): Option<Value>
    requires IsLock(s, l)
  {
    var p := s.locks[l].parent;
    if p.Some? && IsLock(s, p.value) then s.locks[p.value].future else None
  }

  function DoAcquire(s: State, key: Key): State {
    if key in s.table then s.(locks := s.locks + [Lock(key, Some(s.table[key]), None, false, Outside, false)])
    else State(s.table[key := |s.locks|], s.locks + [Lock(key, None, None, false, Outside, false)])
  }

  function DoParentDone(s: State, l: nat): State
    requires IsLock(s, l)
  {
    var k := s.locks[l];
    if k.called || ParentResult(s, l).None? then s
    else if ParentResult(s, l).value.Present? && k.future.None? then
      Put(s, l, k.(called := true, future := ParentResult(s, l)))
    else Put(s, l, k.(called := true))
  }

  function DoResume(s: State, l: nat): State
    requires IsLock(s, l)
  {
    var k := s.locks[l];
    if k.phase != Outside then s
    else if k.parent.None? then Put(s, l, k.(phase := Looking))
    else if ParentResult(s, l).None? then s
    else if ParentResult(s, l).value.Empty? then Put(s, l, k.(phase := Looking))
    else if k.future.None? then s
    else Put(s, l, k.(phase := Inside))
  }

  function DoLookup(s: State, l: nat, found: Value): State
    requires IsLock(s, l)
  {
    var k := s.locks[l];
    if k.phase != Looking || (found.Present? && k.future.Some?) then s
    else if found.Present? then Put(s, l, k.(phase := Inside, future := Some(found)))
    else Put(s, l, k.(phase := Inside))
  }

  /** A result may be set once, by whoever holds the lock object, inside the body or not. */
  predicate CanSetResult(s: State, l: nat) {
    IsLock(s, l) && s.locks[l].future.None?
  }

  function DoSetResult(s: State, l: nat, value: Value): State
    requires IsLock(s, l)
  {
    if CanSetResult(s, l) then Put(s, l, s.locks[l].(future := Some(value))) else s
  }

  /** Only an unreleased leader touches the table. */
  function Release(s: State, l: nat): State
    requires IsLock(s, l)
  {
    var k := s.locks[l];
    if k.parent.None? && !k.released then State(s.table - {k.key}, s.locks[l := k.(released := true)]) else s
  }

  function DoExit(s: State, l: nat): State
    requires IsLock(s, l)
  {
    var k := s.locks[l];
    if k.phase != Inside then s
    else Release(Put(s, l, k.(phase := Left, future := if k.future.None? then Some(Empty) else k.future)), l)
  }

  function Next(s: State, step: Step): State {
    if step.Acquire? then DoAcquire(s, step.key)
    else if !IsLock(s, step.lock) then s
    else match step
      case ParentDone(l) => DoParentDone(s, l)
      case Resume(l) => DoResume(s, l)
      case Lookup(l, found) => DoLookup(s, l, found)
      case SetResult(l, value) => DoSetResult(s, l, value)
      case Exit(l) => DoExit(s, l)
  }

  function After(run: seq<Step>): State {
    if run == [] then INIT else Next(After(run[..|run| - 1]), run[|run| - 1])
  }

  // ---- The table ----

  predicate Leads(s: State, l: nat) {
    IsLock(s, l) && s.locks[l].parent.None? && !s.locks[l].released
  }

  /** A key's table entry is exactly its one unreleased leader, and parents are themselves parentless. */
  ghost predicate TableInv(s: State) {
    && (forall key :: key in s.table ==> Leads(s, s.table[key]) && s.locks[s.table[key]].key == key)
    && (forall l: nat :: Leads(s, l) ==> s.locks[l].key in s.table && s.table[s.locks[l].key] == l)
    && (forall f :: 0 <= f < |s.locks| && s.locks[f].parent.Some? ==>
          var p := s.locks[f].parent.value;
          p < f && s.locks[p].parent.None? && s.locks[p].key == s.locks[f].key)
  }

  /** A lock changes, but not in what the table is about. */
  predicate SameRole(k: Lock, k': Lock) {
    k'.key == k.key && k'.parent == k.parent && k'.released == k.released
  }

  lemma TablePut(s: State, l: nat, k: Lock)
    requires TableInv(s) && IsLock(s, l) && SameRole(s.locks[l], k)
    ensures TableInv(Put(s, l, k))
  {
    var s' := Put(s, l, k);
    forall m: nat | Leads(s', m) ensures s'.locks[m].key in s'.table && s'.table[s'.locks[m].key] == m {
      assert Leads(s, m);
    }
  }

  lemma TableRelease(s: State, l: nat)
    requires TableInv(s) && IsLock(s, l)
    ensures TableInv(Release(s, l))
  {
    var s' := Release(s, l);
    forall m: nat | Leads(s', m) ensures s'.locks[m].key in s'.table && s'.table[s'.locks[m].key] == m {
      assert Leads(s, m);
    }
  }

  lemma TableAcquire(s: State, key: Key)
    requires TableInv(s)
    ensures TableInv(DoAcquire(s, key))
  {
    var s' := DoAcquire(s, key);
    forall m: nat | Leads(s', m) ensures s'.locks[m].key in s'.table && s'.table[s'.locks[m].key] == m {
      if m < |s.locks| {
        assert Leads(s, m);
      }
    }
  }

  /** The lock as a step leaves it, before any release. */
  function Updated(s: State, step: Step): Lock
    requires !step.Acquire? && IsLock(s, step.lock)
  {
    var k := s.locks[step.lock];
    match step
    case ParentDone(l) => DoParentDone(s, l).locks[l]
    case Resume(l) => DoResume(s, l).locks[l]
    case Lookup(l, found) => DoLookup(s, l, found).locks[l]
    case SetResult(l, value) => DoSetResult(s, l, value).locks[l]
    case Exit(l) =>
      if k.phase != Inside then k
      else k.(phase := Left, future := if k.future.None? then Some(Empty) else k.future)
  }

  /** Every step but an acquisition updates its own lock, and an exit then releases it. */
  lemma StepShape(s: State, step: Step)
    requires !step.Acquire? && IsLock(s, step.lock)
    ensures var k := Updated(s, step);
      && SameRole(s.locks[step.lock], k)
      && (s.locks[step.lock].future.Some? ==> k.future == s.locks[step.lock].future)
      && (Next(s, step) == Put(s, step.lock, k) || (Next(s, step) == Release(Put(s, step.lock, k), step.lock)
                                                     && k.phase == Left))
  {
    assert s == Put(s, step.lock, s.locks[step.lock]);
  }

  lemma TableStep(s: State, step: Step)
    requires TableInv(s)
    ensures TableInv(Next(s, step))
  {
    if step.Acquire? {
      TableAcquire(s, step.key);
    } else if IsLock(s, step.lock) {
      StepShape(s, step);
      TablePut(s, step.lock, Updated(s, step));
      TableRelease(Put(s, step.lock, Updated(s, step)), step.lock);
    }
  }

  /** Every reachable table is exact, and the graph of who waits for whom has no cycle. */
  lemma {:induction false} TableExact(run: seq<Step>)
    ensures TableInv(After(run))
  {
    if run != [] {
      TableExact(run[..|run| - 1]);
      TableStep(After(run[..|run| - 1]), run[|run| - 1]);
    }
  }

  /** A step removes a key from the table only when its own lock is the one registered there. */
  lemma ReleaseRemovesOwnLock(run: seq<Step>, step: Step, key: Key)
    requires key in After(run).table && key !in Next(After(run), step).table
    ensures step.Exit? && After(run).table[key] == step.lock
    ensures Next(After(run), step).table == After(run).table - {key}
  {
    TableExact(run);
  }

  // ---- Single flight ----

  predicate Entered(k: Lock) {
    k.phase == Inside || k.phase == Left
  }

  /** How far a lock may have got, given its parent. */
  ghost predicate LockInv(s: State, l: nat)
    requires IsLock(s, l) && TableInv(s)
  {
    var k := s.locks[l];
    && (k.phase == Left ==> k.future.Some?)
    && (k.released ==> k.phase == Left)
    && (k.parent.Some? ==> var r := s.locks[k.parent.value].future;
          && (k.called ==> r.Some? && (r.value.Present? ==> k.future.Some?))
          && (k.phase == Looking || Entered(k) ==> r.Some?)
          && (k.phase == Looking ==> r == Some(Empty))
          && (Entered(k) && r.Some? && r.value.Present? ==> k.future.Some?))
  }

  /** Whoever asks for the key after its unreleased leader follows that leader. */
  ghost predicate FlightInv(s: State) {
    && TableInv(s)
    && (forall l :: 0 <= l < |s.locks| ==> LockInv(s, l))
    && (forall l: nat, f: nat :: Leads(s, l) && l < f < |s.locks| && s.locks[f].key == s.locks[l].key ==>
          s.locks[f].parent == Some(l))
  }

  lemma FlightPut(s: State, l: nat, k: Lock)
    requires FlightInv(s) && IsLock(s, l) && SameRole(s.locks[l], k)
    requires s.locks[l].future.Some? ==> k.future == s.locks[l].future
    requires TableInv(Put(s, l, k)) && LockInv(Put(s, l, k), l)
    ensures FlightInv(Put(s, l, k))
  {
    var s' := Put(s, l, k);
    forall m | 0 <= m < |s'.locks| ensures LockInv(s', m) {
      assert LockInv(s, m);
    }
    forall m: nat, f: nat | Leads(s', m) && m < f < |s'.locks| && s'.locks[f].key == s'.locks[m].key
      ensures s'.locks[f].parent == Some(m)
    {
      assert Leads(s, m);
    }
  }

  lemma FlightRelease(s: State, l: nat)
    requires FlightInv(s) && IsLock(s, l) && s.locks[l].phase == Left
    ensures FlightInv(Release(s, l))
  {
    TableRelease(s, l);
    var s' := Release(s, l);
    forall m | 0 <= m < |s'.locks| ensures LockInv(s', m) {
      assert LockInv(s, m);
    }
    forall m: nat, f: nat | Leads(s', m) && m < f < |s'.locks| && s'.locks[f].key == s'.locks[m].key
      ensures s'.locks[f].parent == Some(m)
    {
      assert Leads(s, m);
    }
  }

  lemma FlightAcquire(s: State, key: Key)
    requires FlightInv(s)
    ensures FlightInv(DoAcquire(s, key))
  {
    TableAcquire(s, key);
    var s' := DoAcquire(s, key);
    forall m | 0 <= m < |s'.locks| ensures LockInv(s', m) {
      if m < |s.locks| {
        assert LockInv(s, m);
      }
    }
    forall m: nat, f: nat | Leads(s', m) && m < f < |s'.locks| && s'.locks[f].key == s'.locks[m].key
      ensures s'.locks[f].parent == Some(m)
    {
      assert Leads(s, m);
    }
  }

  /** The stepping lock itself stays within what its parent allows. */
  lemma OwnLock(s: State, step: Step)
    requires FlightInv(s) && !step.Acquire? && IsLock(s, step.lock)
    requires TableInv(Put(s, step.lock, Updated(s, step)))
    ensures LockInv(Put(s, step.lock, Updated(s, step)), step.lock)
  {
    assert LockInv(s, step.lock);
    var p := s.locks[step.lock].parent;
    if p.Some? {
      assert Put(s, step.lock, Updated(s, step)).locks[p.value] == s.locks[p.value];
      assert ParentResult(s, step.lock) == s.locks[p.value].future;
    }
  }

  lemma FlightStep(s: State, step: Step)
    requires FlightInv(s)
    ensures FlightInv(Next(s, step))
  {
    if step.Acquire? {
      FlightAcquire(s, step.key);
    } else if IsLock(s, step.lock) {
      var k := Updated(s, step);
      StepShape(s, step);
      TablePut(s, step.lock, k);
      OwnLock(s, step);
      FlightPut(s, step.lock, k);
      if k.phase == Left {
        FlightRelease(Put(s, step.lock, k), step.lock);
      }
    }
  }

  lemma {:induction false} FlightInvariant(run: seq<Step>)
    ensures FlightInv(After(run))
  {
    if run != [] {
      FlightInvariant(run[..|run| - 1]);
      FlightStep(After(run[..|run| - 1]), run[|run| - 1]);
    }
  }

  /** From a leader's acquisition until its future is done, no lock acquired on its key in between has entered
      its body, under any interleaving of any number of tasks. */
  lemma {:induction false} SingleFlight(run: seq<Step>, leader: nat, other: nat)
    requires IsLock(After(run), leader) && IsLock(After(run), other) && leader < other
    requires var s := After(run); s.locks[leader].parent.None? && s.locks[leader].key == s.locks[other].key
    requires After(run).locks[leader].future.None?
    ensures !Entered(After(run).locks[other])
    ensures After(run).locks[other].parent == Some(leader)
  {
    FlightInvariant(run);
    var s := After(run);
    assert LockInv(s, leader) && LockInv(s, other);
    assert Leads(s, leader);
  }

  // ---- What followers are handed ----

  /** The result that the lock's own user set, if that came first. */
  function OwnResult(run: seq<Step>, l: nat): Option<Value> {
    if run == [] then None
    else
      var init, last := run[..|run| - 1], run[|run| - 1];
      if last.SetResult? && last.lock == l && CanSetResult(After(init), l) then Some(last.value) else OwnResult(init, l)
  }

  /** Until its leader ends with a falsy result, a follower has its own result or else its leader's. */
  ghost predicate HandedInv(s: State, l: nat, own: Option<Value>)
    requires IsLock(s, l)
  {
    var k, r := s.locks[l], ParentResult(s, l);
    && (own.Some? ==> k.future == own)
    && (k.parent.Some? && own.None? && !(r.Some? && r.value.Empty?) ==> k.future.None? || k.future == r)
  }

  lemma HandedStep(s: State, step: Step, l: nat, own: Option<Value>)
    requires FlightInv(s) && IsLock(s, l) && HandedInv(s, l, own)
    ensures IsLock(Next(s, step), l)
    ensures HandedInv(Next(s, step), l,
                      if step.SetResult? && step.lock == l && CanSetResult(s, l) then Some(step.value) else own)
  {
    assert LockInv(s, l);
    if !step.Acquire? && IsLock(s, step.lock) {
      StepShape(s, step);
    }
  }

  lemma {:induction false} HandedInvariant(run: seq<Step>, l: nat)
    requires IsLock(After(run), l)
    ensures HandedInv(After(run), l, OwnResult(run, l))
  {
    var init, last := run[..|run| - 1], run[|run| - 1];
    FlightInvariant(init);
    if IsLock(After(init), l) {
      HandedInvariant(init, l);
      HandedStep(After(init), last, l, OwnResult(init, l));
    } else {
      NoResultYet(run, l);
      NewLock(After(init), last, l);
    }
  }

  lemma NewLock(s: State, step: Step, l: nat)
    requires !IsLock(s, l) && IsLock(Next(s, step), l)
    ensures HandedInv(Next(s, step), l, None)
  {
  }

  lemma {:induction false} NoResultYet(run: seq<Step>, l: nat)
    requires run != [] ==> !IsLock(After(run[..|run| - 1]), l)
    ensures OwnResult(run, l).None?
  {
    if run != [] {
      var init := run[..|run| - 1];
      if init != [] {
        LocksStay(After(init[..|init| - 1]), init[|init| - 1], l);
      }
      NoResultYet(init, l);
    }
  }

  lemma LocksStay(s: State, step: Step, l: nat)
    requires !IsLock(Next(s, step), l)
    ensures !IsLock(s, l)
  {
  }

  /** Every follower that has entered found its leader done. If the leader's result is truthy, the follower has that
      same value, unless its own user had set another before; either way no further result can be set. */
  lemma FollowersSeeResult(run: seq<Step>, f: nat)
    requires IsLock(After(run), f) && Entered(After(run).locks[f]) && After(run).locks[f].parent.Some?
    ensures var s, own := After(run), OwnResult(run, f);
      && ParentResult(s, f).Some?
      && (ParentResult(s, f).value.Present? ==>
            && s.locks[f].future == (if own.Some? then own else ParentResult(s, f))
            && !CanSetResult(s, f))
  {
    FlightInvariant(run);
    HandedInvariant(run, f);
    assert LockInv(After(run), f);
  }

  /** Once the leader's result is truthy, a waiting follower gets in after its callback: nobody is left behind. */
  lemma FollowersGetIn(run: seq<Step>, f: nat)
    requires IsLock(After(run), f) && After(run).locks[f].parent.Some? && After(run).locks[f].phase == Outside
    requires ParentResult(After(run), f).Some?
    ensures var s, own := Next(Next(After(run), ParentDone(f)), Resume(f)), OwnResult(run, f);
      && s.locks[f].phase == (if ParentResult(After(run), f).value.Present? then Inside else Looking)
      && (s.locks[f].phase == Inside ==> s.locks[f].future == if own.Some? then own else ParentResult(After(run), f))
  {
    FlightInvariant(run);
    HandedInvariant(run, f);
    assert LockInv(After(run), f);
  }

  // ---- The way through the cache ----

  /** A leader that is outside gets past its wait to the cache at once. */
  lemma LeaderGoesToCache(run: seq<Step>, l: nat)
    requires IsLock(After(run), l) && After(run).locks[l].parent == None && After(run).locks[l].phase == Outside
    ensures var k := After(run).locks[l];
      Next(After(run), Resume(l)).locks[l] == Lock(k.key, None, k.future, k.called, Looking, k.released)
  {
  }

  /** There a value that is found becomes the result of a lock that has none, and the lock is in; finding nothing, it
      is in with the result as it was. */
  lemma FoundValueIsResult(run: seq<Step>, l: nat, v: string)
    requires IsLock(After(run), l) && After(run).locks[l].phase == Looking
    ensures var k := After(run).locks[l];
      && (k.future == None ==>
            Next(After(run), Lookup(l, Present(v))).locks[l] ==
            Lock(k.key, k.parent, Some(Present(v)), k.called, Inside, k.released))
      && (k.future != None ==> Next(After(run), Lookup(l, Present(v))) == After(run))
      && Next(After(run), Lookup(l, Empty)).locks[l] ==
         Lock(k.key, k.parent, k.future, k.called, Inside, k.released)
  {
  }

  /** So whoever looks up a value that is in the cache leaves it to all that wait for the lock. */
  lemma CacheHitReachesFollowers(run: seq<Step>, l: nat, f: nat, v: string)
    requires IsLock(After(run), l) && After(run).locks[l].phase == Looking && After(run).locks[l].future == None
    requires IsLock(After(run), f) && After(run).locks[f].parent == Some(l) && After(run).locks[f].phase == Outside
    ensures var s := Next(Next(Next(After(run), Lookup(l, Present(v))), ParentDone(f)), Resume(f));
      && s.locks[f].phase == Inside
      && s.locks[f].future == if OwnResult(run, f).Some? then OwnResult(run, f) else Some(Present(v))
  {
    var step := Lookup(l, Present(v));
    assert (run + [step])[..|run|] == run;
    assert After(run + [step]) == Next(After(run), step);
    TableExact(run);
    FoundValueIsResult(run, l, v);
    assert f != l;
    FollowersGetIn(run + [step], f);
    assert OwnResult(run + [step], f) == OwnResult(run, f);
  }

  // ---- Leaders that never exit ----

  /** The leader's body has been left since the m-th step. */
  predicate ExitedSince(run: seq<Step>, m: nat, leader: nat)
    requires m <= |run|
  {
    m < |run| &&
    var init, last := run[..|run| - 1], run[|run| - 1];
    || ExitedSince(init, m, leader)
    || (last == Exit(leader) && IsLock(After(init), leader) && After(init).locks[leader].phase == Inside)
  }

  /** A key stays with its leader until the leader's body has been left, and only until then. */
  lemma {:induction false} KeyHeldUntilExit(run: seq<Step>, m: nat, leader: nat)
    requires m <= |run| && Leads(After(run[..m]), leader)
    ensures IsLock(After(run), leader) && After(run).locks[leader].key == After(run[..m]).locks[leader].key
    ensures Leads(After(run), leader) <==> !ExitedSince(run, m, leader)
  {
    if m == |run| {
      assert run[..m] == run;
    } else {
      var init := run[..|run| - 1];
      assert init[..m] == run[..m];
      KeyHeldUntilExit(init, m, leader);
      LeadsStep(After(init), run[|run| - 1], leader);
    }
  }

  lemma LeadsStep(s: State, step: Step, l: nat)
    requires IsLock(s, l)
    ensures IsLock(Next(s, step), l) && Next(s, step).locks[l].key == s.locks[l].key
    ensures Leads(Next(s, step), l) <==> Leads(s, l) && !(step == Exit(l) && s.locks[l].phase == Inside)
  {
  }

  /** Nothing has been done with the lock since the m-th step. */
  predicate IdleSince(run: seq<Step>, m: nat, l: nat) {
    forall n :: m <= n < |run| && !run[n].Acquire? ==> run[n].lock != l
  }

  lemma {:induction false} IdleLockUnchanged(run: seq<Step>, m: nat, l: nat)
    requires m <= |run| && IsLock(After(run[..m]), l) && IdleSince(run, m, l)
    ensures IsLock(After(run), l) && After(run).locks[l] == After(run[..m]).locks[l]
  {
    if m == |run| {
      assert run[..m] == run;
    } else {
      var init := run[..|run| - 1];
      assert init[..m] == run[..m];
      IdleLockUnchanged(init, m, l);
    }
  }

  /** A leader that is abandoned before it has a result, for instance acquired and never entered, blocks its key for
      good: the key stays registered to it, and nobody who asks for the key later ever gets in. */
  lemma AbandonedLeaderBlocks(run: seq<Step>, m: nat, leader: nat, other: nat)
    requires m <= |run| && Leads(After(run[..m]), leader) && After(run[..m]).locks[leader].future.None?
    requires IdleSince(run, m, leader)
    requires leader < other && IsLock(After(run), other)
    requires After(run).locks[other].key == After(run[..m]).locks[leader].key
    ensures var s := After(run);
      && s.locks[other].key in s.table && s.table[s.locks[other].key] == leader
      && s.locks[other].parent == Some(leader)
      && !Entered(s.locks[other])
  {
    IdleLockUnchanged(run, m, leader);
    TableExact(run);
    SingleFlight(run, leader, other);
  }

  // ---- The class ----

  class BaseCache {
    var keyLocks: map<Key, nat>
    var locks: seq<Lock>

    ghost function Contents(): State
      reads this
    {
      State(keyLocks, locks)
    }

    constructor ()
      ensures Contents() == INIT
    {
      keyLocks, locks := map[], [];
    }

    /** `setdefault`, then the parent link if someone was first. */
    method AcquireLock(key: Key) returns (l: nat)
      requires TableInv(Contents())
      modifies this
      ensures Contents() == Next(old(Contents()), Acquire(key)) && l == |old(locks)|
      ensures keyLocks == if key in old(keyLocks) then old(keyLocks) else old(keyLocks)[key := l]
      ensures locks == old(locks) +
        [Lock(key, if key in old(keyLocks) then Some(old(keyLocks)[key]) else None, None, false, Outside, false)]
    {
      l := |locks|;
      var first := l;
      if key in keyLocks {
        first := keyLocks[key];
      } else {
        keyLocks := keyLocks[key := l];
      }
      locks := locks + [Lock(key, None, None, false, Outside, false)];
      if first != l {
        locks := locks[l := locks[l].(parent := Some(first))];
      }
      assert locks == Next(old(Contents()), Acquire(key)).locks;
    }

    method HandleParentDone(l: nat)
      requires l < |locks| && TableInv(Contents()) && locks[l].parent.Some?
      modifies this`locks
      ensures Contents() == Next(old(Contents()), ParentDone(l))
      ensures var k, r := old(locks)[l], old(locks)[old(locks)[l].parent.value].future;
        locks == if k.called || r == None then old(locks)
                 else old(locks)[l := Lock(k.key, k.parent, if r != Some(Empty) && k.future == None then r else k.future,
                                           true, k.phase, k.released)]
    {
      var p := locks[l].parent.value;
      if locks[p].future.Some? && !locks[l].called {
        locks := locks[l := locks[l].(called := true)];
        if locks[p].future.value.Present? && locks[l].future.None? {
          locks := locks[l := locks[l].(future := locks[p].future)];
        }
      }
    }

    /** `__aenter__` after its wait for the parent: a follower with a truthy parent is in, all others go on to the
        cache. */
    method PassParent(l: nat)
      requires l < |locks| && TableInv(Contents()) && locks[l].phase == Outside
      modifies this`locks
      ensures Contents() == Next(old(Contents()), Resume(l))
      ensures var k := old(locks)[l];
        locks == if k.parent == None || old(locks)[k.parent.value].future == Some(Empty)
                 then old(locks)[l := Lock(k.key, k.parent, k.future, k.called, Looking, k.released)]
                 else if old(locks)[k.parent.value].future == None || k.future == None then old(locks)
                 else old(locks)[l := Lock(k.key, k.parent, k.future, k.called, Inside, k.released)]
    {
      if locks[l].parent.Some? {
        var result := locks[locks[l].parent.value].future;
        if result.None? {
          return;
        }
        if result.value.Present? {
          if locks[l].future.Some? {
            locks := locks[l := locks[l].(phase := Inside)];
          }
          return;
        }
      }
      locks := locks[l := locks[l].(phase := Looking)];
    }

    /** Raises, and so does not enter, when the cache has a value but a result is already set. */
    method ConsultCache(l: nat, found: Value) returns (ok: bool)
      requires l < |locks| && locks[l].phase == Looking
      modifies this`locks
      ensures Contents() == Next(old(Contents()), Lookup(l, found))
      ensures ok <==> found.Empty? || old(locks[l].future).None?
      ensures var k := old(locks)[l];
        locks == if !ok then old(locks)
                 else old(locks)[l := Lock(k.key, k.parent, if found == Empty then k.future else Some(found), k.called,
                                           Inside, k.released)]
    {
      if found.Present? {
        if locks[l].future.Some? {
          return false;
        }
        locks := locks[l := locks[l].(future := Some(found))];
      }
      locks := locks[l := locks[l].(phase := Inside)];
      ok := true;
    }

    /** Refuses a second result; says whether the value is also written to the cache. */
    method SetLockResult(l: nat, value: Value) returns (ok: bool, cached: bool)
      requires l < |locks| && TableInv(Contents())
      modifies this`locks
      ensures Contents() == Next(old(Contents()), SetResult(l, value))
      ensures ok <==> old(locks[l].future).None?
      ensures var k := old(locks)[l];
        locks == if !ok then old(locks)
                 else old(locks)[l := Lock(k.key, k.parent, Some(value), k.called, k.phase, k.released)]
      ensures cached <==> ok && (locks[l].parent.None? || locks[locks[l].parent.value].future.Some?)
    {
      if locks[l].future.Some? {
        return false, false;
      }
      locks := locks[l := locks[l].(future := Some(value))];
      cached := locks[l].parent.None? || locks[locks[l].parent.value].future.Some?;
      ok := true;
    }

    method ReleaseLock(l: nat)
      requires l < |locks|
      modifies this
      ensures Contents() == Release(old(Contents()), l)
    {
      if locks[l].parent.None? && !locks[l].released {
        if locks[l].key in keyLocks {
          keyLocks := keyLocks - {locks[l].key};
        }
        locks := locks[l := locks[l].(released := true)];
      }
    }

    method ExitLock(l: nat)
      requires l < |locks| && locks[l].phase == Inside
      modifies this
      ensures Contents() == Next(old(Contents()), Exit(l))
      ensures var k := old(locks)[l];
        && locks == old(locks)[l := Lock(k.key, k.parent, if k.future == None then Some(Empty) else k.future, k.called,
                                         Left, k.parent == None || k.released)]
        && keyLocks == if k.parent == None && !k.released then old(keyLocks) - {k.key} else old(keyLocks)
    {
      if locks[l].future.None? {
        locks := locks[l := locks[l].(future := Some(Empty))];
      }
      locks := locks[l := locks[l].(phase := Left)];
      ReleaseLock(l);
    }
  }
}
