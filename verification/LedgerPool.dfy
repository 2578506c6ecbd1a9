/** Reference counting of a ledger pool with deferred closing: any number of tasks entering and leaving ledger
    contexts, and any number of sleeping closers, around one lock (acapy_agent/ledger/indy_vdr.py). */
module LedgerPool {
  import opened Prelude

  /** What the holder of `ref_lock` is waiting for. */
  datatype Holder = Free | Opening(task: nat) | Closing(failures: nat)

  /** `live` maps each task inside a context to the handle it found; handles are numbered by their opening.
      `closers` are the scheduled closers that are neither cancelled nor finished. */
  datatype Pool = Pool(
    keepalive: bool, refCount: int, handle: Option<nat>, closeTask: Option<nat>, holder: Holder,
    live: map<nat, nat>, closers: set<nat>, nextCloser: nat, openings: nat)

  function Init(keepalive: bool): Pool {
    Pool(keepalive, 0, None, None, Free, map[], {}, 0, 0)
  }

  datatype OpenResult = Opened | NotOpened | FailedAfterHandle

  datatype Step =
    | OpenEnter(task: nat)                       // context_open takes the lock
    | OpenReturn(result: OpenResult)             // the awaited open of the lock holder returns
    | CloseEnter(task: nat)                      // context_close takes the lock
    | CloserEnter(closer: nat)                   // a closer has slept and takes the lock
    | CloseAttempt(ok: bool)                     // the lock holder tries to close the native handle

  const CLOSE_ATTEMPTS := 3

  function Cancelled(p: Pool): Pool {
    if p.closeTask.Some? then p.(closers := p.closers - {p.closeTask.value}) else p
  }

  function EnterContext(p: Pool, task: nat): Pool
    requires p.handle.Some?
  {
    p.(refCount := p.refCount + 1, live := p.live[task := p.handle.value], holder := Free)
  }

  function DoOpenEnter(p: Pool, task: nat): Pool {
    if p.holder != Free || task in p.live then p
    else if p.handle.Some? then EnterContext(Cancelled(p), task)
    else Cancelled(p).(holder := Opening(task))
  }

  function DoOpenReturn(p: Pool, result: OpenResult): Pool {
    if !p.holder.Opening? then p
    else match result
      case Opened => EnterContext(p.(handle := Some(p.openings), openings := p.openings + 1), p.holder.task)
      case NotOpened => p.(holder := Free)
      case FailedAfterHandle => p.(handle := Some(p.openings), openings := p.openings + 1, holder := Free)
  }

  /** `close`: nothing to do without a handle, otherwise attempts follow while the lock is held. */
  function StartClose(p: Pool): Pool {
    if p.handle.Some? then p.(holder := Closing(0)) else p.(holder := Free)
  }

  function DoCloseEnter(p: Pool, task: nat): Pool {
    if p.holder != Free || task !in p.live then p
    else
      var q := p.(refCount := p.refCount - 1, live := p.live - {task});
      if q.refCount != 0 then q
      else if q.keepalive then
        q.(closers := q.closers + {q.nextCloser}, closeTask := Some(q.nextCloser), nextCloser := q.nextCloser + 1)
      else StartClose(q)
  }

  function DoCloserEnter(p: Pool, closer: nat): Pool {
    if p.holder != Free || closer !in p.closers then p
    else
      var q := p.(closers := p.closers - {closer});
      if q.refCount == 0 then StartClose(q) else q
  }

  function DoCloseAttempt(p: Pool, ok: bool): Pool {
    if !p.holder.Closing? then p
    else if ok then p.(handle := None, holder := Free)
    else if p.holder.failures + 1 < CLOSE_ATTEMPTS then p.(holder := Closing(p.holder.failures + 1))
    else p.(refCount := p.refCount + 1, closeTask := None, holder := Free)
  }

  function Next(p: Pool, step: Step): Pool {
    match step
    case OpenEnter(task) => DoOpenEnter(p, task)
    case OpenReturn(result) => DoOpenReturn(p, result)
    case CloseEnter(task) => DoCloseEnter(p, task)
    case CloserEnter(closer) => DoCloserEnter(p, closer)
    case CloseAttempt(ok) => DoCloseAttempt(p, ok)
  }

  function After(keepalive: bool, run: seq<Step>): Pool {
    if run == [] then Init(keepalive) else Next(After(keepalive, run[..|run| - 1]), run[|run| - 1])
  }

  // ---- What a run has done ----

  /** A close that gives up: its third attempt fails too. */
  predicate GivesUp(p: Pool, step: Step) {
    p.holder.Closing? && step == CloseAttempt(false) && p.holder.failures + 1 >= CLOSE_ATTEMPTS
  }

  function FailedCloses(keepalive: bool, run: seq<Step>): nat {
    if run == [] then 0
    else
      var before := FailedCloses(keepalive, run[..|run| - 1]);
      if GivesUp(After(keepalive, run[..|run| - 1]), run[|run| - 1]) then before + 1 else before
  }

  predicate FailsLate(p: Pool, step: Step) {
    p.holder.Opening? && step == OpenReturn(FailedAfterHandle)
  }

  /** `context_open` gets the lock. */
  predicate TriesToEnter(p: Pool, step: Step) {
    step.OpenEnter? && p.holder == Free && step.task !in p.live
  }

  /** Some open failed after it had obtained its handle, and nobody has tried to enter since. */
  predicate LateFailure(keepalive: bool, run: seq<Step>) {
    && run != []
    && var p, last := After(keepalive, run[..|run| - 1]), run[|run| - 1];
    && (FailsLate(p, last) || (LateFailure(keepalive, run[..|run| - 1]) && !TriesToEnter(p, last)))
  }

  // ---- Safety ----

  ghost predicate SafeInv(p: Pool, failed: nat) {
    && p.refCount == |p.live| + failed
    && (p.refCount > 0 ==> p.handle.Some?)
    && (forall t :: t in p.live ==> p.handle == Some(p.live[t]))
    && (p.handle.Some? ==> p.handle.value < p.openings)
    && (p.holder.Opening? ==> p.handle.None? && p.holder.task !in p.live)
    && (p.holder.Closing? ==> p.handle.Some? && p.refCount == 0 && p.holder.failures < CLOSE_ATTEMPTS)
  }

  lemma RemoveKey(m: map<nat, nat>, k: nat)
    requires k in m
    ensures |m - {k}| == |m| - 1
  {
    assert (m - {k}).Keys == m.Keys - {k};
  }

  lemma CloseEnterSafe(p: Pool, failed: nat, task: nat)
    requires SafeInv(p, failed)
    ensures SafeInv(DoCloseEnter(p, task), failed)
  {
    if task in p.live {
      RemoveKey(p.live, task);
    }
  }

  lemma OpenSafe(p: Pool, failed: nat, step: Step)
    requires SafeInv(p, failed) && (step.OpenEnter? || step.OpenReturn?)
    ensures SafeInv(Next(p, step), failed)
  {
  }

  lemma SafeStep(p: Pool, failed: nat, step: Step)
    requires SafeInv(p, failed)
    ensures SafeInv(Next(p, step), if GivesUp(p, step) then failed + 1 else failed)
  {
    match step
    case OpenEnter(_) => OpenSafe(p, failed, step);
    case OpenReturn(_) => OpenSafe(p, failed, step);
    case CloseEnter(task) => CloseEnterSafe(p, failed, task);
    case CloserEnter(closer) =>
    case CloseAttempt(ok) =>
  }

  /** Under every interleaving of opens, failed opens, closes, failed closes and delayed or cancelled closers:
      `ref_count` is the number of live contexts plus failed closes, and every task inside a context sees an
      open handle, the very one it entered with. */
  lemma {:induction false} ContextsSeeTheirHandle(keepalive: bool, run: seq<Step>)
    ensures SafeInv(After(keepalive, run), FailedCloses(keepalive, run))
  {
    if run != [] {
      var init := run[..|run| - 1];
      ContextsSeeTheirHandle(keepalive, init);
      SafeStep(After(keepalive, init), FailedCloses(keepalive, init), run[|run| - 1]);
    }
  }

  // ---- Pools left open ----

  /** Nobody holds the lock or is inside a context, yet the native pool is open. */
  predicate Unused(p: Pool) {
    p.holder == Free && p.live == map[] && p.handle.Some?
  }

  /** At most one closer is ever pending, the one that the next open will cancel. */
  ghost predicate CloserInv(p: Pool, late: bool) {
    && (forall c :: c in p.closers ==> p.closeTask == Some(c) && c < p.nextCloser)
    && (p.closers != {} ==> p.keepalive && p.refCount == 0 && p.handle.Some? && p.holder == Free)
    && (late ==> p.handle.Some? && p.refCount == 0 && p.holder == Free)
    && (Unused(p) && p.refCount == 0 ==> (p.closers == {} <==> late))
  }

  lemma OpenEnterKeepsCloser(p: Pool, failed: nat, late: bool, task: nat)
    requires SafeInv(p, failed) && CloserInv(p, late)
    ensures CloserInv(DoOpenEnter(p, task), late && !TriesToEnter(p, OpenEnter(task)))
  {
    if p.closeTask.Some? {
      assert p.closers - {p.closeTask.value} == {};
    }
  }

  lemma CloseEnterKeepsCloser(p: Pool, failed: nat, late: bool, task: nat)
    requires SafeInv(p, failed) && CloserInv(p, late)
    ensures CloserInv(DoCloseEnter(p, task), late)
  {
    if p.holder == Free && task in p.live {
      RemoveKey(p.live, task);
      assert p.refCount > 0 && p.closers == {};
      assert p.closers + {p.nextCloser} == {p.nextCloser};
    }
  }

  lemma CloserEnterKeepsCloser(p: Pool, failed: nat, late: bool, closer: nat)
    requires SafeInv(p, failed) && CloserInv(p, late)
    ensures CloserInv(DoCloserEnter(p, closer), late)
  {
    if closer in p.closers {
      assert p.closers - {closer} == {};
    }
  }

  lemma OpenReturnKeepsCloser(p: Pool, failed: nat, late: bool, result: OpenResult)
    requires SafeInv(p, failed) && CloserInv(p, late)
    ensures CloserInv(DoOpenReturn(p, result), FailsLate(p, OpenReturn(result)) || late)
  {
  }

  lemma CloseAttemptKeepsCloser(p: Pool, failed: nat, late: bool, ok: bool)
    requires SafeInv(p, failed) && CloserInv(p, late)
    ensures CloserInv(DoCloseAttempt(p, ok), late)
  {
  }

  lemma CloserStep(p: Pool, failed: nat, late: bool, step: Step)
    requires SafeInv(p, failed) && CloserInv(p, late)
    ensures CloserInv(Next(p, step), FailsLate(p, step) || (late && !TriesToEnter(p, step)))
  {
    match step
    case OpenEnter(task) => OpenEnterKeepsCloser(p, failed, late, task);
    case OpenReturn(result) => OpenReturnKeepsCloser(p, failed, late, result);
    case CloseEnter(task) => CloseEnterKeepsCloser(p, failed, late, task);
    case CloserEnter(closer) => CloserEnterKeepsCloser(p, failed, late, closer);
    case CloseAttempt(ok) => CloseAttemptKeepsCloser(p, failed, late, ok);
  }

  lemma KeepaliveKept(p: Pool, step: Step)
    ensures Next(p, step).keepalive == p.keepalive
  {
  }

  lemma {:induction false} CloserInvariant(keepalive: bool, run: seq<Step>)
    ensures CloserInv(After(keepalive, run), LateFailure(keepalive, run))
    ensures After(keepalive, run).keepalive == keepalive
  {
    if run != [] {
      var init, last := run[..|run| - 1], run[|run| - 1];
      CloserInvariant(keepalive, init);
      ContextsSeeTheirHandle(keepalive, init);
      CloserStep(After(keepalive, init), FailedCloses(keepalive, init), LateFailure(keepalive, init), last);
      KeepaliveKept(After(keepalive, init), last);
    }
  }

  /** An open pool that nobody uses has no closer scheduled in exactly two situations: some close has given up
      after three failed attempts, or an open failed late and nobody has entered since. Without keepalive these
      are the only ways to be unused and open. */
  lemma NoCloserIff(keepalive: bool, run: seq<Step>)
    requires Unused(After(keepalive, run))
    ensures After(keepalive, run).closers == {} <==> FailedCloses(keepalive, run) > 0 || LateFailure(keepalive, run)
    ensures !keepalive ==> FailedCloses(keepalive, run) > 0 || LateFailure(keepalive, run)
  {
    CloserInvariant(keepalive, run);
    ContextsSeeTheirHandle(keepalive, run);
  }

  /** So in the other runs the pool does get closed: its closer is there, the only one. */
  lemma NotLeaked(keepalive: bool, run: seq<Step>)
    requires Unused(After(keepalive, run)) && FailedCloses(keepalive, run) == 0 && !LateFailure(keepalive, run)
    ensures keepalive && exists c :: After(keepalive, run).closers == {c} && After(keepalive, run).closeTask == Some(c)
  {
    NoCloserIff(keepalive, run);
    CloserInvariant(keepalive, run);
    var c := Member(After(keepalive, run).closers);
    assert After(keepalive, run).closers == {c};
  }

  /** When that closer gets its turn and a close attempt succeeds, the unused pool is closed. */
  lemma CloserCloses(keepalive: bool, run: seq<Step>, c: nat)
    requires c in After(keepalive, run).closers
    ensures var p := Next(Next(After(keepalive, run), CloserEnter(c)), CloseAttempt(true));
      p.handle.None? && p.holder == Free && p.closers == {}
  {
    CloserInvariant(keepalive, run);
    assert After(keepalive, run).closers == {c};
  }

  /** Once a close has given up, the pool keeps its handle through every later step, and no closer is ever
      scheduled again. */
  lemma {:induction false} GivenUpForGood(keepalive: bool, run: seq<Step>, m: nat)
    requires m <= |run| && FailedCloses(keepalive, run[..m]) > 0
    ensures FailedCloses(keepalive, run) > 0
    ensures After(keepalive, run).handle.Some? && After(keepalive, run).handle == After(keepalive, run[..m]).handle
    ensures After(keepalive, run).closers == {}
  {
    ContextsSeeTheirHandle(keepalive, run);
    CloserInvariant(keepalive, run);
    if m == |run| {
      assert run[..m] == run;
    } else {
      var init := run[..|run| - 1];
      assert init[..m] == run[..m];
      GivenUpForGood(keepalive, init, m);
      ContextsSeeTheirHandle(keepalive, init);
    }
  }

  /** One more use of the pool, and a close that works. */
  function UseAndClose(keepalive: bool, closer: nat): seq<Step> {
    [OpenEnter(0), CloseEnter(0)] + (if keepalive then [CloserEnter(closer)] else []) + [CloseAttempt(true)]
  }

  lemma AfterAppend(keepalive: bool, run: seq<Step>, step: Step)
    ensures After(keepalive, run + [step]) == Next(After(keepalive, run), step)
  {
    assert (run + [step])[..|run|] == run;
  }

  lemma UsedOnce(p: Pool)
    requires Unused(p) && p.refCount == 0
    ensures var q := Next(Next(p, OpenEnter(0)), CloseEnter(0));
      && q.refCount == 0 && q.handle.Some?
      && (if p.keepalive then q.holder == Free && p.nextCloser in q.closers else q.holder == Closing(0))
  {
    var q := Next(p, OpenEnter(0));
    assert q.live == map[0 := p.handle.value] && q.refCount == 1;
  }

  lemma AfterUse(keepalive: bool, run: seq<Step>)
    requires Unused(After(keepalive, run)) && FailedCloses(keepalive, run) == 0
    ensures var p, q := After(keepalive, run), After(keepalive, run + [OpenEnter(0)] + [CloseEnter(0)]);
      && q.refCount == 0 && q.handle.Some?
      && (if keepalive then q.holder == Free && p.nextCloser in q.closers else q.holder == Closing(0))
  {
    ContextsSeeTheirHandle(keepalive, run);
    CloserInvariant(keepalive, run);
    UsedOnce(After(keepalive, run));
    AfterAppend(keepalive, run, OpenEnter(0));
    AfterAppend(keepalive, run + [OpenEnter(0)], CloseEnter(0));
  }

  lemma UseAndCloseCloses(keepalive: bool, run: seq<Step>)
    requires Unused(After(keepalive, run)) && FailedCloses(keepalive, run) == 0
    ensures After(keepalive, run + UseAndClose(keepalive, After(keepalive, run).nextCloser)).handle.None?
  {
    var c, used := After(keepalive, run).nextCloser, run + [OpenEnter(0)] + [CloseEnter(0)];
    AfterUse(keepalive, run);
    CloserTurn(keepalive, used, c);
    var closing := used + (if keepalive then [CloserEnter(c)] else []);
    AfterAppend(keepalive, closing, CloseAttempt(true));
    assert closing + [CloseAttempt(true)] == run + UseAndClose(keepalive, c);
  }

  lemma CloserTurn(keepalive: bool, run: seq<Step>, c: nat)
    requires var p := After(keepalive, run);
      && p.refCount == 0 && p.handle.Some?
      && (if keepalive then p.holder == Free && c in p.closers else p.holder == Closing(0))
    ensures After(keepalive, run + (if keepalive then [CloserEnter(c)] else [])).holder == Closing(0)
  {
    if keepalive {
      AfterAppend(keepalive, run, CloserEnter(c));
    } else {
      assert run + [] == run;
    }
  }

  /** An unused pool is open for good exactly when a close has given up; after a late failure it is open only
      until it is used once more. */
  lemma OpenForGoodIffCloseFailed(keepalive: bool, run: seq<Step>)
    requires Unused(After(keepalive, run))
    ensures (forall steps: seq<Step> :: After(keepalive, run + steps).handle.Some?)
            <==> FailedCloses(keepalive, run) > 0
  {
    if FailedCloses(keepalive, run) > 0 {
      forall steps: seq<Step> ensures After(keepalive, run + steps).handle.Some? {
        assert (run + steps)[..|run|] == run;
        GivenUpForGood(keepalive, run + steps, |run|);
      }
    } else {
      UseAndCloseCloses(keepalive, run);
    }
  }

  /** One use of a pool whose close fails three times. */
  function FailingUse(keepalive: bool): seq<Step> {
    [OpenEnter(0), OpenReturn(Opened), CloseEnter(0)] + (if keepalive then [CloserEnter(0)] else []) +
    [CloseAttempt(false), CloseAttempt(false), CloseAttempt(false)]
  }

  /** Both situations occur, with either setting. */
  lemma PoolsLeftOpen(keepalive: bool)
    ensures Unused(After(keepalive, FailingUse(keepalive))) && FailedCloses(keepalive, FailingUse(keepalive)) > 0
    ensures var run := [OpenEnter(0), OpenReturn(FailedAfterHandle)];
      Unused(After(keepalive, run)) && FailedCloses(keepalive, run) == 0 && LateFailure(keepalive, run)
  {
    LateFailureOccurs(keepalive);
    var run := FailingUse(keepalive);
    var start := [OpenEnter(0), OpenReturn(Opened), CloseEnter(0)] + (if keepalive then [CloserEnter(0)] else []);
    ClosingOccurs(keepalive, start);
    AfterAppend(keepalive, start, CloseAttempt(false));
    var start1 := start + [CloseAttempt(false)];
    AfterAppend(keepalive, start1, CloseAttempt(false));
    var start2 := start1 + [CloseAttempt(false)];
    AfterAppend(keepalive, start2, CloseAttempt(false));
    assert run == start2 + [CloseAttempt(false)];
    assert run[..|run| - 1] == start2;
  }

  lemma LateFailureOccurs(keepalive: bool)
    ensures var run := [OpenEnter(0), OpenReturn(FailedAfterHandle)];
      Unused(After(keepalive, run)) && FailedCloses(keepalive, run) == 0 && LateFailure(keepalive, run)
  {
    var run := [OpenEnter(0), OpenReturn(FailedAfterHandle)];
    assert run[..1] == [OpenEnter(0)] && run[..1][..0] == [] && run[..|run| - 1] == run[..1];
    assert FailedCloses(keepalive, run[..1]) == FailedCloses(keepalive, []);
    assert After(keepalive, run[..1]) == Next(Init(keepalive), OpenEnter(0));
  }

  lemma ClosingOccurs(keepalive: bool, start: seq<Step>)
    requires start == [OpenEnter(0), OpenReturn(Opened), CloseEnter(0)] + (if keepalive then [CloserEnter(0)] else [])
    ensures After(keepalive, start).holder == Closing(0)
    ensures After(keepalive, start).live == map[] && After(keepalive, start).handle.Some?
  {
    AfterAppend(keepalive, [], OpenEnter(0));
    AfterAppend(keepalive, [OpenEnter(0)], OpenReturn(Opened));
    AfterAppend(keepalive, [OpenEnter(0), OpenReturn(Opened)], CloseEnter(0));
    assert [] + [OpenEnter(0)] == [OpenEnter(0)];
    assert [OpenEnter(0)] + [OpenReturn(Opened)] == [OpenEnter(0), OpenReturn(Opened)];
    var used := [OpenEnter(0), OpenReturn(Opened)] + [CloseEnter(0)];
    assert used == [OpenEnter(0), OpenReturn(Opened), CloseEnter(0)];
    assert map[0 := 0] - {0} == map[];
    if keepalive {
      AfterAppend(keepalive, used, CloserEnter(0));
      assert start == used + [CloserEnter(0)];
    } else {
      assert start == used;
    }
  }

  // ---- The class ----

  class IndyVdrLedgerPool {
    const keepalive: bool
    var refCount: int
    var handle: Option<nat>
    var closeTask: Option<nat>
    var closers: set<nat>
    var nextCloser: nat
    var openings: nat
    ghost var live: map<nat, nat>

    /** The pool as seen while nobody holds the lock. */
    ghost function Contents(): Pool
      reads this
    {
      Pool(keepalive, refCount, handle, closeTask, Free, live, closers, nextCloser, openings)
    }

    constructor (keepalive: bool)
      ensures Contents() == Init(keepalive) && this.keepalive == keepalive
      ensures refCount == 0 && handle == None && closeTask == None && closers == {} && live == map[]
    {
      this.keepalive := keepalive;
      refCount, handle, closeTask, closers, nextCloser, openings := 0, None, None, {}, 0, 0;
      live := map[];
    }

    /** Nothing to do without a handle; otherwise holds the lock for at most three attempts. `oks` says which
        native close calls succeed. */
    method Close(oks: seq<bool>) returns (ok: bool)
      requires |oks| == 3
      modifies this
      ensures ok <==> old(handle) == None || oks[0] || oks[1] || oks[2]
      ensures ok ==> handle == None && refCount == old(refCount) && closeTask == old(closeTask)
      ensures !ok ==> handle == old(handle) && refCount == old(refCount) + 1 && closeTask == None
      ensures live == old(live) && closers == old(closers) && nextCloser == old(nextCloser) && openings == old(openings)
      ensures Contents() == Attempted(StartClose(old(Contents())), oks)
    {
      if handle.None? {
        return true;
      }
      var attempt := 0;
      ghost var p := StartClose(Contents());
      while attempt < CLOSE_ATTEMPTS
        invariant attempt <= CLOSE_ATTEMPTS
        invariant forall n :: 0 <= n < attempt ==> !oks[n]
        invariant Contents() == old(Contents())
        invariant attempt < CLOSE_ATTEMPTS ==> Attempted(p, oks) == Attempted(p.(holder := Closing(attempt)), oks[attempt..])
        invariant attempt == CLOSE_ATTEMPTS ==> Attempted(p, oks) == DoCloseAttempt(p.(holder := Closing(2)), false)
      {
        assert oks[attempt..][0] == oks[attempt] && oks[attempt..][1..] == oks[attempt + 1..];
        if oks[attempt] {
          handle := None;
          return true;
        }
        attempt := attempt + 1;
      }
      refCount := refCount + 1;
      closeTask := None;
      ok := false;
    }

    method ContextOpen(task: nat, result: OpenResult) returns (ok: bool)
      requires task !in live
      modifies this
      ensures Contents() ==
        (if old(handle).Some? then Next(old(Contents()), OpenEnter(task))
         else Next(Next(old(Contents()), OpenEnter(task)), OpenReturn(result)))
      ensures ok <==> old(handle).Some? || result == Opened
      ensures closers == (if old(closeTask) == None then old(closers) else old(closers) - {old(closeTask).value})
      ensures closeTask == old(closeTask) && nextCloser == old(nextCloser)
      ensures handle == if old(handle) == None && result != NotOpened then Some(old(openings)) else old(handle)
      ensures openings == if old(handle) == None && result != NotOpened then old(openings) + 1 else old(openings)
      ensures ok ==> handle != None && refCount == old(refCount) + 1 && live == old(live)[task := handle.value]
      ensures !ok ==> refCount == old(refCount) && live == old(live)
    {
      if closeTask.Some? {
        closers := closers - {closeTask.value};
      }
      if handle.None? {
        if result == NotOpened {
          return false;
        }
        handle := Some(openings);
        openings := openings + 1;
        if result == FailedAfterHandle {
          return false;
        }
      }
      refCount := refCount + 1;
      live := live[task := handle.value];
      ok := true;
    }

    /** Raises when the last reference goes, nothing is kept alive, and the close gives up. */
    method ContextClose(task: nat, oks: seq<bool>) returns (ok: bool)
      requires |oks| == 3 && task in live
      modifies this
      ensures Contents() == Attempted(Next(old(Contents()), CloseEnter(task)), oks)
      ensures ok <==> old(refCount) != 1 || keepalive || old(handle) == None || oks[0] || oks[1] || oks[2]
      ensures live == old(live) - {task} && openings == old(openings)
      // The last reference schedules one more closer, or closes at once.
      ensures refCount == if ok then old(refCount) - 1 else 1
      ensures handle == if ok && old(refCount) == 1 && !keepalive then None else old(handle)
      ensures old(refCount) == 1 && keepalive ==>
        && closers == old(closers) + {old(nextCloser)} && closeTask == Some(old(nextCloser))
        && nextCloser == old(nextCloser) + 1
      ensures old(refCount) != 1 || !keepalive ==>
        closers == old(closers) && nextCloser == old(nextCloser) && closeTask == if ok then old(closeTask) else None
    {
      RemoveKey(live, task);
      refCount := refCount - 1;
      live := live - {task};
      ok := true;
      if refCount == 0 {
        if keepalive {
          closers := closers + {nextCloser};
          closeTask := Some(nextCloser);
          nextCloser := nextCloser + 1;
        } else {
          ok := Close(oks);
        }
      }
    }

    method Closer(closer: nat, oks: seq<bool>) returns (ok: bool)
      requires |oks| == 3 && closer in closers
      modifies this
      ensures Contents() == Attempted(Next(old(Contents()), CloserEnter(closer)), oks)
      ensures ok <==> old(refCount) != 0 || old(handle) == None || oks[0] || oks[1] || oks[2]
      ensures closers == old(closers) - {closer} && nextCloser == old(nextCloser)
      ensures live == old(live) && openings == old(openings)
      ensures refCount == if ok then old(refCount) else 1
      ensures handle == if ok && old(refCount) == 0 then None else old(handle)
      ensures closeTask == if ok then old(closeTask) else None
    {
      closers := closers - {closer};
      ok := true;
      if refCount == 0 {
        ok := Close(oks);
      }
    }
  }

  /** The close attempts of one lock holder, as steps. */
  ghost function Attempted(p: Pool, oks: seq<bool>): Pool
    decreases |oks|
  {
    if oks == [] || !p.holder.Closing? then p else Attempted(DoCloseAttempt(p, oks[0]), oks[1..])
  }
}
