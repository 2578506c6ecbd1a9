# Verification of the stateful components of ACA-Py

Dafny models of the parts of this agent whose correctness is about whole runs: the AnonCreds revocation registry
manager, the single-flight cache lock and its TTL cache, the reference-counted ledger pool, transactional profile
sessions and the event bus, job-id registration of credential definitions, the protocol version registry, and
presentation pre-verification. `dafny verify dfyconfig.toml` checks everything.

Each component has a value model (states, steps, and a function that runs any sequence of steps), theorems about
every run of it, and a class or methods in the form that the Python code has, proved against the same step functions.

## How to read it

- **Revocation.** `RevocationWallet` holds the wallet records and the atomic writes. `Publishing` specifies one
  publication and proves the retry loop against every history of other writers. `RevocationRuns` interleaves the
  atomic steps of any number of tasks and settles index allocation; `RevocationSafety` settles permanence, what may
  be revoked, the `pending` tag, active and spent registries over the same runs. Where a result needs the registrars
  not to reuse the name of a finished job, `NamesNew` is its hypothesis. `HotSwap` composes the steps into whole
  operations and proves that rotation never starves; `RotationFailures` settles when it does if creations fail.
  `AnonCredsRevocation` is the manager as a class. `RevocationEffects` says field by field, in literal terms, what each
  step and operation writes, and `OperationRuns` proves that the whole operations are runs of the steps.
- **Cache.** `CacheKeyLocks` is the lock protocol with locks numbered by acquisition; `InMemoryCache` is the TTL
  store against its log.
- **Ledger pool.** `LedgerPool`: every step that takes, holds or returns the lock is separate.
- **Sessions and events.** `ProfileSessions` and `EventBus`.
- **Registration and resolution.** `CredDefStore` and `ProtocolRegistry`.
- **Pre-verification.** `PreVerify`, one model with a parameter for the copy.

## Findings

- Two operations read a list record and later replace it without comparing: issuance, and the status update that
  follows a publication. Indices are distinct in exactly the runs where they are handed out in increasing order: an
  issuance whose record has fallen back repeats an index, it never skips one (`DistinctIffIncreasing`). As long as
  status updates find `next_index` as they fetched it, these are the runs where issuances do so, too
  (`DistinctIffIndexKept`). `next_index` never drops in exactly the runs where no blind replace has been left behind
  (`NextIndexKeptIff`), and revocation is permanent in exactly the runs where every blind replace finds the revocation
  bits as they were read (`PermanentIffBitsKept`). The comparison that would ensure all of this is the one that
  publishing makes. The failing interleavings are given from any suitable state: two issuances (`RacingDrawsCollide`),
  a status update around an issuance (`StaleStatusRepeats`), a publication inside an issuance (`DrawUndoesRevocation`)
  and one publication inside the status update of another (`StatusUndoesRevocation`); whole runs are
  `InterleavedDrawsCollide`, `StatusUpdateRepeatsIndex`, `SomeRunUndoesRevocation` and `SomeStatusUndoesRevocation`.
  What is never lost, in any interleaving, is that only issued indices are revoked (`OnlyIssuedAreRevoked`).
- The same replaces lose or bring back revocation requests: each list has pending what the log of marks, clears and
  publications prescribes, at every point of a run, exactly when every blind replace finds `pending` as it was read
  (`PendingAsLoggedIff`, `DrawLosesRequest`).
- Only an attempt that creates its credential swaps registries. When creations fail after drawing an index, issuance is
  refused for a full registry exactly once failures have drawn every index of the active registry's margin, from
  `max_cred_num - 1` on (1 for smaller ones) up to `max_cred_num`; then only a decommission helps
  (`StuckIffMarginLost`, `OnlyDecommissionHelps`, `SomeRunSticks`).
- A list that has issued before it is registered can end up beside a definition too small for it: revoked indices
  stay within `max_cred_num` exactly when lists and definitions that come under one name fit each other then
  (`WithinSizeIffFits`, `SomeRunExceedsSize`).
- Finishing a registration sets its definition to finished whatever has happened to it, so a registry that was
  decommissioned under its job id becomes a spare again. Spent registries stay spent in exactly the runs where no
  such registration finishes (`SpentIffFinishedBefore`, `FinishRevivesSpent`, `SomeRunRevivesDecommissioned`).
- The pending tag stays exact under every interleaving, except when a mark names no id and finds nothing pending
  (`TagStep`).
- Publishing hands its caller a list that was never stored exactly when at least one conflict precedes an attempt
  that finds nothing eligible; the list is the one computed by the last attempt that conflicted
  (`RevokePendingCredentials`, last two clauses). Clearing the pending ids between the read and the transaction of a
  publication does this to any publication of pending ids (`ClearingLeavesStaleList`).
- Publishing finds every bit it reads, in every run of a rotation without failing creations, exactly when status lists
  are as long as the largest value of `next_index`: `max_cred_num`, thanks to the swap margin, but 2 for a registry of
  one credential (`ReadableIffLongEnough`). A list of length 1 makes that one credential irrevocable
  (`ShortListUnreadable`). With failing creations they have to be longer than `max_cred_num`
  (`ReadableIffLongerThanSize`).
- An open ledger pool that nobody uses has no closer in exactly two situations (`NoCloserIff`): a close has given up
  after three failed attempts, which leaves it open for good, or its last open failed after obtaining the handle,
  which leaves it open until somebody uses it again (`OpenForGoodIffCloseFailed`, `PoolsLeftOpen`).
- A cache lock that leads its key and is never entered, or fails while entering, blocks the key: the table of locks
  itself keeps it from being collected, so its destructor cannot release the key (`KeyHeldUntilExit`,
  `AbandonedLeaderBlocks`).
- A rollback that comes in while a commit is closing its handle drops the events of a transaction that the store has
  committed; without one, the bus gets every event exactly once (`EventsExactlyOnce`, `InterruptedCommitLoses`).
- An error that `except Exception` does not catch ends a notification early; the processors behind it are not called
  (`EventBus.Notify`).
- The Indy copy of pre-verification lets an unbound-variable error escape exactly when the first requested
  predicate points to a sub-proof with no ge-proofs; otherwise the copies differ only in the text for a predicate
  that does not match (`UnboundEscapesIff`, `CopiesAgree`).
- A version definition for another major version than its message types is accepted. A newer minor of such a name
  then resolves to whatever class the other major version has at its current minor, or to none; it gets its own class
  only if that one happens to be the same (`NewerMinors`, `OtherMajorForeignClass`, `OtherMajorUnresolved`).
  A literal newer than a current minor of 0 leaves newer minors unknown, too.

## Model

| member | source | states |
|---|---|---|
| Publishing.SortRequests | acapy_agent/anoncreds/revocation.py:1290-1324 | Sorting the requested ids fails exactly when some issued id has no bit in the list; otherwise the eligible ids are exactly the issued, in-range, unrevoked ones and the failed ids are all the others |
| Publishing.PublishConserves | acapy_agent/anoncreds/revocation.py:1297-1377 | Pending plus additional ids split disjointly into revoked, failed and skipped; the bits change at exactly the revoked ids and none is cleared; what stays pending is exactly the skipped ids, all issued, in range and unrevoked |
| Publishing.PublishIsIdempotent | acapy_agent/anoncreds/revocation.py:1326-1377 | Publishing again, asking for nothing or for some of the same ids, revokes nothing while the limit stays: exactly the earlier skipped ids are eligible, and everything else asked for again is rejected |
| Publishing.ListOf | acapy_agent/anoncreds/revocation.py:1368-1370 | The stored pending list names each skipped id once and nothing else |
| Publishing.RevokePendingCredentials | acapy_agent/anoncreds/revocation.py:1219-1390 | For every history of other writers: at most four attempts run, all but the last conflict, and what the last one meets with decides the outcome both ways, a commit and an attempt with nothing to do included; a commit equals the pure publication of the record as it stood at the commit, with its state tag and next_index kept, the given time stamp, exactly the revoked bits added, and the skipped ids pending with their tag; a list is returned unstored exactly when conflicts precede an attempt with nothing eligible, and it is the list of the last conflicting attempt |
| Publishing.PublishedFields | acapy_agent/anoncreds/revocation.py:1357-1378 | The published record field by field |
| Publishing.ClearingLeavesStaleList | acapy_agent/anoncreds/revocation.py:1325-1366 | Whatever pending ids a publication is about to revoke, clearing them between its read and its transaction gives such a history, and the returned list has bits set that are clear in the stored one |
| RevocationRuns.StepGrows | acapy_agent/anoncreds/revocation.py:109-141 | With new names for new records, no step changes a definition's size or credential definition, and a name given up by a finished job never holds a record again |
| RevocationRuns.IndexRange | acapy_agent/anoncreds/revocation.py:1020-1048 | In every interleaved run all allocated indices lie in 1..max_cred_num |
| RevocationRuns.DistinctIffIncreasing | acapy_agent/anoncreds/revocation.py:1004-1050 | In every interleaved run, whatever issuances and status updates write back, allocated (registry, index) pairs are distinct if and only if each registry hands its indices out in increasing order |
| RevocationRuns.DistinctIffIndexKept | acapy_agent/anoncreds/revocation.py:1004-1050 | In every interleaved run whose status updates find next_index as they fetched it, the pairs are distinct if and only if every issuance finds next_index as its task read it |
| RevocationRuns.StaleStatusRepeats | acapy_agent/anoncreds/revocation.py:576-591 | A status update that finds next_index moved on makes the next issuance repeat an index, though that issuance finds next_index as it read it |
| RevocationRuns.StatusUpdateRepeatsIndex | acapy_agent/anoncreds/revocation.py:576-591 | For every registry size some run with new names hands out an index twice although every issuance finds next_index as it read it |
| RevocationRuns.NextIndexKeptIff | acapy_agent/anoncreds/revocation.py:576-591 | In every interleaved run no step lowers any next_index if and only if every blind replace finds it not ahead of what its task read, or one ahead for an issuance |
| RevocationRuns.NextIndexNeverDecreases | acapy_agent/anoncreds/revocation.py:1042-1050 | In such runs next_index never decreases between any two points, across failures, swaps, revocations and decommissioning |
| RevocationRuns.RacingDrawsCollide | acapy_agent/anoncreds/revocation.py:1004-1050 | From any state with an allocatable index, two issuances that both read before either replaces are given the same index |
| RevocationRuns.InterleavedDrawsCollide | acapy_agent/anoncreds/revocation.py:1004-1050 | For every registry size and list length some run from the empty wallet hands out an index of such a registry twice |
| RevocationRuns.ReusedNameCollides | acapy_agent/anoncreds/revocation.py:505-523 | Without new names an index is handed out twice even if every replace finds next_index as read: a list stored under a finished job id starts at 1 again |
| RevocationSafety.CommitIsLinearizable | acapy_agent/anoncreds/revocation.py:1352-1379 | In every reachable state a commit is the pure publication of the record as it stands then: exactly the revoked ids get their bits, each issued, unrevoked and within the registry's current size; stamp, pending and its tag are set; the state tag, next_index and everything else stay |
| RevocationSafety.PermanentIffBitsKept | acapy_agent/anoncreds/revocation.py:1004-1050 | In every interleaved run, no revocation bit is ever cleared if and only if every blind replace, of an issuance or a status update, finds the bits as its task read them |
| RevocationSafety.BitsKeptSuffices | acapy_agent/anoncreds/revocation.py:1004-1050 | In every interleaved run, with reused names too, no bit is cleared if every blind replace finds the bits as read |
| RevocationSafety.RevokedForever | acapy_agent/anoncreds/revocation.py:1367-1379 | In such runs a revoked credential is revoked at every later point |
| RevocationSafety.OnlyIssuedAreRevoked | acapy_agent/anoncreds/revocation.py:1297-1324 | In every interleaved run, whatever is overwritten, each revoked index i has 1 <= i < next_index |
| RevocationSafety.WithinSizeIffFits | acapy_agent/anoncreds/revocation.py:1297-1324 | Throughout a run no revoked index exceeds its registry's max_cred_num if and only if every list and definition that come together under one name fit each other then, a list that a status update writes back included |
| RevocationSafety.WithinSizeIfWaitingUnused | acapy_agent/anoncreds/revocation.py:505-523 | In particular when no list issues before its registration is finished |
| RevocationSafety.SomeRunExceedsSize | acapy_agent/anoncreds/revocation.py:505-523 | Some run with new names only ends with a revoked index above max_cred_num |
| RevocationSafety.DrawUndoesRevocation | acapy_agent/anoncreds/revocation.py:1004-1050 | From any state with an allocatable index and a revocable credential, a commit between the read and the replace of an issuance is undone |
| RevocationSafety.SomeRunUndoesRevocation | acapy_agent/anoncreds/revocation.py:1043-1050 | Some run from the empty wallet, with new names only, clears a revocation bit |
| RevocationSafety.StatusUndoesRevocation | acapy_agent/anoncreds/revocation.py:576-591 | From any state with a revocable credential, a commit between the fetch and the replace of a status update is undone, without any issuance |
| RevocationSafety.SomeStatusUndoesRevocation | acapy_agent/anoncreds/revocation.py:576-591 | Some run from the empty wallet, with new names only, leads to a status update that clears a revocation bit |
| RevocationSafety.PendingAsLoggedIff | acapy_agent/anoncreds/revocation.py:1392-1467 | In every interleaved run, each list has pending at every point what its marks, clears and publications prescribe if and only if every blind replace finds pending as its task read it |
| RevocationSafety.RequestsStay | acapy_agent/anoncreds/revocation.py:1406-1421 | In such runs a pending request stays pending until it is cleared or published |
| RevocationSafety.DrawLosesRequest | acapy_agent/anoncreds/revocation.py:1004-1050 | From any state with an allocatable index, a mark between the read and the replace of an issuance is lost, although next_index and bits are found as read |
| RevocationSafety.TagStep | acapy_agent/anoncreds/revocation.py:1406-1421 | From any state with exact tags, a step keeps them exact if and only if it is not a mark of nothing on an empty list |
| RevocationSafety.TagQueryExact | acapy_agent/anoncreds/revocation.py:614-630 | Under every interleaving of nonempty marks and all other operations, issuances and status updates with their fetch and replace apart, the tag query returns exactly the lists with pending requests |
| RevocationSafety.AtMostOneActive | acapy_agent/anoncreds/revocation.py:338-392 | Every reachable state has at most one active registry for each credential definition |
| RevocationSafety.SpentIffFinishedBefore | acapy_agent/anoncreds/revocation.py:262-278 | In every run, full and decommissioned registries stay so at every step, under whatever name, if and only if no registration finishes after its registry was spent |
| RevocationSafety.SpentStaysSpent | acapy_agent/anoncreds/revocation.py:741-788 | A spent registry stays so at every later point if and only if its own registration does not finish later; until then it is never among the candidates for a spare |
| RevocationSafety.FinishRevivesSpent | acapy_agent/anoncreds/revocation.py:262-278 | Finishing the registration of a spent inactive registry makes it a candidate for a spare again |
| RevocationSafety.SomeRunRevivesDecommissioned | acapy_agent/anoncreds/revocation.py:802-852 | Some run decommissions a registry under its job id and then finishes it into a spare |
| RevocationSafety.StoredAsReported | acapy_agent/anoncreds/revocation.py:235-250 | A registration is stored inactive in the state that the registrar reports |
| RevocationSafety.NoSpareBeforeFinish | acapy_agent/anoncreds/revocation.py:741-757 | In every run, a registry stored in wait, action or any other unfinished state is no candidate for a spare until its own registration finishes |
| HotSwap.SetupReady | acapy_agent/anoncreds/revocation_setup.py:67-114 | The two-registry setup leaves one active registry with an index to give and one unused finished spare |
| HotSwap.IssueReady | acapy_agent/anoncreds/revocation.py:1142-1193 | An issuance gives out the active registry's next index, below the swap margin, and leaves a ready rotation behind, swapped or not |
| HotSwap.NeverStarves | acapy_agent/anoncreds/revocation.py:741-800 | Over any run of issuances whose draws all succeed, marks, clears, publications and decommissions no issuance is refused and no issued index exceeds max_cred_num - 1 (or 1, for size 1); the rotation is ready at every point |
| RotationFailures.StuckIffMarginLost | acapy_agent/anoncreds/revocation.py:1142-1193 | Over any such run in which attempts may also fail after drawing an index, an attempt is refused if and only if failed attempts have drawn every index of the active registry from max(1, max_cred_num - 1) to max_cred_num, and then as full; every other attempt gets an index in range |
| RotationFailures.OnlyDecommissionHelps | acapy_agent/anoncreds/revocation.py:741-852 | A rotation that is used up stays so under every operation but a decommission, which starts it again |
| RotationFailures.SomeRunSticks | acapy_agent/anoncreds/revocation.py:1142-1193 | From every ready rotation some legal run of failing attempts uses it up |
| RotationFailures.ReadableIffLongerThanSize | acapy_agent/anoncreds/revocation.py:1297-1314 | When attempts may fail, publishing finds every bit it reads after every legal run if and only if the list is longer than max_cred_num |
| OperationRuns.OperationIsRun | acapy_agent/anoncreds/revocation.py:741-857 | From any state without tasks, each legal operation of the rotation is a sequence of atomic steps that leaves the same wallet, hands out the same index and leaves no task behind |
| OperationRuns.OperationsAreRun | acapy_agent/anoncreds/revocation.py:741-857 | So is every run of operations |
| RevocationEffects.DrawReadEffect | acapy_agent/anoncreds/revocation.py:1004-1024 | Issuance reads a registry with all three parts; a failed list needs its upload and is finished in memory; nothing is written |
| RevocationEffects.DrawReplaceEffect | acapy_agent/anoncreds/revocation.py:1040-1050 | The replace writes back what was read, one index further, exactly if an index is left and the record is there |
| RevocationEffects.StatusReplaceEffect | acapy_agent/anoncreds/revocation.py:576-591 | The status update writes back what was fetched, with nothing but the new state |
| RevocationEffects.RevokeReadEffect | acapy_agent/anoncreds/revocation.py:1254-1326 | Publishing goes ahead exactly when the three parts are there, every issued id in range has a bit, and some id is issued, in range and unrevoked |
| RevocationEffects.RevokeCommitEffect | acapy_agent/anoncreds/revocation.py:1352-1379 | A commit happens exactly on an unchanged value; it sets the revoked bits, the stamp, the skipped ids and their tag, and keeps the state tag, next_index and all other records |
| RevocationEffects.AttemptMeets | acapy_agent/anoncreds/revocation.py:1254-1366 | What each attempt to publish meets with, in terms of the stored fields |
| RevocationEffects.SetActiveEffect | acapy_agent/anoncreds/revocation.py:338-392 | Activation sets one tag, clears the others of the credential definition, and changes nothing when it is active already |
| RevocationEffects.FinishDefEffect | acapy_agent/anoncreds/revocation.py:262-278 | A finish moves definition and key and sets the state, or changes nothing |
| RevocationEffects.FinishListEffect | acapy_agent/anoncreds/revocation.py:505-523 | A finish moves a new list as finished with its value and pending tag, or changes nothing |
| RevocationEffects.IssueRefusedEarly | acapy_agent/anoncreds/revocation.py:859-887 | An attempt to issue is refused before any write exactly without an active registry, with a part missing, or with no index left |
| RevocationEffects.IssueDraws | acapy_agent/anoncreds/revocation.py:1004-1058 | Otherwise it draws the index; a failed creation, or a success below the margin, changes nothing else |
| RevocationEffects.IssueWithoutBackup | acapy_agent/anoncreds/revocation.py:741-769 | At the margin a created credential without a finished inactive registry ends in the backup error, the index drawn |
| RevocationEffects.IssueSwaps | acapy_agent/anoncreds/revocation.py:771-800 | With one, that registry becomes the one active one, the old one is full, and a new unused one of its size is there |
| RevocationEffects.DecommissionEffect | acapy_agent/anoncreds/revocation.py:802-857 | The two new registries, the decommissioned ones, the waiting ones and the untouched ones, field by field |
| RevocationEffects.SetupEffect | acapy_agent/anoncreds/revocation_setup.py:67-114 | The setup creates the first registry active and the second inactive, both of the given size, and touches nothing else |
| RevocationEffects.PublicationEffect | acapy_agent/anoncreds/revocation.py:1219-1390 | One undisturbed publication, field by field, with its refusals |
| HotSwap.DecommissionRotates | acapy_agent/anoncreds/revocation.py:802-852 | After a decommission exactly the new registry is active, exactly the backup is a spare, both of the former active one's size, every older registry not in wait is decommissioned, waiting ones only lose the active tag, and other credential definitions are untouched |
| HotSwap.ReadableIffLongEnough | acapy_agent/anoncreds/revocation.py:1181-1191 | Publishing finds every bit it reads, after every legal run from a ready rotation whose draws all succeed and for every request, if and only if the list length reaches the largest next_index: max_cred_num, or 2 for a registry of one |
| HotSwap.MarginKeepsBitsReadable | acapy_agent/anoncreds/revocation.py:1181-1191 | While the rotation is ready, publishing reads only bits inside a list that long, whatever ids are requested |
| HotSwap.ShortListUnreadable | acapy_agent/anoncreds/revocation.py:763-766 | Whenever the index just given out lies beyond the list, publishing it fails |
| AnonCredsRevocation.Manager.StoreRegistryDefinition | acapy_agent/anoncreds/revocation.py:235-250 | Stores the definition inactive in the given state, and its key, or nothing at all when either name is taken |
| AnonCredsRevocation.Manager.FinishRegistryDefinition | acapy_agent/anoncreds/revocation.py:262-278 | Definition and key move together to the registered id and the definition is finished, or nothing changes |
| AnonCredsRevocation.Manager.SetActiveRegistry | acapy_agent/anoncreds/revocation.py:338-392 | The loop over tags leaves exactly this registry active for its credential definition and changes nothing else |
| AnonCredsRevocation.Manager.StoreRevocationList | acapy_agent/anoncreds/revocation.py:465-491 | Stores a list with all bits clear, next_index 1 and nothing pending, unless the name is taken |
| AnonCredsRevocation.Manager.FinishRevocationList | acapy_agent/anoncreds/revocation.py:505-523 | Moves a new list to its registered id as finished; leaves an existing one alone |
| AnonCredsRevocation.Manager.MarkPendingRevocations | acapy_agent/anoncreds/revocation.py:1392-1422 | Appends the ids to the pending ones and sets the tag |
| AnonCredsRevocation.Manager.ClearPendingRevocations | acapy_agent/anoncreds/revocation.py:1443-1467 | Unmasked: nothing is pending and the tag is cleared |
| AnonCredsRevocation.Manager.HandleFullRegistry | acapy_agent/anoncreds/revocation.py:741-800 | Swaps exactly when a finished inactive registry of the same credential definition exists; then that one is active, the old one full, and a new spare of its size is there. An unknown name ends in an unassigned variable; nothing changes unless it swaps |
| AnonCredsRevocation.Manager.CreateCredential | acapy_agent/anoncreds/revocation.py:859-887 | One undisturbed attempt to issue, successful or not, is the rotation's, for some choice that the queries allow |
| AnonCredsRevocation.Manager.CreateCredentialHelper | acapy_agent/anoncreds/revocation.py:1142-1197 | Failed creations, a full registry and missing data are retried and nothing else is, at most max(retries, 1) times; with an index left for every attempt it issues at the first creation that succeeds, after exactly that many attempts, and ends in the final error when there is none |
| AnonCredsRevocation.Manager.DecommissionRegistry | acapy_agent/anoncreds/revocation.py:802-857 | The whole operation, with its loop over records, is the rotation's decommission |
| CacheKeyLocks.TableExact | acapy_agent/cache/base.py:59-70 | In every reachable state a key's table entry is exactly its one unreleased leader, and every parent is earlier, parentless and of the same key, so nobody waits in a cycle |
| CacheKeyLocks.ReleaseRemovesOwnLock | acapy_agent/cache/base.py:151-155 | A key leaves the table only when the lock registered there exits, and no other key leaves with it |
| CacheKeyLocks.SingleFlight | acapy_agent/cache/base.py:59-65 | Under any interleaving, until a leader's future is done no lock acquired later on its key has entered its body, and all of them follow that leader |
| CacheKeyLocks.FollowersSeeResult | acapy_agent/cache/base.py:114-149 | Every follower that has entered found its leader done; if the leader's result is truthy the follower has that same value, or the one its own user had set before, and cannot be given another |
| CacheKeyLocks.FollowersGetIn | acapy_agent/cache/base.py:120-149 | Once the leader is done, a waiting follower gets in after its callback with the leader's truthy value or its own earlier one, or goes on to the cache |
| CacheKeyLocks.LeaderGoesToCache | acapy_agent/cache/base.py:138-146 | A leader that is outside goes on to the cache at once |
| CacheKeyLocks.FoundValueIsResult | acapy_agent/cache/base.py:145-149 | In every reachable state a value found becomes the result of a looking lock without one and lets it in; finding nothing lets it in as it is |
| CacheKeyLocks.CacheHitReachesFollowers | acapy_agent/cache/base.py:114-149 | In every reachable state a cache hit of the leader reaches each waiting follower that has no result of its own |
| CacheKeyLocks.KeyHeldUntilExit | acapy_agent/cache/base.py:151-170 | A key stays registered to its leader until, and only until, the leader's body is left |
| CacheKeyLocks.AbandonedLeaderBlocks | acapy_agent/cache/base.py:59-65 | If nothing more is done with a leader that has no result, nobody who asks for its key later ever enters |
| CacheKeyLocks.BaseCache.AcquireLock | acapy_agent/cache/base.py:59-65 | The first lock on a key is registered as leader, any other gets the registered one as parent |
| CacheKeyLocks.BaseCache.HandleParentDone | acapy_agent/cache/base.py:120-124 | The done callback passes on a truthy result of the parent and nothing else |
| CacheKeyLocks.BaseCache.PassParent | acapy_agent/cache/base.py:138-145 | Entering waits for the parent's result: a truthy one lets the follower in once its own future has it, a falsy one or no parent leads to the cache |
| CacheKeyLocks.BaseCache.ConsultCache | acapy_agent/cache/base.py:145-149 | A truthy cached value becomes the result of a lock that has none, or is refused; otherwise the result stays; the body is entered unless refused |
| CacheKeyLocks.BaseCache.SetLockResult | acapy_agent/cache/base.py:126-132 | A second result is refused; a first one also goes to the cache exactly when there is no parent or the parent is done |
| CacheKeyLocks.BaseCache.ExitLock | acapy_agent/cache/base.py:157-166 | A lock without a result gives its waiters an empty one; only an unreleased leader frees the key |
| InMemoryCache.CacheRefinesLog | acapy_agent/cache/in_memory.py:18-72 | After any history with a clock that does not run backwards, read anew for every item of a purge, a lookup returns the last value set since the last clear or flush if it is unexpired, else nothing |
| InMemoryCache.ExpiryIsFinal | acapy_agent/cache/in_memory.py:41-57 | A value set with a ttl is found before it expires and never after |
| InMemoryCache.NoTtlIsForever | acapy_agent/cache/in_memory.py:41-57 | A value set without a ttl or with ttl 0 is found at any time, and not after a clear or flush |
| InMemoryCache.PurgeDrops | acapy_agent/cache/in_memory.py:18-26 | A purge drops exactly the items that have expired when it looks at them |
| InMemoryCache.SetStores | acapy_agent/cache/in_memory.py:41-57 | Every key given gets the value with the one expiry, and only expired other items go |
| InMemoryCache.InMemoryCache.RemoveExpired | acapy_agent/cache/in_memory.py:18-26 | The purge loop removes exactly the items that are expired when the loop looks at them |
| InMemoryCache.InMemoryCache.GetItem | acapy_agent/cache/in_memory.py:28-39 | Returns what the log of all operations so far prescribes for the moment at which the purge looks at the key's item |
| InMemoryCache.InMemoryCache.SetItem | acapy_agent/cache/in_memory.py:41-57 | Stores the value under every given key; no ttl and ttl 0 both mean forever |
| LedgerPool.ContextsSeeTheirHandle | acapy_agent/ledger/indy_vdr.py:193-242 | Under every interleaving ref_count is live contexts plus failed closes, and every task in a context sees an open handle, the one it entered with |
| LedgerPool.NoCloserIff | acapy_agent/ledger/indy_vdr.py:207-242 | An open pool that nobody uses lacks a scheduled closer if and only if a close has given up or an open failed late and nobody has entered since; without keepalive these are the only ways to be unused and open |
| LedgerPool.GivenUpForGood | acapy_agent/ledger/indy_vdr.py:207-213 | Once a close has given up, every later state has the same handle open and no closer |
| LedgerPool.OpenForGoodIffCloseFailed | acapy_agent/ledger/indy_vdr.py:207-242 | An unused open pool stays open under every continuation if and only if a close has given up |
| LedgerPool.PoolsLeftOpen | acapy_agent/ledger/indy_vdr.py:193-242 | Both situations occur, with and without keepalive |
| LedgerPool.NotLeaked | acapy_agent/ledger/indy_vdr.py:226-242 | In all other runs an unused open pool has exactly one closer, the one that the next open would cancel; without keepalive it is never unused and open |
| LedgerPool.CloserCloses | acapy_agent/ledger/indy_vdr.py:229-235 | The scheduled closer, when its close succeeds, leaves the pool closed with no closer behind |
| LedgerPool.IndyVdrLedgerPool.Close | acapy_agent/ledger/indy_vdr.py:193-213 | Succeeds exactly when there is no handle or one of three attempts does; otherwise the reference count is raised and the handle kept |
| LedgerPool.IndyVdrLedgerPool.ContextOpen | acapy_agent/ledger/indy_vdr.py:215-223 | Cancels the pending closer, opens if necessary, and counts the reference only when a handle is there |
| LedgerPool.IndyVdrLedgerPool.ContextClose | acapy_agent/ledger/indy_vdr.py:225-242 | Gives up the reference; at zero schedules a closer or closes; raises exactly when that close gives up |
| LedgerPool.IndyVdrLedgerPool.Closer | acapy_agent/ledger/indy_vdr.py:228-234 | Closes only if no reference has come back in the meantime; raises exactly when that close gives up |
| ProfileSessions.EventsExactlyOnce | acapy_agent/core/profile.py:234-286 | Over every interleaved run of sessions, a transaction commits at most once and the bus gets nothing from it before; when the commit has returned, it has got the accepted events in order and once each if and only if no rollback came in while the handle was being closed, and none of them otherwise |
| ProfileSessions.InterruptedCommitLoses | acapy_agent/askar/profile.py:291-301 | Some run commits a transaction in the store and loses its event for good |
| ProfileSessions.CommitGoesOn | acapy_agent/core/profile.py:234-248 | Closing hands the queue over, each delivery takes the first event, and the session ends when none is left |
| ProfileSessions.PlainSessionsEmitDirectly | acapy_agent/core/profile.py:264-286 | Events of a session that is not a transaction reach the bus at once, in order |
| ProfileSessions.SingleUse | acapy_agent/askar/profile.py:236-250 | A session that is over can never be opened, committed or emitted on again |
| ProfileSessions.ProfileSession.EnterSession | acapy_agent/core/profile.py:194-200 | Opens the store once; a session that is neither active nor openable refuses |
| ProfileSessions.ProfileSession.ExitSession | acapy_agent/core/profile.py:202-207 | Only the last exit of a session that was not awaited ends it |
| ProfileSessions.ProfileSession.CommitSession | acapy_agent/core/profile.py:234-248 | Undisturbed, a failed store commit changes nothing and sends nothing; a successful one closes the handle, sends the queue in order and ends the session |
| ProfileSessions.ProfileSession.EmitEvent | acapy_agent/core/profile.py:264-286 | Queues in a transaction, sends at once otherwise, refuses when the session is not open or opening |
| EventBus.SnapshotIsExact | acapy_agent/core/event_bus.py:101-123 | A notification calls each subscription in force as often as it is in force if its pattern matches, and no other |
| EventBus.SubscribeAddsOne | acapy_agent/core/event_bus.py:125-136 | Subscribing adds exactly one subscription |
| EventBus.UnsubscribeTakesOne | acapy_agent/core/event_bus.py:138-159 | Unsubscribing takes away one matching subscription, and changes nothing when there is none |
| EventBus.ChangesKeepPatterns | acapy_agent/core/event_bus.py:125-159 | Whatever is subscribed and unsubscribed, each pattern stays a single key of the dictionary |
| EventBus.UnsubscribeUndoesSubscribe | acapy_agent/core/event_bus.py:125-159 | Subscribing and unsubscribing leaves the same subscriptions in force |
| EventBus.EventBus.Collect | acapy_agent/core/event_bus.py:104-117 | The nested loops collect every matching subscription in order |
| EventBus.EventBus.Notify | acapy_agent/core/event_bus.py:89-123 | Calls the subscriptions matching on entry, all of them exactly when no called processor raises an error that escapes, and otherwise those up to the first that does, whatever the called ones subscribe or unsubscribe; their changes all take effect |
| EventBus.EventBus.RemoveSubscriber | acapy_agent/core/event_bus.py:138-159 | Removes the first occurrence, and the pattern with its last processor |
| CredDefStore.PartsMoveTogether | acapy_agent/anoncreds/issuer.py:386-447 | Over every run of stores and finishes the three categories have the same names, names are in bijection with what was stored, and each name holds its three parts and settings unmixed |
| CredDefStore.FinishIsAllOrNothing | acapy_agent/anoncreds/issuer.py:429-447 | In a reachable wallet a finish succeeds exactly when the job is there and the registered id is free; then every record moves, marked finished and otherwise unchanged |
| CredDefStore.StoreEffect | acapy_agent/anoncreds/issuer.py:386-414 | A store succeeds exactly when all three names are free, and stores each part, the definition in the given state |
| CredDefStore.FinishEffect | acapy_agent/anoncreds/issuer.py:105-131 | In any wallet a finish succeeds exactly when all jobs are there and all registered ids free, and each record arrives finished with its value and settings |
| CredDefStore.AnonCredsIssuer.FinishCredDef | acapy_agent/anoncreds/issuer.py:429-460 | Commits all three moves or none, and reports the settings stored with the definition |
| CredDefStore.AnonCredsIssuer.StoreCredentialDefinition | acapy_agent/anoncreds/issuer.py:386-427 | Stores all three parts or none; the finished event follows exactly a stored finished definition |
| ProtocolRegistry.FreshTypesResolve | acapy_agent/core/protocol_registry.py:169-204 | A freshly registered name, within its range and with one literal, resolves to its class at every minor from the minimum up and is refused below it |
| ProtocolRegistry.FreshTypesKeepResolving | acapy_agent/core/protocol_registry.py:99-204 | The same after any sequence of registrations of other stems |
| ProtocolRegistry.AdvertisedResolveDirectly | acapy_agent/core/protocol_registry.py:70-77 | Every advertised version of it is in the table itself, with its class |
| ProtocolRegistry.FreshEntry | acapy_agent/core/protocol_registry.py:119-154 | A type of the name is in the table exactly when it is the literal or an expanded version of it |
| ProtocolRegistry.OthersUnchanged | acapy_agent/core/protocol_registry.py:156-157 | Registering other stems changes neither definition, table nor resolution of this one |
| ProtocolRegistry.FirstDefines | acapy_agent/core/protocol_registry.py:119-138 | The first literal of a new stem defines it with the given range, or as its own single version |
| ProtocolRegistry.OneLiteralAdds | acapy_agent/core/protocol_registry.py:140-157 | A literal adds itself and, from a current minor of 1 on, every version in the range of the definition that its stem has, and replaces what was there |
| ProtocolRegistry.LastWins | acapy_agent/core/protocol_registry.py:140-157 | The last literal of a registration has its class, whatever was there |
| ProtocolRegistry.DefinedStays | acapy_agent/core/protocol_registry.py:119-138 | A stem that is defined keeps its definition |
| ProtocolRegistry.NewerMinors | acapy_agent/core/protocol_registry.py:189-204 | Above the current version a freshly registered name resolves to its own class if and only if the minor is its literal's own, or its range is of its own major version and covers the current minor, or the other major version holds the same class there; otherwise to that foreign class, or to none |
| ProtocolRegistry.OtherMajorUnresolved | acapy_agent/core/protocol_registry.py:127-138 | Registered alone with a range of another major version, a name is unknown at every newer minor |
| ProtocolRegistry.OtherMajorForeignClass | acapy_agent/core/protocol_registry.py:127-138 | Registered together with that major version, it resolves to the other one's class |
| ProtocolRegistry.ProtocolRegistry.RegisterMessageTypes | acapy_agent/core/protocol_registry.py:99-157 | The loops fill and merge the tables as specified, or change nothing when a new definition's range is empty |
| ProtocolRegistry.ProtocolRegistry.ResolveMessageClass | acapy_agent/core/protocol_registry.py:169-204 | Resolves directly, else by the current version of the stem, else refuses or reports unknown |
| PreVerify.SearchGeProofs | acapy_agent/indy/verifier.py:303-319 | The search matches exactly when some ge-proof has the canonical name and the bound; the loop variable is left on that proof, else on the last one looked at |
| PreVerify.CheckPredicates | acapy_agent/anoncreds/verifier.py:300-323 | Passes exactly when every predicate is met; otherwise reports the first one that is not, as the copy does |
| PreVerify.CheckAttribute | acapy_agent/anoncreds/verifier.py:329-367 | The checks on one attribute end in the first failure in source order, escaping exceptions included |
| PreVerify.AttributeMeetsSpec | acapy_agent/anoncreds/verifier.py:329-367 | An attribute passes exactly when it is consistently revealed, else unrevealed, else self-attested without restrictions |
| PreVerify.CheckAttributes | acapy_agent/anoncreds/verifier.py:329-368 | Passes exactly when every attribute is acceptable, with one message for each withheld attribute in order |
| PreVerify.PreVerifyPresentation | acapy_agent/anoncreds/verifier.py:275-368 | Either copy accepts exactly the acceptable presentations, with the messages specified, and otherwise fails with the first failure, a missing request, presentation or part of it included; whatever is accepted proves every requested bound by name and value |
| PreVerify.PredicateMeans | acapy_agent/anoncreds/verifier.py:303-318 | A predicate is met exactly by a ge-proof of its sub-proof with its canonical name and its very bound |
| PreVerify.PredicateReports | acapy_agent/indy/verifier.py:303-325 | What each copy reports of a predicate that is not met |
| PreVerify.AttributeMeans | acapy_agent/anoncreds/verifier.py:329-367 | What makes an attribute acceptable, in terms of the request and presentation fields |
| PreVerify.AttributeReports | acapy_agent/anoncreds/verifier.py:329-367 | What is reported of an attribute that is not, a group by its first bad member |
| PreVerify.CopiesAgree | acapy_agent/indy/verifier.py:281-374 | Both copies accept the same presentations with the same messages, and when they reject differ only in reporting an unmatched predicate |
| PreVerify.UnboundEscapesIff | acapy_agent/indy/verifier.py:314-316 | The Indy copy lets an unbound-variable error escape exactly when the first predicate's sub-proof is present without ge-proofs |

## Left out

- Native cryptography and storage: status list creation and update, credential creation and the wallet engine appear only by their effect; accumulators and signatures do not appear.
- Tails files, URLs and file paths: the upload on a failed list is a step parameter.
- Names: that registrars never reuse the name of a finished job is the hypothesis `NamesNew` of the results that need it, not something the wallet enforces; `ReusedNameCollides` shows what happens otherwise.
- RevocationRuns.DistinctIffIncreasing: for runs under `NamesNew`, because a reused job id breaks it (`ReusedNameCollides`).
- RevocationRuns.DistinctIffIndexKept: for runs under `NamesNew`, for the same reason, and under `StatusIndexKept`, because a status update breaks it (`StatusUpdateRepeatsIndex`); `DistinctIffIncreasing` covers all status updates.
- RevocationRuns.IndexRange: for runs under `NamesNew`, because under a reused job id an index is measured against a later definition of that name.
- RevocationRuns.NextIndexNeverDecreases: for runs under `NamesNew`, because a list stored under a reused job id is another one, starting at 1.
- RevocationSafety.PermanentIffBitsKept: for runs under `NamesNew`, because under a reused job id a waiting task may replace a list other than the one it read; one direction, `BitsKeptSuffices`, needs no such hypothesis.
- RevocationSafety.RevokedForever: for runs under `NamesNew`, because a list stored under a reused job id is another one, with nothing revoked.
- RevocationSafety.RequestsStay: for runs under `NamesNew`, because a list stored under a reused job id is another one, with nothing pending.
- RevocationSafety.WithinSizeIffFits: for runs under `NamesNew`, because under a reused job id a waiting task may have read the size of an earlier definition.
- RevocationSafety.WithinSizeIfWaitingUnused: for runs under `NamesNew`, for the same reason.
- RevocationSafety.CommitIsLinearizable: for runs under `NamesNew`, needed for the registry's current size only, for the same reason.
- HotSwap.NeverStarves: registrations finish at once, and operations run one after the other; interleaved operations are the subject of RevocationRuns. That every draw succeeds is a hypothesis, which RotationFailures drops.
- Other writers of list records: the repair of the Indy ledger (acapy_agent/anoncreds/default/legacy_indy/registry.py:1145-1210), which rebuilds the bits from credential records and replaces blindly as well, and the wallet upgrade (acapy_agent/wallet/anoncreds_upgrade.py). Runs consist of the revocation manager's own operations, and statements about every run or every blind replace are about those.
- Missing credential definition during publishing, and wallet errors other than missing or duplicate names.
- Masked clearing of pending revocations: it stores a value of another type and clears the tag whatever remains.
- Cancellation of cache waiters, releasing a lock or a key from outside (`BaseCache.release`, `CacheKeyLock.release`), and entering a lock twice.
- Cache keys' stored values during the lock protocol: what a lookup finds is a step parameter, and falsy results are one value.
- Pool genesis files and `open` beyond its three outcomes; cancellation of the tasks that use the pool.
- Errors while closing a session handle, sessions without an event bus, and nested notifications from processors; a second commit of a transaction that the store has committed is taken to be refused by the store.
- Regular expressions: topics and patterns meet in an uninterpreted relation.
- Message types as text: parsing and printing are taken to be inverse to each other.
- `non_revoc_intervals`: it deletes superfluous intervals from the request before verification, one referent at a time and in the same way in both copies; no other modelled part depends on it.
- `check_timestamps`, which compares dates and needs the ledger, and hash-based encoding; `canon` and `encode` are uninterpreted, and JSON objects are typed.
- Schemas, controllers, disclosure queries, routes, start-up and the ledger client: they hold no state of their own that the modelled components share.
