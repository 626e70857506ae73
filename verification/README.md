# fabrica-util: a verified model

This project models the parts of fabrica-util (Go) whose correctness is hard to see from one
function body, and proves what they promise. `dafny verify dfyconfig.toml` checks all of it.

| file | module | models |
|---|---|---|
| Common.dfy | Common | options, decimal digits, splitting of text |
| Ring.dfy, HashRing.dfy | RingSpec, HashRing | the consistent hash rings for int64 and string keys |
| Stopper.dfy | TurnOff | the shutdown protocol of `Stopper.TurnOff` |
| StopHooks.dfy | StopHooks | `Stopper.Go`, `GoWaitStop` and `GoAndStop` |
| Future.dfy, FutureChain.dfy | Futures, FutureChain | `Future` and chains of `Then` |
| Delayer.dfy | Delayer | the delayer, its timers and its tick channel |
| Migration.dfy, MigrationCauses.dfy, Migrator.dfy | MigrationSpec, MigrationCauses, Migrator | the PostgreSQL migrator over its record table |
| Bitmap.dfy, Bloom.dfy, BloomHashes.dfy | BitmapModel, BloomModel, BloomHashes | the bitmap and the int64 Bloom filter |
| Calendar.dfy, Resets.dfy | Calendar, Resets | the Gregorian calendar; starts of periods and next reset times |
| Template.dfy, TemplateExact.dfy, FormatTemplate.dfy | Template, TemplateExact, LocaleFormat | the placeholders of `Locale.FormatTemplate` |
| TagParser.dfy | TagParser | parsing of struct tag parameters |
| Camel.dfy, ExportedCamel.dfy, CamelText.dfy | Camel, ExportedCamel, CamelText | camel case and underscore case |

The rings, the migrator, the bitmap and the Bloom filter change their state in place and are classes
here; loops stay loops.  Each method is proved equal to a function or relation on values, and the
guarantees are lemmas about those.  The concurrent primitives are step systems: every goroutine has a
program counter, each atomic operation, channel operation and lock operation is one step (in the
delayer: each region under the mutex), and the lemmas speak about every state that any schedule of any
number of goroutines can reach.  In the stopper a panic of a user function counts as its end, since the
deferred calls run either way; in `Then`, where nothing is deferred, it is a case of its own.

What is not computed here is arbitrary: the hash function is any function from strings to numbers,
the sort is any sorted permutation (`Sort` promises no more, and the ring theorems use no more), the
iteration order of the map of migrations and the order of rows with equal times are parameters, and
every database call, migration function and clock reading is an answer of a `World` parameter.

## Where the code does less than one would expect

Each of these is proved, with the exact condition under which the code does meet the expectation
or with the run that breaks it.

- Adding a node moves keys only to that node exactly when no spot of another node stands behind a
  spot it ties with (`AddMinimalIff`); for a node not yet present this means that no two nodes tie
  (`AddSafeIffNoCrossTies`).  The same absence of ties is exactly what makes a ring independent of its
  history (`HistoryIndependenceIff`) and that makes removal undo an addition (`RemoveUndoesAddIff`).
  That a removal moves no other node's keys needs no such condition, and with a hash function that
  keeps the keys of the nodes apart, as different spots have different keys (`KeysDiffer`), no nodes
  tie and all of it holds outright (`SeparatedRingsAreConsistent`).
- The stopped channel may be closed before the trigger channel (`StoppedMayCloseFirst`); when the
  trigger channel is closed is said by `TriggerClosedIff`.
- With a timeout the stopper may be announced as stopped before f has ended or even begun; without
  one it never is (`StoppedEarlyIff`).  In the end f has begun and ended either way
  (`RestIsComplete`).
- A stop hook may run beside the function it belongs to (`HookMayOverlapItsFunction`).  At the moment
  a hook is let through, the functions that may yet run beside it are exactly those that have not
  ended: for a final stop those that have not passed `Add`, for a quick stop the running ones too
  (`OverlapIff`).
- A stop function may never run: a hook that was woken in `Wait` and finds the counter raised again
  panics (`HookMayBeLost`).  None is lost if no function passes `Add` once the trigger is closed
  (`NoneLostWithoutLateAdd`); which waiting hooks can still be lost is said by `LostIff`.
- A `Then` whose function panics leaves its future open for ever.  When nothing can go on, a future of
  a chain is complete exactly when no function reached before it panics (`ChainCompletesIff`).
- A delayer can tick before its timer fires, exactly when `SetExpiryTime` runs while a goroutine has
  received from an earlier timer and not yet sent (`EarlyTickIff`, `EarlyTickHappens`).
- A goroutine that waits for a timer which was stopped, or whose value another one took, waits until
  some `Close` happens to end it, and a `Close` ends one at most (`GoesOnIff`, `BlockedForGood`).
- The migrator does not ask why the rows of a query ended (`rows.Err`).  So `Up` can run a recorded
  migration again, exactly when the rows are cut short before a registered one (`RerunIff`), and
  `Reset` can report success with records left (`ResetEmptiesIff`).
- One prime is listed twice: two of up to eight hash functions of the Bloom filter are the same
  exactly when there are eight (`RepeatedFunctionIff`).  It is even, too, so its function cannot tell
  apart elements that differ by 2^63 (`EvenPrimeForgetsSign`); how many elements can share a value of
  any of the functions is bounded by `CollisionsBounded`.
- `NextDailyTime`, `NextWeeklyTime` and `NextMonthlyTime` are right for every delay except the least
  64-bit one, which cannot be negated.
- The seven replacements of `FormatTemplate` are substitution in one pass exactly when the names of
  the locale are safe (`FormatTemplateIff`); ordinary names are (`PlainNames`).
- The law of the fuzz test in camelcase/camel_test.go:145-167, that `ToUpperCamel` is not changed by
  a trip through `ToUnderScore`, fails: "ui_dns" becomes "UIDNS", which is read as UID and NS
  (`LawFails`).  `LawIff` says when it holds for every text, `SnakeLawIff` for tidy snake case; both
  read letter case as in ASCII, and `LawOnAscii` is the statement for ASCII text under Go's tables.

## Model

| member | source | states |
|---|---|---|
| `HashRing.Ring.constructor` | consistenthash/int64_ketama.go:36-49 | a new ring is empty; a count that is not positive means 160 spots per node |
| `HashRing.Ring.AddNode` | consistenthash/int64_ketama.go:53-85 | succeeds unless a write to the hasher fails, and then the ring is some sorted permutation of the old spots and the node's; on failure it is as it was |
| `HashRing.Ring.Append` | consistenthash/int64_ketama.go:81 | the slice grows by the new spots, in its array while the capacity lasts or in a fresh one |
| `HashRing.Sort` | consistenthash/int64_ketama.go:82 | the prefix of the array becomes some sorted permutation of itself |
| `HashRing.Ring.RemoveNode` | consistenthash/int64_ketama.go:88-101 | in the same array, exactly the spots of other nodes stay, in order, still sorted |
| `HashRing.Compact` | consistenthash/string_ketama.go:97-105 | the aliasing write-behind-read loop yields the order-preserving filter |
| `HashRing.Ring.Lookup` | consistenthash/string_ketama.go:126-134 | binary search with wrap-around returns the owner, and nothing exactly for the empty ring |
| `HashRing.Ring.GetNodeForInt64` | consistenthash/int64_ketama.go:106-130 | every int64 key, the least included, is looked up at its two's complement |
| `HashRing.Ring.GetNodeForString` | consistenthash/string_ketama.go:110-135 | a string key is looked up at its hash |
| `HashRing.Int64TargetIsTwosComplement` | consistenthash/int64_ketama.go:114-119 | the wrapping arithmetic on negative keys computes the key modulo 2^64 |
| `HashRing.EveryTargetHasOneKey` | consistenthash/int64_ketama.go:114-119 | keys and points of the circle correspond one to one |
| `RingSpec.FirstAtLeast` | consistenthash/int64_ketama.go:121-123 | the least index whose hash reaches the target |
| `RingSpec.OwnerIsNearest` | consistenthash/int64_ketama.go:103-130 | the owner is the first spot at the least clockwise distance from the key |
| `RingSpec.OwnerDependsOnSpots` | consistenthash/int64_ketama.go:121-129 | without ties between nodes the owner depends on the set of spots, not on their order |
| `RingSpec.InsertionSort` | consistenthash/string_ketama.go:87 | a sorted permutation exists and is computed |
| `RingSpec.AddMovesMinimally` | consistenthash/int64_ketama.go:53-85 | in a safe ring, adding a node gives each key its old owner or the new node, wrap-around and the empty ring included |
| `RingSpec.AddMinimalIff` | consistenthash/int64_ketama.go:81-82 | over all sorted orders, that holds if and only if no spot of another node stands behind a spot of a different node it ties with |
| `RingSpec.UnsafeAddMoves` | consistenthash/int64_ketama.go:82 | otherwise some sorted order moves a key between two other nodes |
| `RingSpec.AddSafeIffNoCrossTies` | consistenthash/int64_ketama.go:53-85 | for an absent node this condition is the absence of equal hashes in different nodes |
| `RingSpec.WithoutSpots` | consistenthash/int64_ketama.go:94-98 | exactly the spots of other nodes stay |
| `RingSpec.WithoutSorted` | consistenthash/int64_ketama.go:88-101 | removal keeps the ring sorted, so no sort is needed |
| `RingSpec.RemoveMovesMinimally` | consistenthash/string_ketama.go:93-106 | no key maps to the removed node, and every other key keeps its owner, even with ties |
| `RingSpec.RunKeepsRing` | consistenthash/int64_ketama.go:53-101 | after any run of adds and removes the ring is sorted and holds exactly the spots of the names present |
| `RingSpec.HistoryIndependence` | consistenthash/string_ketama.go:57-106 | two runs that leave the same names present route every key alike, if no two nodes tie |
| `RingSpec.HistoryIndependenceIff` | consistenthash/string_ketama.go:57-106 | a ring agrees with every other history of its names if and only if no two of its nodes tie |
| `RingSpec.RemoveUndoesAddIff` | consistenthash/int64_ketama.go:53-101 | adding an absent node and removing it restores every owner, whichever sorted order results, if and only if no two nodes tie |
| `RingSpec.KeyText` | consistenthash/int64_ketama.go:63 | the key of a spot is the node's name, a colon and digits that read as the number of the spot |
| `RingSpec.KeysDiffer` | consistenthash/string_ketama.go:67 | two spots with the same key are the same spot of the same node |
| `RingSpec.SpotsAreKeys` | consistenthash/int64_ketama.go:62-79 | a node's spots are those at the hashes of its keys, one for each number below the count |
| `RingSpec.SeparatedNodesDoNotTie` | consistenthash/int64_ketama.go:53-101 | if the hash function gives different values to the keys of the nodes present, no two nodes of a reachable ring tie |
| `RingSpec.SeparatedRingsAreConsistent` | consistenthash/string_ketama.go:57-106 | with such a function a reachable ring agrees with every other history of its names and adding any node moves keys to that node only |
| `TurnOff.StepKeepsInv` | xsync/stopper.go:119-202 | every step keeps the invariant and never lowers the state |
| `TurnOff.EveryRun` | xsync/stopper.go:119-202 | the invariant holds in every reachable state |
| `TurnOff.StateOnlyIncreases` | xsync/stopper.go:156-202 | idle, triggered, stopping, stopped: later states of a run are never earlier in this order |
| `TurnOff.TurnOffSafety` | xsync/stopper.go:119-202 | no channel is closed twice, f starts at most once, at most one caller wins and one has won exactly when the state is stopping or later, which it is once any caller returns, stopped is announced after f was launched and, without a timeout, after it ended |
| `TurnOff.StoppedEarlyIff` | xsync/stopper.go:126-153 | stopped can be announced before f has ended, or even begun, if and only if there is a timeout |
| `TurnOff.SwapUnderLockSucceeds` | xsync/stopper.go:185-195 | the compare-and-swap under the mutex never fails |
| `TurnOff.AllReturned` | xsync/stopper.go:119-153 | when all callers have returned the shutdown is complete, happened once, and one caller won |
| `TurnOff.NeverStuck` | xsync/stopper.go:119-202 | while a caller has not returned, some step other than a new call is possible |
| `TurnOff.RestIsComplete` | xsync/stopper.go:126-153 | when only new calls are possible and there was one, f has begun and ended exactly once and the stopper is stopped, with a timeout too |
| `TurnOff.CallerStepsBounded` | xsync/stopper.go:119-202 | a caller takes at most ten steps |
| `TurnOff.TriggerClosedIff` | xsync/stopper.go:156-160 | the trigger is closed exactly when some caller made the stopper triggered and is past its close |
| `TurnOff.StoppedMayCloseFirst` | xsync/stopper.go:156-202 | a run that closes the stopped channel while the trigger is still open |
| `StopHooks.EveryRun` | xsync/stopper.go:204-234 | the invariant of counter, trigger, workers and hooks holds in every reachable state |
| `StopHooks.CounterIsExact` | xsync/stopper.go:209-222 | the wait counter is the number of functions between Add and Done; the trigger closes at most once |
| `StopHooks.HookFollowsAFunction` | xsync/stopper.go:209-234 | a hook runs only after some function has ended and its Done has run |
| `StopHooks.HookPassesWhenIdle` | xsync/stopper.go:224-234 | a final stop lets a hook through at an instant when the trigger is closed and all that passed Add have passed Done |
| `StopHooks.EndedHasRun` | xsync/stopper.go:204-234 | a hook that has ended, and a function on its way out, was running at some earlier point of the run |
| `StopHooks.OverlapIff` | xsync/stopper.go:204-234 | when a hook is let through, a function can yet run beside it if and only if it has not ended with its Done; for a final stop that means it has not passed Add |
| `StopHooks.HooksComeThrough` | xsync/stopper.go:204-234 | once there was a function and all have ended, every hook is over, can go on or is lost; and none is lost if no function passed Add after the trigger was closed |
| `StopHooks.NoneLostWithoutLateAdd` | xsync/stopper.go:215-230 | if no function passes Add once the trigger is closed, no hook is ever lost |
| `StopHooks.LostIff` | xsync/stopper.go:224-234 | with the functions started so far, a hook waiting in Wait can be lost if and only if one of them has yet to pass Add, or the hook is woken and the counter is up again |
| `StopHooks.HookMayBeLost` | xsync/stopper.go:224-234 | a run in which all functions have ended and a stop function never runs |
| `StopHooks.HookMayOverlapItsFunction` | xsync/stopper.go:204-222 | a run in which the two halves of one GoAndStop run together |
| `Futures.StepKeepsInv` | xsync/future.go:33-91 | every step of completers, cancellers and readers keeps the invariant |
| `Futures.EveryRun` | xsync/future.go:33-91 | the invariant holds in every reachable state |
| `Futures.FutureSafety` | xsync/future.go:33-91 | done closes at most once and, outside the lock, exactly when complete is set; a Complete or Cancel that has returned leaves the future complete; readers get the outcome held; after Cancel that is the zero value and the cancellation error, despite the unlocked read |
| `Futures.SingleAssignment` | xsync/future.go:33-46 | once complete, value and error are the same at every later point of a run |
| `Futures.OutcomeWasOffered` | xsync/future.go:33-91 | a complete future holds what some Complete was passed, or the zero value and the cancellation error after some Cancel |
| `Futures.NeverStuck` | xsync/future.go:33-56 | a goroutine can always go on, unless it waits for a completion that has not happened |
| `Futures.RunIsSettles` | xsync/future.go:33-46 | in every interleaving the future holds what its calls leave when each takes effect in one step, the first offer staying |
| `Futures.FirstOfferStays` | xsync/future.go:37-39 | what a sequence of offers leaves is its first |
| `Futures.OneEffectEach` | xsync/future.go:33-91 | each Complete or Cancel takes effect exactly once before it returns, and a reader never |
| `FutureChain.EveryRun` | xsync/future.go:94-112 | in every interleaving, with outside completions and panics, each future and goroutine of a chain stands to the future before it as Then says |
| `FutureChain.ThenOrOutside` | xsync/future.go:94-112 | a completed future holds what Then says of the future before it, or an outside offer |
| `FutureChain.CompleteIff` | xsync/future.go:94-112 | when nothing can go on, a future is complete if and only if it was completed from outside or the one before it is complete and does not make fn panic |
| `FutureChain.ChainMeaning` | xsync/future.go:94-112 | a completed future of an undisturbed chain holds the chain's meaning at the first outcome |
| `FutureChain.ChainCompletesIff` | xsync/future.go:94-112 | when nothing can go on and the first future is complete, a later one of an undisturbed chain is complete if and only if no function reached before it panics |
| `FutureChain.ErrorsPass` | xsync/future.go:99-102 | an error passes down a chain with the zero value of the last type |
| `FutureChain.LeftUnit` | xsync/future.go:104-106 | a Then of a success is fn applied to its value |
| `FutureChain.RightUnit` | xsync/future.go:94-112 | a Then whose function returns its argument changes no success |
| `FutureChain.ThenHoldsFn` | xsync/future.go:97-106 | when nothing can go on, a Then nobody else completed holds what fn gives for the value of the future before it, or is open if fn panics |
| `FutureChain.ThenHoldsError` | xsync/future.go:98-102 | and for a failed future it holds the error with the zero value |
| `FutureChain.ChainSplits` | xsync/future.go:94-112 | a chain of two parts means the second part after the first |
| `FutureChain.ThenAssociative` | xsync/future.go:94-112 | any stretch of a chain may be fused into a single Then, panics included |
| `Delayer.StepKeepsInv` | xsync/delayer.go:60-165 | every step of setters, handlers, timers, receivers, Reset and Close keeps the invariant |
| `Delayer.EveryRun` | xsync/delayer.go:60-165 | the invariant holds in every reachable state |
| `Delayer.DelayerSafety` | xsync/delayer.go:60-165 | a stopped delayer holds no tick; no more ticks are sent than times were set |
| `Delayer.SettersCounted` | xsync/delayer.go:60-96 | the calls of SetExpiryTime recorded in the state are those of the schedule |
| `Delayer.ReceivesBounded` | xsync/delayer.go:60-169 | in every run no more receives succeed than times were set |
| `Delayer.SilentUntilSet` | xsync/delayer.go:98-165 | from Reset or Close until the next SetExpiryTime nothing is sent and nothing is there to receive |
| `Delayer.CloseEnds` | xsync/delayer.go:143-165 | a goroutine that takes the signal of a Close never takes a step again |
| `Delayer.TickComes` | xsync/delayer.go:91-122 | in every run without another set, reset or close, once the timer has fired and no goroutine can go on, a tick has been out since, whichever goroutine sent it |
| `Delayer.GoesOnIff` | xsync/delayer.go:98-122 | a goroutine can go on by itself if and only if it has not ended and does not wait for a timer that was stopped or emptied |
| `Delayer.BlockedForGood` | xsync/delayer.go:143-156 | such a goroutine stays blocked until a Close takes it, and each Close takes at most that one |
| `Delayer.QuietWhileArmed` | xsync/delayer.go:60-122 | if no goroutine is about to send, no tick appears before the new timer fires |
| `Delayer.EarlyTickIff` | xsync/delayer.go:98-122 | an early tick is possible if and only if some goroutine has received from an earlier timer and not sent |
| `Delayer.EarlyTickHappens` | xsync/delayer.go:108-113 | a run with a tick out while the only live timer is still armed |
| `Migrator.Database.Record` | data/db/pg/migrate/migration.go:102-111 | an insert is carried out, refused (always when the id is taken), or carried out with an error reported all the same |
| `Migrator.Database.Remove` | data/db/pg/migrate/migration.go:114-119 | a delete is carried out, refused, or carried out with an error reported all the same |
| `Migrator.Migrator.Up` | data/db/pg/migrate/migration.go:122-149 | table, functions run and error are those of the specification, for every map order and failure |
| `Migrator.Migrator.GetAppliedMigrations` | data/db/pg/migrate/migration.go:77-99 | the ids that arrived, or the error of the query or of a scan |
| `Migrator.Migrator.Down` | data/db/pg/migrate/migration.go:152-190 | equals the specification of Down |
| `Migrator.Migrator.RollBackOne` | data/db/pg/migrate/migration.go:172-187 | equals the specification of one rollback |
| `Migrator.Migrator.RollBackAll` | data/db/pg/migrate/migration.go:233-250 | equals the specification of a rollback list |
| `Migrator.Migrator.DownTo` | data/db/pg/migrate/migration.go:193-253 | equals the specification of DownTo |
| `Migrator.Migrator.Reset` | data/db/pg/migrate/migration.go:256-305 | equals the specification of Reset |
| `MigrationSpec.UpLoopOutcome` | data/db/pg/migrate/migration.go:134-146 | the loop starts distinct pending migrations; all but possibly the last are recorded |
| `MigrationSpec.UpSafety` | data/db/pg/migrate/migration.go:122-149 | whatever fails, each migration started is registered and started once, at most the last has no record, nothing recorded runs again if the rows were not cut, and success means exactly the pending ones ran and all are recorded |
| `MigrationSpec.RerunIff` | data/db/pg/migrate/migration.go:89-98 | a recorded migration can be run again if and only if the rows are cut short before the id of a registered one |
| `MigrationSpec.SecondUpRunsNothing` | data/db/pg/migrate/migration.go:122-149 | after a success a second Up changes nothing |
| `MigrationSpec.DownUndoesUp` | data/db/pg/migrate/migration.go:122-190 | Down after an Up that ran one migration restores the table, if the clock read later than all records |
| `MigrationSpec.RollBackIsOutcome` | data/db/pg/migrate/migration.go:233-250 | at any failure the newest records are removed, the down functions run are theirs and at most the next one's |
| `MigrationSpec.RemainderIsOldest` | data/db/pg/migrate/migration.go:199-202 | what remains is an initial segment of the order in which migrations were applied |
| `MigrationSpec.ResetSafety` | data/db/pg/migrate/migration.go:256-305 | Reset removes newest first and runs at most one down function whose record stays |
| `MigrationSpec.ResetEmptiesIff` | data/db/pg/migrate/migration.go:275-304 | a successful Reset leaves no record if and only if all rows arrived |
| `MigrationSpec.DownToSafety` | data/db/pg/migrate/migration.go:193-253 | the same for DownTo, and the record of the target is never removed |
| `MigrationSpec.NewestIsUnique` | data/db/pg/migrate/migration.go:158-162 | with distinct times every answer to Down's query names the same record |
| `MigrationSpec.RollBackIsRepeatedDown` | data/db/pg/migrate/migration.go:152-190 | rolling back n records is n times Down, with the same functions run, table and error |
| `MigrationSpec.RefinesRepeatedDown` | data/db/pg/migrate/migration.go:152-305 | so Reset and DownTo refine repeated Down |
| `MigrationCauses.UpSucceedsIff` | data/db/pg/migrate/migration.go:122-149 | Up succeeds if and only if the table is there, its rows are read without an error, and every registered migration whose id did not arrive works, is recorded and had no record; each error says which of these failed, and names the migration run last |
| `MigrationCauses.UpRecordsWorking` | data/db/pg/migrate/migration.go:134-146 | a record Up leaves behind belongs to a registered migration that was not read as applied, and whose function worked |
| `MigrationCauses.RollBackSucceedsIff` | data/db/pg/migrate/migration.go:233-250 | a list is rolled back if and only if each of it is registered, has a down function that works and loses its record; otherwise the error is about the first that cannot, with the reason |
| `MigrationCauses.RollBacksRunExisting` | data/db/pg/migrate/migration.go:152-305 | whatever fails, Down, DownTo and Reset run only down functions that exist, of registered migrations with a record, and remove a record only after its function worked |
| `MigrationCauses.DownSucceedsIff` | data/db/pg/migrate/migration.go:152-190 | Down succeeds if and only if the newest row arrives and its migration can be rolled back |
| `MigrationCauses.DownToSucceedsIff` | data/db/pg/migrate/migration.go:193-253 | DownTo succeeds if and only if the target's row arrives and every newer migration can be rolled back |
| `MigrationCauses.ResetSucceedsIff` | data/db/pg/migrate/migration.go:256-305 | Reset succeeds if and only if the rows are read without an error and every migration that arrived can be rolled back |
| `BitmapModel.NewBitmap` | bitmap/bitmap.go:17-26 | panics exactly for negative sizes and for those near the top of int64 where size + 7 wraps; otherwise an empty bitmap |
| `BitmapModel.Bitmap.Set` | bitmap/bitmap.go:29-34 | adds the index to the set, or panics without a change exactly when it is out of range |
| `BitmapModel.Bitmap.MSet` | bitmap/bitmap.go:37-52 | adds all indexes, or panics without any change if one is out of range |
| `BitmapModel.Bitmap.Clear` | bitmap/bitmap.go:55-60 | removes the index from the set |
| `BitmapModel.Bitmap.IsSet` | bitmap/bitmap.go:63-69 | membership in the set |
| `BitmapModel.Bitmap.Count` | bitmap/bitmap.go:72-83 | the number of elements, since padding bits stay zero |
| `BitmapModel.SetByte` | bitmap/bitmap.go:33 | setting one bit of one byte changes that index only, across all bytes |
| `BitmapModel.ClearByte` | bitmap/bitmap.go:59 | likewise for clearing |
| `BitmapModel.BitsOfNextByte` | bitmap/bitmap.go:78-80 | the indices below a byte's end are those below its start and its own bits |
| `BloomModel.FoldClearsSign` | bloom/bloom.go:100-104 | `h ^= h >> 33` clears the sign bit of every int64 |
| `BloomModel.HashesNonNegative` | bloom/bloom.go:80-108 | every hash function made gives a non-negative number for every element |
| `BloomModel.RepeatedFunctionIff` | bloom/bloom.go:85-108 | of up to eight hash functions two agree on every element if and only if there are eight |
| `BloomModel.FunctionAtOne` | bloom/bloom.go:85-108 | the numbers the seven different functions give for element 1 |
| `BloomHashes.FoldInverse` | bloom/bloom.go:100 | `h ^= h >> 33` can be undone up to complementing the word |
| `BloomHashes.CollisionsBounded` | bloom/bloom.go:96-108 | a number is the hash of at most 8 elements under one function, 16 for the even prime |
| `BloomHashes.EvenPrimeForgetsSign` | bloom/bloom.go:87-99 | the second function gives elements that differ by 2^63 the same value |
| `BloomModel.RemainderTruncates` | bloom/bloom.go:37 | the index is the remainder of a division that truncates toward zero |
| `BloomModel.IndexesAre` | bloom/bloom.go:36-37 | the indexes of an element are the remainders of its hashes, one for each function, and no others |
| `BloomModel.NewInt64Bloom` | bloom/bloom.go:20-32 | panics exactly when m or k is negative or m too large; otherwise an empty filter with at most eight hash functions |
| `BloomModel.Int64BloomFilter.constructor` | bloom/bloom.go:27-31 | the filter over a given bitmap, with no element added |
| `BloomModel.Int64BloomFilter.Add` | bloom/bloom.go:35-40 | panics exactly when there are hash functions but no bits; sets exactly the element's indexes and keeps earlier elements contained |
| `BloomModel.Int64BloomFilter.MAdd` | bloom/bloom.go:43-58 | panics under the same condition unless there is nothing to add; leaves the bits that adding one by one leaves |
| `BloomModel.Int64BloomFilter.AppendIndexes` | bloom/bloom.go:51-54 | all indexes are in range and are those of the element |
| `BloomModel.Int64BloomFilter.Contains` | bloom/bloom.go:61-70 | true exactly when all indexes are set, so never false for an element added; panics under the same condition |
| `BloomModel.AddAllIsUnion` | bloom/bloom.go:35-58 | the bits after any adds are the union of the elements' indexes, in whatever order |
| `Calendar.NumberOfDate` | xtime/time.go:87-89 | the date of a day number is a date and has that number |
| `Calendar.DateOfNumber` | xtime/time.go:87-89 | the day number of a date leads back to that date |
| `Calendar.CalendarIsGregorian` | xtime/time.go:105-107 | successive day numbers have successive calendar dates, leap years included |
| `Calendar.MonthLengths` | xtime/time.go:105-107 | the month lengths are the steps of (153 q + 2) / 5 counted from March, February having 28 or 29 days |
| `Calendar.LeapDays` | xtime/time.go:105-107 | the 29th of February in 2000 and 2024, and not in 1900, 2100 or 2023 |
| `Calendar.EraLength` | xtime/time.go:105-107 | 400 years have 146097 days, which are whole weeks |
| `Calendar.EraLeaps` | xtime/time.go:105-107 | leap years come at the same places in every 400 years |
| `Calendar.DayZero` | xtime/time.go:68 | day 0 is 1970-01-01 |
| `Calendar.MonthBefore` | xtime/time.go:105-107 | a later month starts no earlier than an earlier one ends |
| `Resets.StartOfDayIs` | xtime/time.go:87-90 | midnight of the day the moment is in |
| `Resets.MondayAnchored` | xtime/time.go:94 | the first of January 2024 was a Monday |
| `Resets.StartOfWeekIs` | xtime/time.go:93-102 | midnight of the Monday of the moment's week, Sunday being the last day |
| `Resets.StartOfWeekIsLatest` | xtime/time.go:93-102 | the latest Monday midnight not after the moment |
| `Resets.StartOfMonthIs` | xtime/time.go:105-108 | midnight of the first of the moment's month |
| `Resets.AddDays` | xtime/time.go:73-78 | AddDate with days goes on by that many days at the same time of day |
| `Resets.NextDailyIff` | xtime/time.go:72-74 | the least midnight plus delay after the moment, at most a day on, if and only if the delay is not the least duration |
| `Resets.NextWeeklyIff` | xtime/time.go:77-79 | likewise for Mondays, at most seven days on |
| `Resets.NextMonthlyIff` | xtime/time.go:82-84 | likewise for firsts of months, at most 31 days on |
| `Resets.NextMonthDayIsNext` | xtime/time.go:82-84 | no first of a month lies between a day and the next one computed |
| `Resets.AddMonthKeepsDayIff` | xtime/time.go:83 | one month on keeps the day of the month exactly when the next month has it, so from a first always |
| `Template.OneMore` | xtime/format.go:139-145 | one more replacement after one pass is one pass with one more placeholder, if the values before are safe |
| `Template.SequentialIsOnePass` | xtime/format.go:136-147 | with safe values the replacements one after another are one pass, for every template |
| `Template.TailWasThere` | xtime/format.go:139-145 | a safe value never supplies the tail of a later placeholder |
| `Template.OnePassSplits` | xtime/format.go:136-147 | one pass works on both sides of an opening brace separately |
| `TemplateExact.NoChangedFixpoint` | xtime/format.go:139-145 | one pass that changes some placeholder changes the text |
| `TemplateExact.UnsafeValueDiffers` | xtime/format.go:139-145 | an unsafe value mixes up the replacements of some template |
| `LocaleFormat.FormatTemplateIff` | xtime/format.go:131-148 | FormatTemplate is one-pass substitution for every template if and only if the month and weekday names are safe |
| `LocaleFormat.TimeShows` | xtime/format.go:143-145 | "{%h}", "{%m}" and "{%s}" show digits that read as the hour, the minute and the second, two of them below 100 |
| `LocaleFormat.DateShows` | xtime/format.go:139-141 | "{%d}" shows the day and "{%y}" the signed year, without leading zeros |
| `LocaleFormat.NamesShow` | xtime/format.go:140-142 | "{%M}" and "{%w}" show the month and weekday names that are safe or hold no brace |
| `LocaleFormat.TextKept` | xtime/format.go:131-147 | text without a placeholder stays as it is; the empty template gives the default layout |
| `LocaleFormat.TemplateSplits` | xtime/format.go:136-147 | with safe names a template may be cut before a brace or after a placeholder and its parts formatted one by one |
| `LocaleFormat.PlainNames` | xtime/format.go:131-148 | names without braces and percent signs that are no placeholder letter are safe |
| `TagParser.ParseTagParameters` | data/db/pg/migrate/tag_parser.go:182-217 | the loop over the parts computes Parse, the first rejected parameter included |
| `TagParser.ParseJoined` | data/db/pg/migrate/tag_parser.go:182-217 | parsing a;b is parsing a overridden by parsing b, and fails exactly when one does, with the first error |
| `TagParser.ParseRendered` | data/db/pg/migrate/tag_parser.go:182-217 | parsing inverts rendering of any list of clean pairs and flags |
| `TagParser.ParseOne` | data/db/pg/migrate/tag_parser.go:194-213 | a single pair is checked and stored, a single flag stands for "true" |
| `TagParser.MapRoundTrip` | data/db/pg/migrate/tag_parser.go:182-217 | a map of clean and accepted pairs comes back whole, in any order of rendering |
| `TagParser.NormalForm` | data/db/pg/migrate/tag_parser.go:188-196 | a tag parses as its trimmed form without empty parts does |
| `TagParser.TrimSpaceTrims` | data/db/pg/migrate/tag_parser.go:189 | the result of trimming has no space at either end and no new characters |
| `TagParser.TrimSpaceSplits` | data/db/pg/migrate/tag_parser.go:189 | a text is spaces, then its trimmed form, then spaces |
| `Common.SplitJoined` | data/db/pg/migrate/tag_parser.go:186 | splitting a text joined by a separator gives the parts of both sides |
| `Common.DecimalReadsBack` | consistenthash/int64_ketama.go:63 | the decimal digits of a number read back as it, without a leading zero |
| `CamelText.ToPlainUpperCamel` | camelcase/camel.go:70-97 | the loop over the parts of the unexported toUpperCamel capitalises each part by Go's letter tables, whatever they are |
| `CamelText.ToUnderScore` | camelcase/camel.go:100-129 | the rune loop after the replacer puts an underscore before a capital or digit that follows neither, by Go's letter tables |
| `CamelText.UnderAtEnd` | camelcase/camel.go:112-126 | one more rune adds itself, in lower case if it is a capital or digit, and behind an underscore then unless it follows one |
| `CamelText.UpperCamelJoins` | camelcase/camel.go:75-96 | the words on both sides of an underscore are converted apart from each other |
| `CamelText.UpperCamelOfWord` | camelcase/camel.go:77-94 | a word among others gets a capital and small letters, a word alone only the capital |
| `Camel.UpperCamelIsScan` | camelcase/camel.go:70-97 | on text without capitals, splitting and capitalising is one scan over the letters |
| `Camel.ReplacerKeepsLetters` | camelcase/camel.go:105 | replacing abbreviations changes case only, and no leading capital |
| `Camel.ReplacerLeavesWords` | camelcase/camel.go:105 | the replacer changes nothing where no two capitals are neighbours |
| `ExportedCamel.ReplacersAtFront` | camelcase/camel.go:39-40 | an abbreviation at the front of a text becomes its word, and a word its abbreviation, unless UI begins UID there |
| `Camel.SnakeRoundTripIff` | camelcase/camel.go:70-129 | the underscore loop inverts toUpperCamel on a snake text if and only if no part is empty and only the last may be a single letter |
| `Camel.CamelRoundTripIff` | camelcase/camel.go:70-129 | toUpperCamel inverts ToUnderScore on a text if and only if it is empty, or holds no underscore, starts with no lower-case letter and has no capital behind another or a digit |
| `ExportedCamel.InitialismsHold` | camelcase/camel.go:10-16 | in the list no abbreviation extends another except UID, which comes before UI |
| `ExportedCamel.SpelledIff` | camelcase/camel.go:39-40 | replacing abbreviations by words and back restores a text if and only if every abbreviation readable in the words stands in capitals in the text |
| `ExportedCamel.StableIff` | camelcase/camel.go:44-129 | a text is stable under ToUnderScore and back if and only if it is empty, or holds no underscore, starts with no lower-case letter, its abbreviations written as words has no capital behind another or a digit, and every abbreviation then readable stands in capitals in it |
| `ExportedCamel.LawIff` | camelcase/camel_test.go:156-160 | the same condition says exactly when the round-trip law holds, for every text |
| `CamelText.LawOnAscii` | camelcase/camel_test.go:156-160 | the law for the functions with Go's letter tables, for every ASCII text |
| `CamelText.RoundTripOnAscii` | camelcase/camel.go:70-129 | the round trip of toUpperCamel and ToUnderScore with Go's letter tables, for every ASCII text |
| `ExportedCamel.SeparateWordsStableIff` | camelcase/camel.go:44-129 | separate words, once abbreviated, are stable if and only if no Ui comes before Dns |
| `ExportedCamel.SnakeLawIff` | camelcase/camel_test.go:156-160 | on tidy snake text the law fails exactly where "ui" stands before "dns" |
| `ExportedCamel.LawFails` | camelcase/camel_test.go:156-160 | the law fails for "ui_dns" |

## Left out

- Rings: the `key` stored with a spot, which nothing reads; the mutexes and the pool of hashers (the ring object is sequential); murmur3 itself; `Len`.
- Bitmap and Bloom filter: the mutex; running out of memory; `estimateParameters`, which is floating point, so its two results are parameters; the hash variant for more than eight functions, which NewInt64Bloom never asks for.
- TurnOff: the error returned; the stopper is a value of a step system, shared by its goroutines through the schedule, and not an object with aliases. The same holds of StopHooks, Futures and Delayer.
- StopHooks: what a user function does besides ending. A Done that brings the counter to zero and wakes the waiters is one step; an Add that falls between the two would panic itself, and is a late Add like the ones described.
- Futures: `GetWithContext`, `GetWithTimeout`, `IsComplete`; the unlocked read in Cancel is one step and never torn.
- FutureChain: the value types of a chain are one type V that holds them all, with a zero value for each stage; Complete is one step, which `Futures.RunIsSettles` and `Futures.OneEffectEach` justify.
- Delayer: `IsExpired`, `TimeRemaining` and the times themselves (a timer may fire at any moment); the timer is stopped as from Go 1.23 on, which go.mod requires.
- Migrator: a nil `Up` function; migration functions that change the record table or the migrator; `Status`; a connection busy with open rows during rollback; comments in the table.
- Times: daylight saving (the offset is fixed), `time.Now`, `Init`, loading of zones, and the bounds of `time.Time`; only the negation of a delay wraps.
- Locale formatting: `FormatDuration`, month and weekday names by number, locale files; the default layout of an empty template is any text.
- TagParser: the validators are any predicate on key and value; `ParseTag`, `inferTypeFromField`, `BuildColumnDefinition` and reflection are easy case distinctions.
- CamelRoundTripIff: letter case is that of ASCII; `RoundTripOnAscii` carries it to Go's tables for ASCII text.
- LawOnAscii: texts with other than ASCII characters, where letter case need not be invertible, are not covered; nor is `ToLowerCamel`.
- Everything else of the repository: database, Redis and Mongo clients, migrate.go, file_migrator.go, security, compress, xid, multipool, xrand, errors, and `Timeout` in routines.go, whose select may prefer either of two ready cases.
