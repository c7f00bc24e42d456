# Verified models of ART's transactions, file commits, CFG dump and debugger connection

This project models five parts of the Android Runtime (ART) in Dafny and proves what they are for.

* **Transactional class initialization** (`dex2oat`). While a class initializer runs at compile
  time, the old values of stored slots and the changes of the intern tables are logged, so that an
  aborted initializer leaves no trace; objects that the interpreter allocates are logged as new, while
  strings and objects made by the runtime are not logged at all. The model is a machine over a typed heap with a stack of nested transactions.
  Its events are entering, committing and rolling back a transaction, guarded and unguarded stores,
  allocations, intern-table operations, freeing objects and moving objects, in any order. The
  source's classes are modelled as classes whose methods are proved to be steps of that machine.
* **Committing files as a group** (`artd`). A set of files is moved into place with temporaries and
  undo, so that a failure at any point loses nothing. On top of it are the commit of staged
  artifacts, cleanup, and the cancellation signal as a machine of interleaved threads.
* **The control flow graph of `dexdump`**. Blocks, branch edges and exception edges come from
  several passes; the graph is proved to be exactly what the instructions say.
* **The debugger connection** (`adbconnection`). Packets are read without the agent only as long as
  the stream stays on a packet boundary; options are parsed and printed again.
* **Memory sizes on the command line** (`cmdline`).

## Main results

* Rolling back after any run restores every slot of every surviving object that existed at
  outermost entry, the strong intern table, and the weak one but for strings that were freed
  (`TransactionRuns.AbortedRunLeavesNoTrace`); with committed
  inner transactions, each slot gets the value held by the outermost open transaction that logged it
  (`OutermostLogWins`). This holds with a moving collector in between, up to renaming of addresses
  (`MovingGc.AbortedMovingRunLeavesNoTrace`, `RollbackCommutesWithMoving`), and no reference dangles
  (`StrictIsolation.RollbackNeverDangles`). A whole run through the class linker's methods ends so
  (`AotLinker.AotClassLinker.RunThenRollBack`).
* Rolling back also completes: undoing finds every string it has to remove from an intern table, in
  every run without commits and in every run whose commits are harmless
  (`TransactionRuns.HarmlessRunsRollBack`); see below for when a commit is not.
* In strict mode, what a nested initializer commits is never taken back (`NestedCommitSurvives`),
  wherever objects move (`StrictMoving.MovingCommitSurvives`).
* A value that a class initializer stores in a static field of its own class and commits is there for
  good (`StrictIsolation.OwnStoreIsCommittedForGood`). Guarded stores go through or abort exactly as
  the constraints say, and runs that respect them are never aborted
  (`GuardedStores.GuardedStoreExactly`, `GuardedStores.PermittedRunsAreNotAborted`).
* In a boot image extension, no run makes a slot refer to an object whose class could lead out of
  the extension and the boot image, and no rollback brings one in (`ExtensionRuns.ExtensionStaysClosed`).
* The group move is all or nothing at every failure point. In every state before the point of no
  return each old file is at its own or its recorded temporary path; a failed call never passes that
  point, and from it on every state has the new contents in place (`FileCommit.MoveAllOrAbandon`).
* Every run of a method is a path of the drawn graph (`DexdumpEdges.RunsArePaths`), and every edge is
  a move of control (`DexdumpEdges.EdgesAreMoves`).
* For every run of the poll loop, an agent that takes over finds the handshake done and exactly the
  packets after those that were handled without it (`AdbConnection.Serve`).

## Where the code does not do what one would expect

* **Rolling back after a commit.** Undoing an insertion removes the string from its table, and
  `Table::Remove` ends the process when it is not there. A commit drops the log of the inner
  transaction, so a string that the outer one interned weakly and the inner one promoted to the strong
  table is missed later; `StrictIsolation.PromotionGetsStuck` is such a run. When undoing finds
  everything is decided by the order of the logged operations and the tables
  (`InternLogs.UndoFindsExactly`), and a commit keeps it so exactly when each entry whose newest
  remaining operation is an insertion is in its table (`TransactionRuns.ExitExactly`).
* **Weak intern table.** A collection erases weak entries for strings it frees and records nothing,
  so rolling back does not bring them back. The weak table is the one at entry exactly when no string
  in it was freed (`TransactionRuns.WeakTableRestoredExactly`); `WeakEntryLost` is a run that loses one.
* **Floating point array elements.** They are recorded by numeric conversion to a 64-bit word and
  converted back. With values taken as real numbers, the old value comes back if and only if it is a
  non-negative integer below 2^64 (`HeapModel.SlotRoundTrip`); 0.5 does not (`FloatingElementLost`).
  Negative zero, which comes back positive, is not told apart from zero here.
* **Re-keying after a move.** `UpdateKeys` renames keys one at a time, largest old address first,
  and requires each insertion to find a free place. It fails exactly when some logged object moves
  down onto the old address of another logged object that is still waiting
  (`RootVisit.CollisionExactlyDownward`, `RootVisit.UpdateKeys`); `RekeyingCollides` is such a move.
* **Artifact names.** For a dex file in the dalvik-cache whose own path ends in ".art", the oat file
  and the art file get the same name. This happens in no other case (`ArtifactPaths.NamesDistinctExactly`);
  "/a.art" is one (`OatAndArtCoincide`). Committing such a staged set always fails: the move is listed
  twice, and the second time its source is gone. Every staged file of the call is then deleted
  (`StagedCommit.ArtPathRepeats`, `StagedCommit.CommitPreRebootStagedFiles`).
* **"transport" before "address".** The header of `JdwpArgs` says that the agent needs this order.
  `MakeAgentArg` gives it exactly when the user's options have no address, or a transport before it
  (`JdwpOptions.TransportFirstExactly`); "address=1" is an input without it (`AddressFirst`).
* **Completed log file name.** The agent reads back the options it was given unless the log file
  was completed with a package name that has a comma or white space (`JdwpOptions.AgentReadsBack`);
  `PackageWithComma` is such a case.

## Assumptions

System calls, the collector's choices, the agent loader and the chunk handler are parameters or
nondeterministic outcomes. File system calls may fail at any point. Two reads are taken to deliver
all bytes that are known to be available. Different moves of one group move have different paths and
no file has the name of another one's temporary. Interface tables are complete, and the boot image is closed
under what its classes name.

## Model

| member | source | states |
|---|---|---|
| `HeapModel.NarrowUndoesSignExtend` | art/dex2oat/transaction.cc:207-262 | widening a field to 64 bits with sign and narrowing it again gives the same bits |
| `HeapModel.FieldRoundTrip` | art/dex2oat/transaction.cc:548-629 | the logged word of a field of any type, decoded by the kind it was logged with, is the field's value |
| `HeapModel.SlotRoundTrip` | art/dex2oat/transaction.cc:743-790 | a logged slot decodes to its old value if and only if it is not a floating point element, or is one whose value, taken as a real number, is a non-negative integer below 2^64 |
| `HeapModel.FloatingElementLost` | art/dex2oat/transaction.cc:771-782 | a floating point element for which the old value does not come back |
| `TransactionModel.UndoKeepsHeapValid` | art/dex2oat/transaction.cc:335-365 | undoing a well-formed log leaves every slot typed and no reference dangling |
| `TransactionModel.InverseUndoesIntern` | art/dex2oat/transaction.cc:641-679 | an insertion of an absent string or a removal of a present one is undone by its inverse, in either table |
| `TransactionModel.UndoInternsRestores` | art/dex2oat/transaction.cc:367-375 | undoing newest first restores both tables after any sequence of allowed operations, repeats included |
| `TransactionModel.RecordKeepsEntry` | art/dex2oat/transaction.cc:512-527 | a second store to a slot does not replace the value logged first |
| `TransactionModel.RecordStoresWord` | art/dex2oat/transaction.cc:207-294 | the first store to a slot logs the encoding of the value the slot has, unless the object is the cached allocation or flagged new |
| `TransactionModel.RecordAddsEntry` | art/dex2oat/transaction.cc:207-294 | the entry made by the first store gives a recoverable value back, unless this transaction allocated the object |
| `TransactionModel.RecordFramesOtherSlots` | art/dex2oat/transaction.cc:207-294 | recording one slot does not change what undoing does to any other |
| `InternLogs.UndoFindsExactly` | art/runtime/intern_table.cc:322-333 | undoing a log finds every string it removes exactly when, for each logged insertion, the next logged operation on the same entry is a removal, or there is none and the entry is in its table now |
| `InternLogs.DroppingExactly` | art/dex2oat/aot_class_linker.cc:292-300 | after dropping the newest operations, undoing the rest still finds everything exactly when each entry whose newest remaining operation is an insertion is there |
| `InternLogs.HarmlessDrop` | art/dex2oat/aot_class_linker.cc:292-300 | dropping operations that remove no entry which the rest inserted keeps this: undoing the rest finds the very strings that were inserted |
| `TransactionRuns.OutermostLogWins` | art/dex2oat/aot_class_linker.cc:302-318 | rolling back all transactions gives each slot the value of the outermost one that undoes it, or leaves it as it is |
| `TransactionRuns.RollbackAllIsUnwind` | art/dex2oat/aot_class_linker.cc:302-308 | rolling back the whole stack is, slot by slot, undoing each transaction from the innermost out |
| `TransactionRuns.StepKeeps` | art/dex2oat/aot_class_linker.cc:267-318 | every event keeps the invariant: undoing the n innermost transactions takes the heap back to the snapshot at the n-th entry, less what was freed since; logs mention live slots only, and new-object flags are on newer objects only |
| `TransactionRuns.RunKeeps` | art/dex2oat/aot_class_linker.cc:267-318 | every run keeps that invariant |
| `TransactionRuns.StepKeepsOwned` | art/dex2oat/transaction.cc:367-375 | every event, a commit only if it is harmless, keeps this: undoing finds, when the turn of an insertion comes, the very string that was inserted in its table |
| `TransactionRuns.RollsBackInSteps` | art/dex2oat/aot_class_linker.cc:302-308 | rolling back everything completes exactly when rolling back the innermost transaction does and the rest completes after it |
| `TransactionRuns.ExitExactly` | art/dex2oat/aot_class_linker.cc:292-300 | after a commit rolling back everything still completes exactly when each entry whose newest remaining operation is an insertion is in its table |
| `TransactionRuns.HarmlessRunsRollBack` | art/runtime/intern_table.cc:322-333 | at the end of every run in which no commit drops the removal of an entry that an enclosing transaction inserted, rolling back everything finds all it removes |
| `TransactionRuns.UnwindTablesSwept` | art/runtime/intern_table.cc:401-416 | sweeping the weak table commutes with undoing any number of transactions, because logged strings are kept alive |
| `TransactionRuns.RollbackAllRestoresOutermost` | art/dex2oat/aot_class_linker.cc:302-308 | after any run, commits included, rolling back everything restores the outermost snapshot except for slots an inner commit changed without a surviving log entry, and completes if the commits are harmless |
| `TransactionRuns.AbortedRunLeavesNoTrace` | art/dex2oat/transaction.cc:335-365 | if nothing is committed, rolling back everything completes and restores, for every object that existed at outermost entry and was not freed, every field but the one at offset 0 and, in arrays, the one at offset 8, and every element that is no floating point number or a non-negative integer below 2^64; the strong intern table is restored, and the weak one less the entries whose strings were freed |
| `TransactionRuns.UncommittedExactly` | art/dex2oat/aot_class_linker.cc:292-318 | a run commits nothing exactly when it has no exit and at every point fewer transactions have been rolled back than opened |
| `TransactionRuns.RunKeepsShapes` | art/dex2oat/transaction.cc:391-410 | an object keeps its class, fields and kind through every run that does not free it |
| `TransactionRuns.WeakTableRestoredExactly` | art/runtime/intern_table.cc:317-320 | the weak table is restored exactly when no string that was in it at entry is freed |
| `TransactionRuns.WeakEntryLost` | art/runtime/intern_table.cc:401-416 | a run with a collection after which a weak entry is missing |
| `StrictIsolation.StrictLogsMentionOnlyRoot` | art/dex2oat/transaction.cc:124-137 | in every state of every strict run no open transaction's log mentions a class object other than its root |
| `StrictIsolation.CommittedStaticsSurvive` | art/dex2oat/aot_class_linker.cc:50-111 | from any such state, the static fields of a class that no open transaction initializes are changed neither by any further strict run nor by rolling back all transactions at its end, which completes if the commits are harmless |
| `StrictIsolation.NestedCommitSurvives` | art/dex2oat/aot_class_linker.cc:95-111 | the same for any strict run followed by any other: what was committed is still there after rolling back everything |
| `StrictIsolation.CommitSettles` | art/dex2oat/aot_class_linker.cc:95-111 | committing the only transaction that initializes a class settles its static fields |
| `StrictIsolation.OwnStoreIsCommittedForGood` | art/dex2oat/aot_class_linker.cc:50-111 | a value that an initializer stores in a static field of its own class before it is committed is there after every strict run that follows, and after rolling back what is open then |
| `StrictIsolation.PromotionGetsStuck` | art/runtime/intern_table.cc:234-246 | a strict run with a commit after which rolling back everything does not complete |
| `StrictIsolation.CacheAgreesWithFlags` | art/dex2oat/transaction.cc:187-201 | in every reachable state the cached last allocation is flagged new in the log that owns its kind and has no slot in any enclosing snapshot, so skipping its records loses nothing |
| `StrictIsolation.RollbackNeverDangles` | art/dex2oat/transaction.cc:391-410 | after any run, collections included, rolling back everything leaves a well-typed heap with no dangling reference, because logs keep what they refer to alive; it completes if the commits are harmless |
| `StrictMoving.MovingLogsMentionOnlyRoot` | art/dex2oat/transaction.cc:124-137 | the same isolation of logs in every state of every strict run in which objects move |
| `StrictMoving.MovingCommitSurvives` | art/dex2oat/aot_class_linker.cc:95-111 | committed static fields keep their values through any strict run with moves and through rolling back everything, at the class's new address, references renamed; rolling back completes if the commits are harmless |
| `StrictMoving.MovingRollbackNeverDangles` | art/dex2oat/transaction.cc:391-410 | after any run with moves, rolling back everything leaves no reference dangling, and completes if the commits are harmless |
| `MovingGc.UndoCommutes` | art/dex2oat/transaction.cc:335-347 | undoing a transaction commutes with moving objects |
| `MovingGc.RollbackAllCommutes` | art/dex2oat/aot_class_linker.cc:302-308 | rolling back a whole stack commutes with moving objects |
| `MovingGc.StepCommutes` | art/dex2oat/transaction.cc:203-333 | every event that is possible is possible in its renamed form after a move, with the renamed result |
| `MovingGc.MovesOnlyRename` | art/dex2oat/transaction.cc:391-468 | a run with moves in it ends in the renamed image of the run without them |
| `MovingGc.RollbackCommutesWithMoving` | art/dex2oat/transaction.cc:391-468 | for every run interleaved with moves, rolling back at the end gives the renamed image of rolling back when nothing moved, and completes exactly when that does |
| `MovingGc.RollsBackAfterMoves` | art/dex2oat/transaction.cc:367-375 | moving objects does not change whether rolling back everything completes |
| `MovingGc.AbortedMovingRunLeavesNoTrace` | art/dex2oat/transaction.cc:335-365 | the restoration result with moves in the run: rolling back completes, objects at their new addresses have the old values of the same fields and elements, references renamed, the strong table its old entries and the weak one those not freed |
| `MovingGc.EveryMoveIsExchanges` | art/dex2oat/transaction.cc:424-462 | every finite move of objects to distinct addresses is a sequence of the exchanges the results are stated for |
| `MovingGc.LogsStayValidWhenMoving` | art/dex2oat/transaction.cc:391-410 | in every state of every run with moves, logs mention live slots and the cached last allocation is flagged new |
| `RootVisit.CollectMovingRoots` | art/dex2oat/transaction.cc:424-441 | the list of moving roots has exactly the keys that move, with their new addresses, in descending order |
| `RootVisit.CollisionExactlyDownward` | art/dex2oat/transaction.cc:411-422 | an insertion finds its place taken exactly when that key moves down onto a key that is still to be moved |
| `RootVisit.UpdateKeys` | art/dex2oat/transaction.cc:411-422 | the log is re-keyed with every entry kept, or the insertion check fails, which happens exactly when a key moves down onto another key |
| `RootVisit.RekeyingCollides` | art/dex2oat/transaction.cc:411-422 | a move of two objects to distinct addresses for which re-keying fails |
| `TransactionImpl.UndoObjectLog` | art/dex2oat/transaction.cc:529-546 | every logged field but that at offset 0 and an array's at offset 8 gets its logged value, and nothing else changes |
| `TransactionImpl.UndoArrayLog` | art/dex2oat/transaction.cc:734-741 | every logged element gets its logged value, and nothing else changes |
| `TransactionImpl.Transaction.Abort` | art/dex2oat/transaction.cc:94-106 | sets the aborted flag and nothing else |
| `TransactionImpl.Transaction.RecordNewObject` | art/dex2oat/transaction.cc:167-172 | the state after recording a new object |
| `TransactionImpl.Transaction.RecordNewArray` | art/dex2oat/transaction.cc:174-185 | the state after recording a new array, in the log that owns its kind |
| `TransactionImpl.Transaction.ObjectNeedsTransactionRecords` | art/dex2oat/transaction.cc:187-193 | false exactly when no record of a store to the object, whichever field and value it has, can change the log |
| `TransactionImpl.Transaction.ArrayNeedsTransactionRecords` | art/dex2oat/transaction.cc:195-201 | the same for the elements of primitive arrays |
| `TransactionImpl.Transaction.RecordWriteField` | art/dex2oat/transaction.cc:207-284 | the new state is that of the run model's record of a field |
| `TransactionImpl.Transaction.RecordWriteArray` | art/dex2oat/transaction.cc:286-294 | the new state is that of the run model's record of an element |
| `TransactionImpl.Transaction.LogInternedString` | art/dex2oat/transaction.cc:330-333 | the operation is put in front of the log |
| `TransactionImpl.Transaction.UndoObjectModifications` | art/dex2oat/transaction.cc:349-356 | every logged field of every logged object is undone and the log is empty |
| `TransactionImpl.Transaction.UndoArrayModifications` | art/dex2oat/transaction.cc:358-365 | every logged element of every logged array is undone and the log is empty |
| `TransactionImpl.Transaction.UndoInternStringTableModifications` | art/dex2oat/transaction.cc:367-375 | succeeds exactly when every string to be removed is in its table at its turn; then the tables are those of undoing newest first, and the log is empty |
| `TransactionImpl.Transaction.Rollback` | art/dex2oat/transaction.cc:335-347 | the heap is the undone heap of the run model; fails exactly when a string to be removed is not in its table |
| `TransactionImpl.Transaction.VisitRoots` | art/dex2oat/transaction.cc:391-410 | every root is replaced by where the visitor says it is and every log is re-keyed, unless a key moves down onto another one |
| `VisitRefines.VisitRootsRenames` | art/dex2oat/transaction.cc:391-468 | what the root visit makes of a transaction is its image under the collector's renaming |
| `VisitRefines.VisitedStateIsRelocated` | art/dex2oat/aot_class_linker.cc:509-513 | a successful visit of all open transactions, with the heap moved, is the relocation of the whole state |
| `VisitRefines.MovesAreRealized` | art/dex2oat/transaction.cc:424-462 | a collection that moves live objects to distinct addresses is a sequence of exchanges |
| `AotLinker.AotClassLinker.EnterTransactionMode` | art/dex2oat/aot_class_linker.cc:267-290 | is the Enter step |
| `AotLinker.AotClassLinker.ExitTransactionMode` | art/dex2oat/aot_class_linker.cc:292-300 | is the Exit step |
| `AotLinker.AotClassLinker.RollbackAndExitTransactionMode` | art/dex2oat/aot_class_linker.cc:310-318 | is the RollbackExit step, and fails exactly when that step is not possible because a string to be removed is not in its table |
| `AotLinker.AotClassLinker.RollbackAllTransactions` | art/dex2oat/aot_class_linker.cc:302-308 | completes exactly when undoing finds every string it removes, and then ends with no transaction open and the heap unwound through all of them |
| `AotLinker.AotClassLinker.TransactionWriteConstraint` | art/dex2oat/aot_class_linker.cc:334-358 | blocks every store to the boot image; in strict mode besides exactly the stores to classes other than the root, and otherwise exactly the references to what a boot image extension may not refer to; marks the innermost transaction aborted if it blocks |
| `GuardedStores.GuardedStoreExactly` | art/dex2oat/transaction.cc:124-153 | a guarded store puts the value in its slot and aborts nothing exactly when its object is outside the boot image, is no class other than the root in strict mode, and the value is none that a boot image extension may not refer to; otherwise it changes the aborted flag only |
| `GuardedStores.OwnStaticsAreWritable` | art/dex2oat/transaction.cc:124-137 | in strict mode an initializer can set its own class's static fields and every object outside the boot image that is no class |
| `GuardedStores.ValueIsNoReason` | art/dex2oat/transaction.cc:139-153 | null, and any value in strict mode or without a boot image to extend, is never the reason for refusing a store |
| `GuardedStores.AbortsExactly` | art/dex2oat/transaction.cc:94-106 | an event aborts a transaction exactly when it is a guarded store that is not permitted |
| `GuardedStores.PermittedRunsAreNotAborted` | art/dex2oat/transaction.cc:124-153 | in every run whose guarded stores are all permitted no transaction is ever aborted |
| `GuardedStores.AllocationAdds` | art/runtime/interpreter/interpreter_switch_impl-inl.h:862-910 | an allocation adds the object with its slots and changes no other slot and no table |
| `GuardedStores.AllocationIsFlagged` | art/dex2oat/transaction.cc:167-185 | an allocation that is reported is the last one of the innermost transaction and flagged new in the log of its kind; one that is not changes no log |
| `GuardedStores.NewObjectsAreNotLogged` | art/dex2oat/transaction.cc:187-201 | stores to an object that the transaction allocated, the last one or an earlier one, leave the log alone |
| `GuardedStores.LoggedWords` | art/dex2oat/transaction.cc:207-294 | the words logged for byte, short, char, int and floating point values, with or without sign |
| `GuardedStores.CollectionTakes` | art/runtime/intern_table.cc:401-416 | a collection takes exactly the freed objects, their slots and their weak entries away |
| `GuardedStores.HarmlessExactly` | art/runtime/intern_table.cc:322-333 | a commit is harmless exactly when no string that it removed from a table has the text of one an enclosing transaction inserted there |
| `GuardedStores.FieldStoresArePossible` | art/runtime/mirror/object-inl.h:395-500 | exactly the values of a field's type can be stored in it, in any transaction or none |
| `GuardedStores.ElementStoresArePossible` | art/runtime/mirror/array-inl.h:95-107 | the same for elements of primitive arrays |
| `AotLinker.AotClassLinker.Store` | art/runtime/mirror/object-inl.h:395-500 | checking, recording and storing is the Write step |
| `AotLinker.AotClassLinker.RecordAt` | art/runtime/mirror/object-inl.h:395-500 | the record entry point called for a slot's type records the slot's current value |
| `AotLinker.AotClassLinker.Allocate` | art/runtime/interpreter/interpreter_switch_impl-inl.h:862-910 | is the Allocate step, recorded in the innermost transaction if the interpreter reports it |
| `AotLinker.AotClassLinker.InternString` | art/runtime/intern_table.cc:202-247 | interning looks in the strong table, then in the weak one, promotes or inserts, returns the string found or inserted, and is the run of the corresponding Intern steps |
| `Interning.InterningFindsOrAdds` | art/runtime/intern_table.cc:202-247 | interning is possible in every state; the result has the same text and is in the table asked for or in the strong one, no other text changes, no strong entry is lost, and no text gets into both tables |
| `Interning.InterningIsCanonical` | art/runtime/intern_table.cc:202-247 | interning any string of the same text afterwards returns the same object and changes nothing, unless it is the first strong request |
| `AotLinker.AotClassLinker.Perform` | art/dex2oat/aot_class_linker.cc:267-318 | any event that is possible is performed as its step, keeping the linker valid |
| `AotLinker.AotClassLinker.RunThenRollBack` | art/dex2oat/aot_class_linker.cc:302-308 | performing any run and rolling back what is open at its end completes exactly when undoing finds all it removes, always so if the commits are harmless; if nothing is committed, no trace of the run is left in any field but those at offset 0 and, in arrays, 8, nor in any element |
| `AotLinker.AotClassLinker.VisitTransactionRoots` | art/dex2oat/aot_class_linker.cc:509-513 | visits every open transaction; succeeds exactly when in none a key moves down onto another one |
| `AotLinker.AotClassLinker.MoveObjects` | art/dex2oat/aot_class_linker.cc:509-513 | a moving collection relocates the whole state, unless a key moves down onto another one |
| `ClassReferences.CanReferenceInBootImageExtensionOrAppImage` | art/dex2oat/aot_class_linker.cc:146-233 | answers whether the class is accepted |
| `ClassReferences.CheckSuperclasses` | art/dex2oat/aot_class_linker.cc:197-205 | true exactly when every superclass up to the boot image has an allowed dex file |
| `ClassReferences.AcceptedClosed` | art/dex2oat/aot_class_linker.cc:146-233 | the superclass, every interface and the component of an accepted class are accepted |
| `ClassReferences.AcceptedIsHarmless` | art/dex2oat/aot_class_linker.cc:148-151 | whatever an accepted class refers to, by any chain, is accepted, and is in the boot image, an array, or of a dex file that is outside the boot image and, for an app image, in its list |
| `ClassReferences.AcceptedExactly` | art/dex2oat/aot_class_linker.cc:146-233 | walking superclasses and one interface table accepts a class outside the boot image exactly when everything reachable from it is in the boot image, an array or of a covered dex file, and its element class can be part of the image |
| `ClassReferences.AcceptedByFields` | art/dex2oat/aot_class_linker.cc:146-233 | the rule class by class, over the fields only: when a boot class, an array and any other class is accepted, given its component, its superclass and its interfaces |
| `ClassReferences.LibraryClassIsRefused` | art/dex2oat/aot_class_linker.cc:175-191 | in an app image of one dex file, a class is accepted exactly when it is of that file |
| `ExtensionRuns.GuardedStoresAreClosed` | art/dex2oat/transaction.cc:139-153 | a guarded store in a boot image extension either stores a reference whose whole class closure is harmless, or leaves the heap alone and aborts |
| `ExtensionRuns.StepKeepsClosed` | art/dex2oat/transaction.cc:139-153 | every event of a boot image extension's run keeps all slots and all logged values free of references to objects the rule does not accept, but for those that were in the same slot at the start |
| `ExtensionRuns.ExtensionStaysClosed` | art/dex2oat/transaction.cc:139-153 | after every such run, and after rolling back from there, everything that the class of a referenced object refers to is harmless, but for references that were in the same slot at the start |
| `FileCommit.SetAllAside` | art/artd/file_utils.cc:172-209 | every old file that exists is moved to a fresh temporary, or the call stops with all of them at their own or their temporary path; a file that is listed again is found gone |
| `FileCommit.SetOneAside` | art/artd/file_utils.cc:181-208 | one old file goes to a fresh temporary or stays where it is, for every way a call can fail |
| `FileCommit.MakeMoves` | art/artd/file_utils.cc:211-219 | moves are made in order up to the first one that fails; a move that is listed again fails |
| `FileCommit.UnlinkNewFiles` | art/artd/file_utils.cc:147-155 | unlinks what was moved and the sources that were not, and touches no old file |
| `FileCommit.MoveOldFilesBack` | art/artd/file_utils.cc:157-169 | every temporary goes back to where it came from |
| `FileCommit.Abandon` | art/artd/file_utils.cc:147-170 | undoing everything after a failure at any move loses nothing, and restores the old state if every undo call works |
| `FileCommit.CleanUpOldFiles` | art/artd/file_utils.cc:221-231 | temporaries are removed after the point of no return, with the new contents in place in every state |
| `FileCommit.MoveAllOrAbandon` | art/artd/file_utils.cc:141-231 | success: destinations hold their sources' contents, listed files, sources and temporaries are gone; failure with working undo: everything as before but the sources are gone; every state before the point of no return has each old content at its own or its temporary path, every state from it on has the new contents in place, and a failed call never reaches it; without faults it succeeds exactly when no move is listed twice, all sources exist and no old file is a directory |
| `FileCommit.PossibleExactly` | art/artd/file_utils.cc:181-219 | what it needs without faults: every source, and no directory at a destination or among the files to remove |
| `FileCommit.ReplacedExactly` | art/artd/file_utils.cc:211-231 | replaced means: each destination holds what its source held, sources and removed files are gone, all other files are as before |
| `FileCommit.AbandonedExactly` | art/artd/file_utils.cc:147-170 | abandoned means: the sources are gone and all other files are as before |
| `FileCommit.TempNameExactly` | art/artd/file_utils.cc:250-252 | a temporary path is the file's path, a dot, six characters and ".tmp" |
| `NewFiles.Create` | art/artd/file_utils.cc:60-116 | a new empty file under a fresh temporary name of the path, or nothing changed |
| `NewFiles.NewFile.Keep` | art/artd/file_utils.cc:69-74 | the file will not be unlinked by cleanup |
| `NewFiles.NewFile.Cleanup` | art/artd/file_utils.cc:92-100 | unlinks exactly a file that was neither kept nor cleaned up |
| `NewFiles.NewFile.CommitOrAbandon` | art/artd/file_utils.cc:76-90 | the final path gets the content and the temporary is gone, or nothing but the temporary is gone |
| `NewFiles.CommitAllOrAbandon` | art/artd/file_utils.cc:123-139 | all new files are committed or all abandoned, with the guarantees of the group move for every state on the way and for when it succeeds |
| `ArtifactPaths.StagedIsStaged` | art/artd/path_utils.cc:342-344 | a staged name is recognized as such and is no temporary name |
| `ArtifactPaths.TempIsTemp` | art/artd/file_utils.cc:250-252 | a name made for a temporary is recognized as one, so it is no final name |
| `ArtifactPaths.ReplacedExtension` | art/libartbase/base/file_utils.cc:758-770 | a name with its extension replaced ends with the new extension |
| `ArtifactPaths.OatNameEnds` | art/libartbase/base/file_utils.cc:623-641 | the extension of an oat file's name, beside the dex file and in the dalvik-cache |
| `ArtifactPaths.ArtifactNamesAreFinal` | art/artd/path_utils.cc:162-198 | the names of an artifact set are final names |
| `ArtifactPaths.NamesDistinctExactly` | art/artd/path_utils.cc:162-198 | the three names of a set differ, except that oat and art coincide exactly for a ".art" dex path in the dalvik-cache |
| `ArtifactPaths.OatAndArtCoincide` | art/libartbase/base/file_utils.cc:623-641 | a dex path for which the oat and the art file have one name |
| `ArtifactPaths.BuiltExactly` | art/artd/path_utils.cc:162-198 | names are built exactly for an absolute dex path and a known instruction set |
| `ArtifactPaths.NamesBesideDexFile` | art/artd/path_utils.cc:162-198 | "dir/stem.ext" has its artifacts in "dir/oat/isa/" with that stem and the extensions odex, vdex and art |
| `ArtifactPaths.NameInDalvikCache` | art/libartbase/base/file_utils.cc:623-641 | the name in the dalvik-cache, for every location |
| `ArtifactPaths.DalvikCacheExample` | art/libartbase/base/file_utils.cc:623-641 | "/a/b.apk" becomes "/a@b.apk@classes.dex" |
| `ArtifactPaths.OdexNamesDiffer` | art/artd/path_utils.cc:162-198 | two artifacts beside their dex files share a name only for the same instruction set, directory and stem |
| `StagedCommit.PreRebootNames` | art/artd/path_utils.cc:191-195 | staged names are the final names with the suffix |
| `StagedCommit.PreRebootProfileNames` | art/artd/path_utils.cc:200-238 | the staged name of a profile is its final name with the suffix |
| `StagedCommit.ProfileNameIsFinal` | art/artd/path_utils.cc:200-238 | a profile's name is a final name |
| `StagedCommit.PrimaryProfileName` | art/artd/path_utils.cc:200-210 | the name of a primary profile, and the packages and profiles that are refused |
| `StagedCommit.SecondaryProfileName` | art/artd/path_utils.cc:229-238 | the profile of a secondary dex file is in the directory "oat" beside it |
| `StagedCommit.PrimaryProfilesDiffer` | art/artd/path_utils.cc:200-210 | different packages or profiles have different files |
| `StagedCommit.BuiltTriplesAreFinal` | art/artd/path_utils.cc:162-198 | the names of a built artifact set are three different final names exactly when it is not in the ".art" case |
| `StagedCommit.PlanIsAcceptable` | art/artd/artd.cc:1540-1594 | for any artifact sets and profiles with final names, repeated or not, the plan has distinct paths and no clash with temporaries |
| `StagedCommit.BuiltNamesAreFinal` | art/artd/artd.cc:1540-1594 | every name built for a commit is a final one |
| `StagedCommit.ArtPathRepeats` | art/artd/artd.cc:1559-1567 | a staged artifact set in the ".art" case makes the list of moves have a move twice |
| `StagedCommit.PlanArtifacts` | art/artd/artd.cc:1545-1568 | the moves and removals planned for the artifact sets, or an error exactly when a name cannot be built |
| `StagedCommit.PlanProfiles` | art/artd/artd.cc:1570-1584 | the moves planned for the profiles, or an error exactly when one is marked pre-reboot or its name cannot be built |
| `StagedCommit.BuildableExactly` | art/artd/artd.cc:1548-1584 | the arguments that are refused as a whole |
| `StagedCommit.PlannedExactly` | art/artd/artd.cc:1559-1584 | which moves and removals a set and a profile contribute, given which staged names are regular files |
| `StagedCommit.DifferentFilesAreDistinct` | art/artd/artd.cc:1540-1594 | artifacts beside different dex files and different profiles never share a name, so the commit's result for distinct names applies |
| `StagedCommit.ReplacedSetsAreWhole` | art/artd/artd.cc:1540-1594 | after a successful commit of sets with distinct names each set is entirely staged, or entirely old if its oat file was not staged; the art file is removed when none was staged |
| `StagedCommit.AbandonedSetsAreOld` | art/artd/artd.cc:1540-1594 | after a failed commit each set is entirely old |
| `StagedCommit.CommitPreRebootStagedFiles` | art/artd/artd.cc:1540-1594 | for every list of sets and profiles and every failure point, the commit leaves each set as above and no staged file, loses no old file even when undo calls fail, and bad arguments change nothing; without faults it succeeds exactly when no move is listed twice, all sources exist and no old file is a directory, so never with a staged set in the ".art" case |
| `Cleanup.Disk.GetSizeAndDeleteFile` | art/artd/artd.cc:189-198 | returns the size of the file if and only if it deleted it |
| `Cleanup.FilesToKeep` | art/artd/artd.cc:1287-1311 | the files to keep are the given ones and all names of the given artifact sets |
| `Cleanup.CleanUp` | art/artd/artd.cc:1281-1321 | every file on disk that is given to be kept, named by an artifact set, not listed, or staged while staged files are kept is still there with its size; deletion is attempted for every other listed file, and what is left of those is what could not be deleted; the result is the drop in total size, with repeated names and failed deletions |
| `Cleanup.DoomedExactly` | art/artd/artd.cc:1312-1319 | deletion is attempted for exactly the listed files that are not to be kept and, while staged files are kept, do not end in ".staged", and as often as listed |
| `Cleanup.DoomedInOrder` | art/artd/artd.cc:1312-1319 | attempts are made in the order of the listing |
| `Cleanup.DeleteObsolete` | art/artd/artd.cc:1312-1319 | the loop over the listing deletes what is obsolete and accounts for what it frees |
| `Cancellation.StepKeepsInv` | art/artd/artd.cc:1233-1268 | every single step of every thread keeps the invariant of the signal |
| `Cancellation.CancelledMeansKilled` | art/artd/artd.cc:1233-1268 | for every interleaving, once cancelled and with the mutex free every registered process has been killed since its registration, and a kill of it is on record |
| `Cancellation.CancelledExactly` | art/artd/artd.cc:1233-1236 | a run ends cancelled exactly when some thread has entered a cancellation |
| `Cancellation.RegisteredExactly` | art/artd/artd.cc:1249-1268 | a process is registered exactly from its registration to its unregistration |
| `Cancellation.NoKillBeforeCancel` | art/artd/artd.cc:1249-1261 | nothing is killed before a cancellation |
| `Cancellation.NeverStuck` | art/artd/artd.cc:1233-1268 | in every reachable state the holder of the mutex can go on, and when there is none every thread can start any call |
| `Cancellation.KillsHitRegistered` | art/artd/artd.cc:1233-1268 | every kill goes to a process that is registered at that moment |
| `Cancellation.NoKillAfterEnd` | art/artd/artd.cc:1249-1268 | cancellation is permanent, and an unregistered process is killed no more while it stays so |
| `CancellationSignal.ArtdCancellationSignal.Cancel` | art/artd/artd.cc:1233-1242 | every registered process is killed once more and nothing else |
| `CancellationSignal.ArtdCancellationSignal.OnStart` | art/artd/artd.cc:1249-1261 | a process registered after cancellation is killed at once |
| `CancellationSignal.ArtdCancellationSignal.OnEnd` | art/artd/artd.cc:1262-1268 | the process is unregistered |
| `DexdumpCfg.FindTargets` | art/dexdump/dexdump_cfg.cc:42-70 | the set of addresses some branch or switch jumps to |
| `DexdumpCfg.PackedRoundTrip` | art/dexdump/dexdump_cfg.cc:50-66 | the offsets read from a packed switch payload are those it was laid out with |
| `DexdumpCfg.SparseRoundTrip` | art/dexdump/dexdump_cfg.cc:50-66 | the same for a sparse switch, whose keys come first |
| `DexdumpCfg.MakeNodes` | art/dexdump/dexdump_cfg.cc:72-144 | exactly the block starts get nodes, numbered densely in order, and every instruction maps to its node |
| `DexdumpCfg.BlockStart` | art/dexdump/dexdump_cfg.cc:96-97 | an instruction's block starts at the last block start at or before it |
| `DexdumpCfg.NodesPartition` | art/dexdump/dexdump_cfg.cc:72-144 | two instructions share a node exactly when no block starts between them, and node ids are ordered |
| `DexdumpCfg.NodeIdsDense` | art/dexdump/dexdump_cfg.cc:81-94 | every node id below the number of blocks is some block's |
| `DexdumpCfg.JumpsExactly` | art/dexdump/dexdump_cfg.cc:42-70 | a branch jumps by its offset, a switch by each entry of its table, addresses taken as 32 bits, and nothing else jumps |
| `DexdumpCfg.BlocksStartExactly` | art/dexdump/dexdump_cfg.cc:78-138 | a block starts at the first instruction, after every branch, switch, return and throw, and at every jump target, and nowhere else |
| `DexdumpEdges.MakeEdges` | art/dexdump/dexdump_cfg.cc:146-288 | the fall-through, taken and common exception edges are exactly those the instructions call for, and the blocks left for detail are exactly those whose common handlers do not fit an instruction |
| `DexdumpEdges.TargetsAreNodes` | art/dexdump/dexdump_cfg.cc:205-251 | a jump target inside the method always has a node, so looking it up loses no edge |
| `DexdumpEdges.CommonEdges` | art/dexdump/dexdump_cfg.cc:169-181 | one edge for each common handler that is an instruction |
| `DexdumpEdges.TakenEdges` | art/dexdump/dexdump_cfg.cc:205-251 | exactly the taken edges of one instruction |
| `DexdumpEdges.BlockEdges` | art/dexdump/dexdump_cfg.cc:293-331 | exactly the handler edges of the instructions of one block: the walk stops at its end |
| `DexdumpEdges.DetailedEdges` | art/dexdump/dexdump_cfg.cc:290-331 | exactly the handler edges of every instruction of those blocks |
| `DexdumpEdges.InstructionEdges` | art/dexdump/dexdump_cfg.cc:297-315 | one edge per handler that is an instruction, none twice |
| `DexdumpEdges.DetailedExactly` | art/dexdump/dexdump_cfg.cc:253-264 | a block is drawn in detail exactly when some instruction lacks a handler of the instruction before it |
| `DexdumpEdges.ExceptionEdgesComplete` | art/dexdump/dexdump_cfg.cc:152-331 | every instruction covered by a handler that is an instruction has an edge from its block to that handler, whichever way the block is drawn |
| `DexdumpEdges.ExceptionEdgesSound` | art/dexdump/dexdump_cfg.cc:152-331 | every exception edge leads from a node to a handler of one of its instructions, of the very instruction it names if it names one |
| `DexdumpEdges.TakenEdgesComplete` | art/dexdump/dexdump_cfg.cc:205-251 | every jump to an instruction of the method has an edge from the node that holds the jump to the node that starts at its target |
| `DexdumpEdges.RegularEdgesExactly` | art/dexdump/dexdump_cfg.cc:183-272 | before a new block, a plain instruction, a switch and a conditional branch have the fall-through edge, and a return, a throw and an unconditional branch have none |
| `DexdumpEdges.EdgesAreMoves` | art/dexdump/dexdump_cfg.cc:146-331 | every edge is a move of control from an instruction of its node, the one it names if it names one, to the instruction it points to |
| `DexdumpEdges.DumpMethodCfg` | art/dexdump/dexdump_cfg.cc:36-352 | the passes together give exactly the nodes and edges defined by the instructions |
| `DexdumpEdges.RunsArePaths` | art/dexdump/dexdump_cfg.cc:36-352 | every sequence of instructions that control can follow is a path of the graph: what each kind of instruction can do next is said instruction by instruction |
| `JdwpPackets.WordRoundTrip` | art/adbconnection/adbconnection.cc:812-817 | a word in network order reads back, cut to 32 bits |
| `JdwpPackets.PacketsAreUnique` | art/adbconnection/adbconnection.cc:829-860 | a row of packets that is a prefix of another one, even with a cut packet at the end, agrees with it packet by packet |
| `JdwpPackets.ChunkRoundTrip` | art/adbconnection/adbconnection.cc:483-543 | a chunk that is sent is a packet exactly when its length fits 32 bits, and then decodes to the same id, type and data |
| `JdwpPackets.DdmIdsDistinct` | art/adbconnection/adbconnection.cc:439-442 | packet numbers have the sign bit set and repeat exactly every 2^31 packets |
| `JdwpPackets.WireFormat` | art/adbconnection/adbconnection.cc:500-543 | words have the most significant byte first; a command carries 0xC7 and 1, a reply the flag 0x80 and no error |
| `JdwpPackets.DecodeExactly` | art/adbconnection/adbconnection.cc:882-898 | what is read from any packet: the first bytes of the data as its length says, or nothing when they are not there |
| `AdbConnection.AdbConnectionState.PerformHandshake` | art/adbconnection/adbconnection.cc:919-958 | consumes and answers exactly one handshake, or closes |
| `AdbConnection.AdbConnectionState.HandlePacket` | art/adbconnection/adbconnection.cc:883-917 | the reply to a packet, and the notification on its first well-formed chunk |
| `AdbConnection.AdbConnectionState.HandleDataWithoutAgent` | art/adbconnection/adbconnection.cc:819-917 | closes, takes one whole packet, or attaches the agent with the stream untouched, as the waiting bytes say |
| `AdbConnection.AdbConnectionState.CloseFds` | art/adbconnection/adbconnection.cc:410-426 | the connection is closed, a new handshake is needed, and without an agent nobody is notified as active |
| `AdbConnection.AdbConnectionState.NotifyDdms` | art/adbconnection/adbconnection.cc:428-437 | the notification state changes, and never to what it already is |
| `AdbConnection.AdbConnectionState.Connect` | art/adbconnection/adbconnection.cc:743-769 | a new connection starts with nothing read; a second one is dropped |
| `AdbConnection.AdbConnectionState.AttachJdwpAgent` | art/adbconnection/adbconnection.cc:960-978 | changes nothing but whether the agent is loaded |
| `AdbConnection.AdbConnectionState.SendDdmPacket` | art/adbconnection/adbconnection.cc:483-543 | sends the encoded chunk if there is a connection with a handshake, and nothing otherwise |
| `AdbConnection.AdbConnectionState.PublishDdmData` | art/adbconnection/adbconnection.cc:439-446 | sends a command with the next number |
| `AdbConnection.Serve` | art/adbconnection/adbconnection.cc:664-810 | over every run before the agent loads, what is read from a connection is one handshake and whole DDM packets; an agent that is loaded finds the handshake done and, for every continuation of the stream, exactly the packets after those that were taken |
| `AdbConnection.StreamStaysOnBoundary` | art/adbconnection/adbconnection.cc:836-848 | for every stream of packets, the packets taken are its first ones and the agent is left exactly the packets after them |
| `AdbConnection.DecideOnPackets` | art/adbconnection/adbconnection.cc:829-873 | the next packet is taken exactly when it has arrived in full and is a DDM packet |
| `AdbConnection.ReplyDecodes` | art/adbconnection/adbconnection.cc:899-917 | the answer to a packet decodes to the number of the request and the handler's type and data, and there is none without a chunk or an answer |
| `AdbConnection.HandshakeExactly` | art/adbconnection/adbconnection.cc:919-958 | exactly the connections that open with "JDWP-Handshake" get through, unless a call fails |
| `AdbConnection.EncodedIsTaken` | art/adbconnection/adbconnection.cc:829-917 | a command built by one side is taken whole by the other and decodes to the same chunk |
| `JdwpOptions.JdwpArgs.constructor` | art/adbconnection/jdwpargs.cc:26-52 | the object holds the parsed options |
| `JdwpOptions.JdwpArgs.PutToken` | art/adbconnection/jdwpargs.cc:34-50 | a token without '=' or with one at either end is skipped; any other sets its key |
| `JdwpOptions.JdwpArgs.Put` | art/adbconnection/jdwpargs.cc:54-60 | the value is replaced, and a new key goes last |
| `JdwpOptions.JdwpArgs.Join` | art/adbconnection/jdwpargs.cc:62-74 | the joined text |
| `JdwpOptions.ParseIsClean` | art/adbconnection/jdwpargs.cc:26-52 | keys are duplicate-free and are the domain of the store, and no text has a comma or white space |
| `JdwpOptions.LastValueWins` | art/adbconnection/jdwpargs.cc:54-60 | the last value given for a key is its value |
| `JdwpOptions.FirstPositionWins` | art/adbconnection/jdwpargs.h:26-31 | keys are listed once each in the order in which they were first given |
| `JdwpOptions.SplitUndoesListed` | art/adbconnection/jdwpargs.cc:62-74 | splitting at commas undoes joining and dropping the last comma |
| `JdwpOptions.TokenRoundTrip` | art/adbconnection/jdwpargs.cc:37-49 | a clean pair comes back from its token |
| `JdwpOptions.StripExactly` | art/adbconnection/jdwpargs.cc:34-35 | white space is dropped wherever it is, and every other character stays in its place |
| `JdwpOptions.WhiteSpaceIsIgnored` | art/adbconnection/jdwpargs.cc:34-35 | white space anywhere in the options makes no difference |
| `JdwpOptions.WrittenOptions` | art/adbconnection/jdwpargs.cc:62-74 | two options are written with '=' and a comma, and read back |
| `JdwpOptions.RoundTripExactly` | art/adbconnection/jdwpargs.cc:62-74 | joining and parsing gives the same options exactly when their text is clean |
| `JdwpOptions.ParseJoinParse` | art/adbconnection/jdwpargs.cc:26-74 | for every option string, parsing the joined form changes nothing, order included |
| `JdwpOptions.FixLogfile` | art/adbconnection/adbconnection.cc:1003-1030 | a relative log file is completed when there is a package name |
| `JdwpOptions.MakeAgentArg` | art/adbconnection/adbconnection.cc:1032-1061 | the agent's argument is its name and the joined options |
| `JdwpOptions.AgentReadsBack` | art/adbconnection/adbconnection.cc:1032-1061 | parsing the options of the argument gives back what was put together, except for a log file completed with an unclean package name |
| `JdwpOptions.PackageWithComma` | art/adbconnection/adbconnection.cc:1021-1026 | options and a package name for which it does not |
| `JdwpOptions.AgentArgsMeaning` | art/adbconnection/adbconnection.cc:1037-1054 | forced values win, other options keep their values, and the user's keys keep their positions |
| `JdwpOptions.ForcedValues` | art/adbconnection/adbconnection.cc:1039-1054 | whatever the options say, the agent is told server=y, suspend=n, the transport, the address and whether DDM is active |
| `JdwpOptions.NumberText` | art/adbconnection/adbconnection.cc:1053-1054 | the address is written in decimal |
| `JdwpOptions.LogfileIsAbsolute` | art/adbconnection/adbconnection.cc:1003-1027 | with a package name the log file ends up absolute, and keeps the given name |
| `JdwpOptions.TransportFirstExactly` | art/adbconnection/jdwpargs.h:26-31 | the transport is listed before the address exactly when the user gave no address or a transport before it |
| `JdwpOptions.AddressFirst` | art/adbconnection/adbconnection.cc:1053-1054 | an option string for which it is not |
| `MemoryOption.StrToUl` | art/cmdline/cmdline_types.h:147-149 | the number, cut at the largest value, and the end of its digits |
| `MemoryOption.SaturatedProduct` | art/cmdline/cmdline_types.h:176-182 | comparing the saturated digits with the quotient decides whether the exact product fits |
| `MemoryOption.ParseMemoryOption` | art/cmdline/cmdline_types.h:144-194 | the size for well-formed text when it is divisible, and zero otherwise; no product overflows |
| `MemoryOption.SizeIsBounded` | art/cmdline/cmdline_types.h:176-182 | a size that fits is the exact product; one that does not, saturated digits included, becomes the largest value or the largest multiple of 1024 |
| `MemoryOption.WrittenSize` | art/cmdline/cmdline_types.h:130-182 | a number written in decimal with k, m, g or nothing stands for the product with 1024, 1048576, 1073741824 or 1 if that fits, and otherwise for the largest size or the largest multiple of 1024 |
| `MemoryOption.WellFormedExactly` | art/cmdline/cmdline_types.h:130-175 | accepted are digits and at most one of the letters k, m and g after them |
| `MemoryOption.Suffixes` | art/cmdline/cmdline_types.h:166-171 | "1k", "1m", "1g" and "12" |

## Left out

- Resolved strings and method types in the dex cache: their logs only clear cache entries, and the layout of the cache is not modelled.
- `InitializeClass` beyond its transactions: the class status tests that refuse to start an initialization; entering, committing and leaving a transaction open are events of the run model.
- Read and allocation constraints of transactions: single tests without effect on the state.
- TransactionImpl.Transaction.Abort: an abort is a flag; its message, of which the first is kept, and the exception that carries it are not modelled.
- TransactionImpl.Transaction.Rollback: does not clear dex cache entries, because the logs of resolved strings and method types are not modelled.
- TransactionImpl.Transaction.VisitRoots: does not visit the dex caches those logs refer to.
- AotLinker.AotClassLinker.ChangeInternTable: also allows a recorded removal from the strong table, for which the source has an entry point but no caller; `InternString` makes only the changes that `InternTable::Insert` makes. Frozen tables and waiting for a collection to finish are not modelled.
- TransactionImpl.Transaction.UndoInternStringTableModifications: an undone removal replaces an entry of the same text, where the hash set of the source would hold both; no sequence of `InternTable::Insert` calls leads there, because a text leaves the weak table only for the strong one.
- AdbConnection.AdbConnectionState.SendDdmPacket: a `writev` that fails or writes only a part, which the source only logs, is not modelled.
- Volatile against plain stores, locks already held by contract, arenas and statistics.
- HeapModel.SlotRoundTrip: floating point values are reals, so negative zero, infinities, not-a-number, rounding and conversions out of range are not modelled.
- StrictIsolation.CommittedStaticsSurvive: covers stores that pass the write guard; class status words are written around it and are not static fields.
- Names of artifacts inside APEX packages and the validation of normalized paths in `artd`.
- Profiles other than reference profiles, dexopt execution, SELinux labels, ownership and permissions of files, and the Binder interfaces of `artd`.
- Cleanup.CleanUp: sizes are unbounded integers, so overflow of the byte count is not modelled.
- AdbConnection.Serve: the poll loop after the agent is loaded, the transfer of file descriptors to it, and wake-ups are not modelled.
- The text of `dexdump`'s instruction listing and the escaping in node labels.
- DexdumpEdges.DumpMethodCfg: edges are compared as sets, not in the order in which they are written.
- `dexopt_chroot_setup` and the rest of the command line parsers.
