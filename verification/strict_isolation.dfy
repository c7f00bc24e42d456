/** Strict mode: a class initializer may only change the static fields of its own class, so what
    a nested initializer commits is never taken back by the rollback of an enclosing one. */
module StrictIsolation {
  import opened HeapModel
  import opened TransactionModel
  import opened TransactionRuns
  import opened GuardedStores
  import opened Wrappers

  /** The only class object with entries in the log is the class being initialized. */
  ghost predicate OnlyOwnClass(tx: Tx, shapes: map<Ref, Shape>) {
    tx.strict && forall o <- tx.objectLogs :: o in shapes && shapes[o].isClass ==> o == tx.root
  }

  ghost predicate Isolated(s: Sys) {
    forall i :: 0 <= i < |s.stack| ==> OnlyOwnClass(s.stack[i], s.heap.shapes)
  }

  /** What strict class initialization does: transactions are strict, and stores happen inside
      one and go through the write guard. */
  predicate StrictEvent(s: Sys, e: Event) {
    match e
    case Enter(strict, _) => strict
    case Write(_, _, guarded) => guarded && s.stack != []
    case _ => true
  }

  ghost predicate StrictRun(s: Sys, es: seq<Event>)
    requires Runs(s, es)
    decreases |es|
  {
    es == [] || (StrictEvent(s, es[0]) && StrictRun(Step(s, es[0]), es[1..]))
  }

  lemma RecordWriteKeys(tx: Tx, sh: Shape, l: Loc, cur: Val)
    requires HasSlot(sh, l) && Fits(SlotTypeOf(sh, l), cur)
    ensures forall o <- RecordWrite(tx, sh, l, cur).objectLogs :: o in tx.objectLogs || (l.Field? && o == l.obj)
    ensures RecordWrite(tx, sh, l, cur).root == tx.root && RecordWrite(tx, sh, l, cur).strict == tx.strict
  {
  }

  /** What an unblocked strict store adds to the log is the transaction's own class or no class. */
  lemma StoreIsolated(s: Sys, l: Loc, v: Val)
    requires ValidHeap(s.heap) && s.stack != [] && OnlyOwnClass(s.stack[0], s.heap.shapes)
    requires l in s.heap.mem && ValidSlot(s.heap.shapes, l, v) && ValidSlot(s.heap.shapes, l, s.heap.mem[l])
    ensures OnlyOwnClass(WriteStep(s, l, v, true).stack[0], s.heap.shapes)
    ensures WriteStep(s, l, v, true).stack[0].root == s.stack[0].root
  {
    hide RecordWrite, ValidHeap;
    RecordWriteKeys(s.stack[0], s.heap.shapes[ObjOf(l)], l, s.heap.mem[l]);
  }

  lemma AllocationIsolated(tx: Tx, h: Heap, r: Ref, sh: Shape)
    requires OnlyOwnClass(tx, h.shapes) && ValidTx(tx, h) && r !in h.shapes && !sh.isClass
    ensures OnlyOwnClass(tx, h.shapes[r := sh]) && OnlyOwnClass(RecordAllocation(tx, sh, r), h.shapes[r := sh])
    ensures RecordAllocation(tx, sh, r).root == tx.root
  {
    FreshIsUnlogged(tx, h, r);
  }

  lemma StepKeepsIsolation(s: Sys, hist: seq<Snapshot>, e: Event)
    requires Inv(s, hist) && Isolated(s) && Enabled(s, e) && StrictEvent(s, e)
    ensures Isolated(Step(s, e))
  {
    hide AllNewer, AllRestore, RecordWrite, RecordAllocation, Blocked, ApplyIntern, Collectable, ValidTx, InternAllowed, UndoFinds;
    var s' := Step(s, e);
    forall i | 0 <= i < |s'.stack| ensures OnlyOwnClass(s'.stack[i], s'.heap.shapes) {
      match e {
        case Enter(_, _) =>
          assert i > 0 ==> OnlyOwnClass(s.stack[i - 1], s.heap.shapes);
        case Exit =>
          assert OnlyOwnClass(s.stack[i + 1], s.heap.shapes);
        case RollbackExit =>
          assert OnlyOwnClass(s.stack[i + 1], s.heap.shapes);
        case Write(l, v, _) =>
          assert OnlyOwnClass(s.stack[i], s.heap.shapes);
          StoreIsolated(s, l, v);
        case Allocate(r, sh, _, _) =>
          assert OnlyOwnClass(s.stack[i], s.heap.shapes);
          AllocationIsolated(s.stack[i], s.heap, r, sh);
        case Intern(_) =>
          assert OnlyOwnClass(s.stack[i], s.heap.shapes);
        case Collect(_) =>
          assert OnlyOwnClass(s.stack[i], s.heap.shapes);
      }
    }
  }

  lemma {:induction false} RunKeepsIsolation(s: Sys, hist: seq<Snapshot>, es: seq<Event>)
    requires Inv(s, hist) && Isolated(s) && Runs(s, es) && StrictRun(s, es)
    ensures Isolated(Run(s, es))
    decreases |es|
  {
    if es != [] {
      StepKeepsIsolation(s, hist, es[0]);
      StepKeeps(s, hist, es[0]);
      RunKeepsIsolation(Step(s, es[0]), StepHistory(hist, s, es[0]), es[1..]);
    }
  }

  /** In every state a strict run reaches, no open transaction's log mentions a class object
      other than its own root. */
  lemma StrictLogsMentionOnlyRoot(s: Sys, es: seq<Event>, i: nat, o: Ref)
    requires ValidHeap(s.heap) && s.stack == [] && Runs(s, es) && StrictRun(s, es)
    requires var t := Run(s, es); i < |t.stack| && o in t.stack[i].objectLogs && o in t.heap.shapes && t.heap.shapes[o].isClass
    ensures o == Run(s, es).stack[i].root
  {
    RunKeepsIsolation(s, [], es);
    assert OnlyOwnClass(Run(s, es).stack[i], Run(s, es).heap.shapes);
  }

  ghost predicate NoRoot(s: Sys, k: Ref) {
    forall i :: 0 <= i < |s.stack| ==> s.stack[i].root != k
  }

  /** `k` is a live class with this static field, and no open transaction initializes it. */
  ghost predicate Settled(s: Sys, k: Ref, off: nat) {
    k in s.heap.shapes && s.heap.shapes[k].isClass && Field(k, off) in s.heap.mem && NoRoot(s, k)
  }

  /** The event neither starts initializing `k` again nor frees it. */
  predicate LeavesAlone(e: Event, k: Ref) {
    (e.Enter? ==> e.root != k) && (e.Collect? ==> k !in e.dead)
  }

  /** A store that is not blocked is to a slot of the root or of no class. */
  lemma StoreAvoidsStatic(s: Sys, l: Loc, v: Val, k: Ref, off: nat)
    requires ValidHeap(s.heap) && s.stack != [] && s.stack[0].strict && Settled(s, k, off)
    requires l in s.heap.mem && ValidSlot(s.heap.shapes, l, v) && ValidSlot(s.heap.shapes, l, s.heap.mem[l])
    ensures WriteStep(s, l, v, true).heap.mem[Field(k, off)] == s.heap.mem[Field(k, off)]
  {
    hide RecordWrite, ValidHeap;
  }

  lemma UndoAvoidsStatic(tx: Tx, h: Heap, k: Ref, off: nat)
    requires ValidHeap(h) && OnlyOwnClass(tx, h.shapes) && tx.root != k
    requires k in h.shapes && h.shapes[k].isClass && Field(k, off) in h.mem && ShapesCover(h.mem, h.shapes)
    ensures Undo(tx, h).mem[Field(k, off)] == h.mem[Field(k, off)]
  {
    hide UndoInterns, ValidHeap;
    assert !Logs(tx, Field(k, off));
  }

  lemma StepKeepsNoRoot(s: Sys, hist: seq<Snapshot>, e: Event, k: Ref)
    requires Inv(s, hist) && Isolated(s) && Enabled(s, e) && StrictEvent(s, e) && NoRoot(s, k) && LeavesAlone(e, k)
    ensures NoRoot(Step(s, e), k)
  {
    hide AllNewer, AllRestore, ValidTx, RecordWrite, RecordAllocation, ApplyIntern, Collectable, InternAllowed, Undo, UndoFinds;
    var s' := Step(s, e);
    if s.stack != [] {
      assert OnlyOwnClass(s.stack[0], s.heap.shapes);
    }
    match e {
      case Exit =>
        forall i | 0 <= i < |s'.stack| ensures s'.stack[i].root != k { assert s'.stack[i] == s.stack[i + 1]; }
      case RollbackExit =>
        forall i | 0 <= i < |s'.stack| ensures s'.stack[i].root != k { assert s'.stack[i] == s.stack[i + 1]; }
      case Enter(_, _) =>
        forall i | 0 <= i < |s'.stack| ensures s'.stack[i].root != k { assert i > 0 ==> s'.stack[i] == s.stack[i - 1]; }
      case Write(l, v, _) =>
        StoreIsolated(s, l, v);
      case Allocate(r, sh, _, _) =>
        if s.stack != [] {
          AllocationIsolated(s.stack[0], s.heap, r, sh);
        }
      case _ =>
    }
  }

  lemma TopIsNoRoot(s: Sys, k: Ref)
    requires s.stack != [] && NoRoot(s, k)
    ensures s.stack[0].root != k
  {
  }

  lemma StepKeepsStatic(s: Sys, hist: seq<Snapshot>, e: Event, k: Ref, off: nat)
    requires Inv(s, hist) && Isolated(s) && Enabled(s, e) && StrictEvent(s, e)
    requires Settled(s, k, off) && LeavesAlone(e, k)
    ensures Settled(Step(s, e), k, off) && Step(s, e).heap.mem[Field(k, off)] == s.heap.mem[Field(k, off)]
  {
    hide AllNewer, AllRestore, AllValid, RecordWrite, RecordAllocation, ApplyIntern, Collectable, InternAllowed, Blocked, NoRoot, UndoFinds;
    StepKeepsNoRoot(s, hist, e, k);
    if s.stack != [] {
      assert OnlyOwnClass(s.stack[0], s.heap.shapes);
      assert s.stack[0].root != k by { TopIsNoRoot(s, k); }
    }
    match e {
      case RollbackExit =>
        CoverOfValid(s.heap);
        UndoAvoidsStatic(s.stack[0], s.heap, k, off);
      case Write(l, v, _) =>
        StoreAvoidsStatic(s, l, v, k, off);
      case _ =>
    }
  }

  lemma {:induction false} RollbackAllKeepsUnlogged(stack: seq<Tx>, h: Heap, l: Loc)
    requires ShapesCover(h.mem, h.shapes) && l in h.mem
    requires forall i :: 0 <= i < |stack| ==> !Logs(stack[i], l)
    ensures RollbackAll(stack, h).mem[l] == h.mem[l]
  {
    OutermostLogWins(stack, h, l, -1);
  }

  /** Statics committed by a nested initialization survive: once no open transaction has `k` as
      its root, no further strict run changes `k`'s static fields, and neither does rolling back
      every transaction at the end of it, which completes if no commit in between was harmful. */
  lemma {:induction false} CommittedStaticsSurvive(s: Sys, hist: seq<Snapshot>, es: seq<Event>, k: Ref, off: nat)
    requires Inv(s, hist) && Isolated(s) && Runs(s, es) && StrictRun(s, es)
    requires Settled(s, k, off) && forall e <- es :: LeavesAlone(e, k)
    ensures var t, l := Run(s, es), Field(k, off);
      && l in t.heap.mem && ShapesCover(t.heap.mem, t.heap.shapes)
      && t.heap.mem[l] == s.heap.mem[l]
      && RollbackAll(t.stack, t.heap).mem[l] == s.heap.mem[l]
      && (Owned(s) && HarmlessRun(s, es) ==> RollsBack(t))
    decreases |es|
  {
    hide Owned, RollsBack, HarmlessExit;
    if Owned(s) && HarmlessRun(s, es) {
      RunKeepsOwned(s, hist, es);
    }
    if es != [] {
      assert es[0] in es;
      StepKeepsStatic(s, hist, es[0], k, off);
      StepKeepsIsolation(s, hist, es[0]);
      StepKeeps(s, hist, es[0]);
      CommittedStaticsSurvive(Step(s, es[0]), StepHistory(hist, s, es[0]), es[1..], k, off);
    } else {
      CoverOfValid(s.heap);
      forall i | 0 <= i < |s.stack| ensures !Logs(s.stack[i], Field(k, off)) {
        assert OnlyOwnClass(s.stack[i], s.heap.shapes);
      }
      RollbackAllKeepsUnlogged(s.stack, s.heap, Field(k, off));
    }
  }

  /** The same for whole runs: whatever strict run led to a state in which `k` is settled, nothing
      that follows takes back what it has committed to the static fields of `k`. */
  lemma NestedCommitSurvives(s: Sys, before: seq<Event>, after: seq<Event>, k: Ref, off: nat)
    requires ValidHeap(s.heap) && s.stack == [] && Runs(s, before) && StrictRun(s, before)
    requires Runs(Run(s, before), after) && StrictRun(Run(s, before), after)
    requires Settled(Run(s, before), k, off) && forall e <- after :: LeavesAlone(e, k)
    ensures var u, t, l := Run(s, before), Run(Run(s, before), after), Field(k, off);
      && l in t.heap.mem && ShapesCover(t.heap.mem, t.heap.shapes) && RollbackAll(t.stack, t.heap).mem[l] == t.heap.mem[l] == u.heap.mem[l]
      && (HarmlessRun(s, before) && HarmlessRun(u, after) ==> RollsBack(t))
  {
    hide Run, RunHistory, Settled, StrictRun, RollbackAll, Restores, HarmlessRun, Owned, RollsBack;
    NothingToOwn(s);
    if HarmlessRun(s, before) {
      RunKeepsOwned(s, [], before);
    }
    RunKeepsIsolation(s, [], before);
    RunKeeps(s, [], before);
    CommittedStaticsSurvive(Run(s, before), RunHistory([], s, before), after, k, off);
  }

  /** Committing the only transaction that initializes a class settles its static fields. */
  lemma CommitSettles(s: Sys, k: Ref, off: nat)
    requires ValidHeap(s.heap) && s.stack != [] && k in s.heap.shapes && s.heap.shapes[k].isClass && Field(k, off) in s.heap.mem
    requires forall i :: 0 < i < |s.stack| ==> s.stack[i].root != k
    ensures Settled(Step(s, Exit), k, off)
  {
    hide ValidHeap;
  }

  lemma RunsTwo(s: Sys, e: Event, f: Event, es: seq<Event>)
    requires Runs(s, [e, f] + es) && StrictRun(s, [e, f] + es)
    ensures ValidHeap(s.heap) && Enabled(s, e) && StrictEvent(s, e)
    ensures var s1 := Step(s, e); ValidHeap(s1.heap) && Enabled(s1, f) && StrictEvent(s1, f)
    ensures var s2 := Step(Step(s, e), f); Runs(s2, es) && StrictRun(s2, es) && Run(s, [e, f] + es) == Run(s2, es)
  {
    hide Enabled, Step, ValidHeap, StrictEvent;
    var all := [e, f] + es;
    assert all[1..] == [f] + es && all[1..][1..] == es;
  }

  lemma OnlyStrict(s: Sys, i: nat)
    requires Isolated(s) && i < |s.stack|
    ensures s.stack[i].strict
  {
    assert OnlyOwnClass(s.stack[i], s.heap.shapes);
  }

  lemma ExitKeepsMem(s: Sys)
    requires ValidHeap(s.heap) && s.stack != []
    ensures Step(s, Exit).heap == s.heap
  {
    hide ValidHeap;
  }

  /** A class initializer stores a value in a static field of its own class and is committed. The value
      is there after whatever strict run follows, and after rolling back all that is open then. */
  lemma OwnStoreIsCommittedForGood(s: Sys, hist: seq<Snapshot>, k: Ref, off: nat, v: Val, after: seq<Event>)
    requires Inv(s, hist) && Isolated(s) && s.stack != [] && s.stack[0].root == k && forall i :: 0 < i < |s.stack| ==> s.stack[i].root != k
    requires k in s.heap.shapes && s.heap.shapes[k].isClass && !s.heap.shapes[k].inBootImage
    requires var es := [Write(Field(k, off), v, true), Exit] + after; Runs(s, es) && StrictRun(s, es)
    requires forall e <- after :: LeavesAlone(e, k)
    ensures var t, l := Run(s, [Write(Field(k, off), v, true), Exit] + after), Field(k, off);
      && l in t.heap.mem && ShapesCover(t.heap.mem, t.heap.shapes)
      && t.heap.mem[l] == v && RollbackAll(t.stack, t.heap).mem[l] == v
  {
    hide Run, Runs, StrictRun, Step, StepHistory, Restores, NewerThan, ValidTx, ValidHeap, LeavesAlone, RollbackAll, Settled, OnlyOwnClass;
    var w, l := Write(Field(k, off), v, true), Field(k, off);
    RunsTwo(s, w, Exit, after);
    assert s.stack[0].strict by { OnlyStrict(s, 0); }
    OwnStaticsAreWritable(s, l, v);
    GuardedStoreExactly(s, l, v);
    var s1 := Step(s, w);
    StepKeeps(s, hist, w);
    StepKeepsIsolation(s, hist, w);
    var hist1 := StepHistory(hist, s, w);
    assert forall i :: 0 < i < |s1.stack| ==> s1.stack[i] == s1.stack[1..][i - 1] == s.stack[i];
    CommitSettles(s1, k, off);
    StepKeeps(s1, hist1, Exit);
    StepKeepsIsolation(s1, hist1, Exit);
    ExitKeepsMem(s1);
    CommittedStaticsSurvive(Step(s1, Exit), StepHistory(hist1, s1, Exit), after, k, off);
  }

  /** In every reachable state the cached last allocation is null or flagged as new in the log
      that owns its kind, so skipping a record on its account skips no slot that any enclosing
      transaction's entry snapshot knows. */
  lemma CacheAgreesWithFlags(s: Sys, es: seq<Event>, i: nat)
    requires ValidHeap(s.heap) && s.stack == [] && Runs(s, es) && i < |Run(s, es).stack|
    ensures var t, hist := Run(s, es), RunHistory([], s, es);
      var last := t.stack[i].lastAllocated;
      last != NULL ==>
        FlaggedNew(t.stack[i], t.heap.shapes, last) &&
        |hist| == |t.stack| && forall j, l :: i <= j < |hist| && l in hist[j].mem ==> ObjOf(l) != last
  {
    RunKeeps(s, [], es);
    var t, hist := Run(s, es), RunHistory([], s, es);
    assert ValidTx(t.stack[i], t.heap);
    forall j, l | i <= j < |hist| && l in hist[j].mem
      ensures !FlaggedNew(t.stack[i], t.heap.shapes, ObjOf(l)) {
      assert NewerThan(t.stack[i], t.heap.shapes, hist[j]);
    }
  }

  lemma {:induction false} RollbackAllKeepsHeapValid(stack: seq<Tx>, h: Heap)
    requires ValidHeap(h) && AllValid(stack, h) && ShapesCover(h.mem, h.shapes)
    ensures ValidHeap(RollbackAll(stack, h))
  {
    if stack != [] {
      var h' := Undo(stack[0], h);
      UndoKeepsHeapValid(stack[0], h);
      forall i | 0 <= i < |stack[1..]| ensures ValidTx(stack[1..][i], h') {
        assert stack[1..][i] == stack[i + 1];
        SameSlotsKeepTx(stack[i + 1], h, h');
      }
      RollbackAllKeepsHeapValid(stack[1..], h');
    }
  }

  /** Rolling back everything at any point of any run, collections included, leaves a heap in
      which every slot is typed and every reference is null or points at a live object. */
  lemma RollbackNeverDangles(s: Sys, es: seq<Event>)
    requires ValidHeap(s.heap) && s.stack == [] && Runs(s, es)
    ensures var t := Run(s, es); ShapesCover(t.heap.mem, t.heap.shapes) && ValidHeap(RollbackAll(t.stack, t.heap))
    ensures HarmlessRun(s, es) ==> RollsBack(Run(s, es))
  {
    hide Owned, RollsBack, HarmlessRun;
    if HarmlessRun(s, es) {
      HarmlessRunsRollBack(s, es);
    }
    RunKeeps(s, [], es);
    CoverOfValid(Run(s, es).heap);
    RollbackAllKeepsHeapValid(Run(s, es).stack, Run(s, es).heap);
  }

  // ---- A commit after which rolling back gets stuck ----

  /** The string 1 and the classes 2 and 3. */
  function Strings(strong: InternTable, weak: InternTable, stack: seq<Tx>): Sys {
    var klass := Shape(true, 0, false, None, map[], false, false, "");
    Sys(Heap(map[], map[1 := Shape(false, 0, false, None, map[], false, false, "a"), 2 := klass, 3 := klass], strong, weak), stack, false)
  }

  /** The initializer of class 2 interns the string weakly, then that of class 3 interns it strongly,
      which moves the entry to the strong table, and is committed. */
  function Promotion(): seq<Event> {
    [Enter(true, 2), Intern(InternOp(1, false, true)), Enter(true, 3), Intern(InternOp(1, false, false)), Intern(InternOp(1, true, true)), Exit]
  }

  lemma StrictCons(s: Sys, e: Event, t: Sys, es: seq<Event>)
    requires ValidHeap(s.heap) && Enabled(s, e) && StrictEvent(s, e) && t == Step(s, e) && Runs(t, es) && StrictRun(t, es)
    ensures var all := [e] + es; Runs(s, all) && StrictRun(s, all) && Run(s, all) == Run(t, es)
  {
    hide Step, Enabled, StrictEvent, ValidHeap;
    assert ([e] + es)[1..] == es;
  }

  lemma FirstInitializer(es: seq<Event>)
    requires var u := Strings(map[], map["a" := 1], [LogInterned(NewTx(true, 2), InternOp(1, false, true))]); Runs(u, es) && StrictRun(u, es)
    ensures var s, u, all := Strings(map[], map[], []), Strings(map[], map["a" := 1], [LogInterned(NewTx(true, 2), InternOp(1, false, true))]),
        [Enter(true, 2), Intern(InternOp(1, false, true))] + es;
      ValidHeap(s.heap) && Runs(s, all) && StrictRun(s, all) && Run(s, all) == Run(u, es)
  {
    hide Run, Runs, StrictRun;
    var op := InternOp(1, false, true);
    var s, s1, u := Strings(map[], map[], []), Strings(map[], map[], [NewTx(true, 2)]), Strings(map[], map["a" := 1], [LogInterned(NewTx(true, 2), op)]);
    assert Step(s1, Intern(op)) == u;
    StrictCons(s1, Intern(op), u, es);
    assert Step(s, Enter(true, 2)) == s1;
    StrictCons(s, Enter(true, 2), s1, [Intern(op)] + es);
    assert [Enter(true, 2)] + ([Intern(op)] + es) == [Enter(true, 2), Intern(op)] + es;
  }

  lemma Removing(tx: Tx, outer: Tx)
    ensures var s, op := Strings(map[], map["a" := 1], [tx, outer]), InternOp(1, false, false);
      && ValidHeap(s.heap) && Enabled(s, Intern(op)) && StrictEvent(s, Intern(op))
      && Step(s, Intern(op)) == Strings(map[], map[], [LogInterned(tx, op), outer])
  {
    assert map["a" := 1] - {"a"} == map[];
    assert [tx, outer][1..] == [outer];
  }

  lemma Inserting(tx: Tx, outer: Tx)
    ensures var s, op := Strings(map[], map[], [tx, outer]), InternOp(1, true, true);
      && ValidHeap(s.heap) && Enabled(s, Intern(op)) && StrictEvent(s, Intern(op))
      && Step(s, Intern(op)) == Strings(map["a" := 1], map[], [LogInterned(tx, op), outer])
  {
    assert [tx, outer][1..] == [outer];
  }

  lemma Committing(tx: Tx, outer: Tx)
    ensures var s := Strings(map["a" := 1], map[], [tx, outer]);
      ValidHeap(s.heap) && Enabled(s, Exit) && StrictEvent(s, Exit) && Step(s, Exit) == Strings(map["a" := 1], map[], [outer])
  {
  }

  lemma EnteringIsStrict(s: Sys)
    ensures StrictEvent(s, Enter(true, 3))
  {
  }

  lemma NoEvents(s: Sys)
    ensures Runs(s, []) && StrictRun(s, []) && Run(s, []) == s
  {
  }

  lemma SecondInitializer(outer: Tx)
    ensures var s, es := Strings(map[], map["a" := 1], [outer]),
        [Enter(true, 3), Intern(InternOp(1, false, false)), Intern(InternOp(1, true, true)), Exit];
      Runs(s, es) && StrictRun(s, es) && Run(s, es) == Strings(map["a" := 1], map[], [outer])
  {
    hide Run, Runs, StrictRun, LogInterned;
    var remove, insert, tx := InternOp(1, false, false), InternOp(1, true, true), NewTx(true, 3);
    var s, s1 := Strings(map[], map["a" := 1], [outer]), Strings(map[], map["a" := 1], [tx, outer]);
    assert ValidHeap(s.heap) && Enabled(s, Enter(true, 3)) && Step(s, Enter(true, 3)) == s1;
    hide Strings, ValidHeap, Enabled, Step, StrictEvent;
    var tx2 := LogInterned(tx, remove);
    var tx3 := LogInterned(tx2, insert);
    var s2, s3 := Strings(map[], map[], [tx2, outer]), Strings(map["a" := 1], map[], [tx3, outer]);
    var t := Strings(map["a" := 1], map[], [outer]);
    NoEvents(t);
    Committing(tx3, outer);
    StrictCons(s3, Exit, t, []);
    assert [Exit] + [] == [Exit];
    Inserting(tx2, outer);
    StrictCons(s2, Intern(insert), s3, [Exit]);
    assert [Intern(insert)] + [Exit] == [Intern(insert), Exit];
    Removing(tx, outer);
    StrictCons(s1, Intern(remove), s2, [Intern(insert), Exit]);
    assert [Intern(remove)] + [Intern(insert), Exit] == [Intern(remove), Intern(insert), Exit];
    assert StrictEvent(s, Enter(true, 3)) by { EnteringIsStrict(s); }
    StrictCons(s, Enter(true, 3), s1, [Intern(remove), Intern(insert), Exit]);
    assert [Enter(true, 3)] + [Intern(remove), Intern(insert), Exit] == [Enter(true, 3), Intern(remove), Intern(insert), Exit];
  }

  /** The outer transaction cannot be rolled back any more: it would remove the string from the weak
      table, where it is not. */
  lemma PromotionGetsStuck()
    ensures var s := Strings(map[], map[], []);
      ValidHeap(s.heap) && s.stack == [] && Runs(s, Promotion()) && StrictRun(s, Promotion()) && !RollsBack(Run(s, Promotion()))
  {
    hide Run, Runs, StrictRun, ValidHeap;
    var outer := LogInterned(NewTx(true, 2), InternOp(1, false, true));
    var rest := [Enter(true, 3), Intern(InternOp(1, false, false)), Intern(InternOp(1, true, true)), Exit];
    SecondInitializer(outer);
    FirstInitializer(rest);
    assert [Enter(true, 2), Intern(InternOp(1, false, true))] + rest == Promotion();
    assert AllOps([outer]) == [InternOp(1, false, true)];
  }
}
