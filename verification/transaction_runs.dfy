/** Runs of nested class-initialization transactions: entering, committing and rolling back
    transactions, guarded and unguarded stores, allocations, intern-table operations and
    collections of garbage, in any order and nesting. */
module TransactionRuns {
  import opened Wrappers
  import opened HeapModel
  import opened TransactionModel
  import opened InternLogs

  /** `stack` has the innermost transaction first, like `preinitialization_transactions_`. */
  datatype Sys = Sys(heap: Heap, stack: seq<Tx>, bootImageSpaces: bool)

  /** Only the interpreter's own instructions report what they allocate; strings and objects made
      by the runtime are not recorded. */
  datatype Event =
    | Enter(strict: bool, root: Ref)
    | Exit
    | RollbackExit
    | Write(loc: Loc, val: Val, guarded: bool)
    | Allocate(r: Ref, shape: Shape, init: map<Loc, Val>, recorded: bool)
    | Intern(op: InternOp)
    | Collect(dead: set<Ref>)

  function TablesOf(h: Heap): Tables { (h.strong, h.weak) }

  // ---- Steps ----

  ghost predicate LogAvoids(log: ObjectLog, dead: set<Ref>) {
    forall off <- log.values :: log.values[off].kind == KReference ==> log.values[off].value !in dead
  }

  /** No root that `VisitRoots` reports is in `dead`. */
  ghost predicate RootsAvoid(tx: Tx, dead: set<Ref>) {
    && tx.root !in dead && tx.lastAllocated !in dead
    && (forall o <- tx.objectLogs :: o !in dead && LogAvoids(tx.objectLogs[o], dead))
    && (forall a <- tx.arrayLogs :: a !in dead)
    && (forall op <- tx.internLogs :: op.str !in dead)
  }

  predicate SlotAvoids(l: Loc, v: Val, dead: set<Ref>) {
    ObjOf(l) !in dead ==> v.Pointer? ==> v.r !in dead
  }

  /** A set of objects that a collection may free: nothing that survives refers to them, and
      neither the strong intern table nor a transaction does. The weak table keeps nothing alive. */
  ghost predicate Collectable(s: Sys, dead: set<Ref>) {
    && NULL !in dead
    && (forall l <- s.heap.mem :: SlotAvoids(l, s.heap.mem[l], dead))
    && (forall t <- s.heap.strong :: s.heap.strong[t] !in dead)
    && (forall tx <- s.stack :: RootsAvoid(tx, dead))
  }

  ghost predicate Enabled(s: Sys, e: Event) {
    match e
    case Enter(strict, root) => LiveOrNull(s.heap.shapes, root)
    case Exit => s.stack != []
    case RollbackExit => s.stack != [] && UndoFinds(s.heap.shapes, s.stack[0].internLogs, TablesOf(s.heap))
    case Write(l, v, _) => l in s.heap.mem && ValidSlot(s.heap.shapes, l, v)
    case Allocate(r, sh, init, _) =>
      && r != NULL && r !in s.heap.shapes
      && (s.stack != [] ==> !sh.isClass)
      && (sh.elem.Some? ==> sh.isArray)
      && (forall l <- init :: ObjOf(l) == r && ValidSlot(s.heap.shapes[r := sh], l, init[l]))
    case Intern(op) => InternAllowed(s.heap.shapes, TablesOf(s.heap), op)
    case Collect(dead) => Collectable(s, dead)
  }

  predicate Blocked(s: Sys, l: Loc, v: Val)
    requires s.stack != [] && ObjOf(l) in s.heap.shapes
  {
    || WriteConstraint(s.stack[0], s.heap.shapes[ObjOf(l)], ObjOf(l))
    || (v.Pointer? && WriteValueConstraint(s.stack[0], s.bootImageSpaces,
          if v.r in s.heap.shapes then Some(s.heap.shapes[v.r]) else None))
  }

  function WithFront(stack: seq<Tx>, tx: Tx): seq<Tx>
    requires stack != []
  {
    [tx] + stack[1..]
  }

  function WriteStep(s: Sys, l: Loc, v: Val, guarded: bool): Sys
    requires l in s.heap.mem && ValidSlot(s.heap.shapes, l, v) && ValidSlot(s.heap.shapes, l, s.heap.mem[l])
  {
    var stored := s.heap.(mem := s.heap.mem[l := v]);
    if s.stack == [] then s.(heap := stored)
    else if guarded && Blocked(s, l, v) then s.(stack := WithFront(s.stack, s.stack[0].(aborted := true)))
    else
      var tx := RecordWrite(s.stack[0], s.heap.shapes[ObjOf(l)], l, s.heap.mem[l]);
      s.(heap := stored, stack := WithFront(s.stack, tx))
  }

  function RecordAllocation(tx: Tx, sh: Shape, r: Ref): Tx {
    if sh.isArray then RecordNewArray(tx, sh, r) else RecordNewObject(tx, r)
  }

  function AllocateStep(s: Sys, r: Ref, sh: Shape, init: map<Loc, Val>, recorded: bool): Sys {
    var h := s.heap.(mem := s.heap.mem + init, shapes := s.heap.shapes[r := sh]);
    if s.stack == [] || !recorded then s.(heap := h)
    else
      s.(heap := h, stack := WithFront(s.stack, RecordAllocation(s.stack[0], sh, r)))
  }

  function InternStep(s: Sys, op: InternOp): Sys {
    var ts := ApplyIntern(s.heap.shapes, TablesOf(s.heap), op);
    var h := s.heap.(strong := ts.0, weak := ts.1);
    if s.stack == [] then s.(heap := h)
    else s.(heap := h, stack := WithFront(s.stack, LogInterned(s.stack[0], op)))
  }

  function CollectStep(s: Sys, dead: set<Ref>): Sys {
    s.(heap := s.heap.(mem := map l <- s.heap.mem | ObjOf(l) !in dead :: s.heap.mem[l],
                       shapes := s.heap.shapes - dead,
                       weak := Swept(s.heap.weak, dead)))
  }

  ghost function Step(s: Sys, e: Event): Sys
    requires ValidHeap(s.heap) && Enabled(s, e)
  {
    match e
    case Enter(strict, root) => s.(stack := [NewTx(strict, root)] + s.stack)
    case Exit => s.(stack := s.stack[1..])
    case RollbackExit => s.(heap := Undo(s.stack[0], s.heap), stack := s.stack[1..])
    case Write(l, v, guarded) => WriteStep(s, l, v, guarded)
    case Allocate(r, sh, init, recorded) => AllocateStep(s, r, sh, init, recorded)
    case Intern(op) => InternStep(s, op)
    case Collect(dead) => CollectStep(s, dead)
  }

  // ---- Unwinding the whole stack ----

  /** The value of a slot holding `cur` after undoing the `n` innermost transactions. */
  function UnwindVal(stack: seq<Tx>, n: nat, sh: Shape, l: Loc, cur: Val): Val {
    if n == 0 || stack == [] then cur
    else UnwindVal(stack[1..], n - 1, sh, l, UndoVal(stack[0], sh, l, cur))
  }

  predicate AnyUndoes(stack: seq<Tx>, n: nat, sh: Shape, l: Loc) {
    n != 0 && stack != [] && (Undoes(stack[0], sh, l) || AnyUndoes(stack[1..], n - 1, sh, l))
  }

  function UnwindTables(stack: seq<Tx>, n: nat, shapes: map<Ref, Shape>, ts: Tables): Tables {
    if n == 0 || stack == [] then ts
    else UnwindTables(stack[1..], n - 1, shapes, UndoInterns(shapes, stack[0].internLogs, ts))
  }

  /** `RollbackAllTransactions`. */
  function RollbackAll(stack: seq<Tx>, h: Heap): (r: Heap)
    requires ShapesCover(h.mem, h.shapes)
    ensures r.mem.Keys == h.mem.Keys && r.shapes == h.shapes
  {
    if stack == [] then h else RollbackAll(stack[1..], Undo(stack[0], h))
  }

  lemma {:induction false} UnwindIgnoresCurrent(stack: seq<Tx>, n: nat, sh: Shape, l: Loc, a: Val, b: Val)
    ensures AnyUndoes(stack, n, sh, l) ==> UnwindVal(stack, n, sh, l, a) == UnwindVal(stack, n, sh, l, b)
    ensures !AnyUndoes(stack, n, sh, l) ==> UnwindVal(stack, n, sh, l, a) == a
  {
    if n != 0 && stack != [] {
      UnwindIgnoresCurrent(stack[1..], n - 1, sh, l, UndoVal(stack[0], sh, l, a), UndoVal(stack[0], sh, l, b));
    }
  }

  lemma {:induction false} RollbackAllIsUnwind(stack: seq<Tx>, h: Heap, l: Loc)
    requires ShapesCover(h.mem, h.shapes) && l in h.mem
    ensures RollbackAll(stack, h).mem[l] == UnwindVal(stack, |stack|, h.shapes[ObjOf(l)], l, h.mem[l])
    ensures TablesOf(RollbackAll(stack, h)) == UnwindTables(stack, |stack|, h.shapes, TablesOf(h))
  {
    if stack != [] {
      RollbackAllIsUnwind(stack[1..], Undo(stack[0], h), l);
    }
  }

  lemma {:induction false} RollbackAllTables(stack: seq<Tx>, h: Heap)
    requires ShapesCover(h.mem, h.shapes)
    ensures TablesOf(RollbackAll(stack, h)) == UnwindTables(stack, |stack|, h.shapes, TablesOf(h))
  {
    if stack != [] {
      RollbackAllTables(stack[1..], Undo(stack[0], h));
    }
  }

  /** Rolling back every transaction leaves each slot at the old value held by the outermost
      open transaction that logged it, and at its current value if none did. `j` names the
      outermost one. */
  lemma {:induction false} OutermostLogWins(stack: seq<Tx>, h: Heap, l: Loc, j: int)
    requires ShapesCover(h.mem, h.shapes) && l in h.mem
    requires -1 <= j < |stack|
    requires j >= 0 ==> Undoes(stack[j], h.shapes[ObjOf(l)], l)
    requires forall k :: j < k < |stack| ==> !Undoes(stack[k], h.shapes[ObjOf(l)], l)
    ensures RollbackAll(stack, h).mem[l] ==
      if j >= 0 then LoggedVal(stack[j], h.shapes[ObjOf(l)], l) else h.mem[l]
  {
    if stack != [] {
      OutermostLogWins(stack[1..], Undo(stack[0], h), l, if j > 0 then j - 1 else -1);
    }
  }

  // ---- History ----

  /** What the heap was when a transaction was entered, which slots a committed inner
      transaction has changed since without this or a surviving inner transaction holding their
      old value, and whether no committed inner transaction touched the intern tables. Slots and
      weak entries of collected objects are dropped. */
  datatype Snapshot = Snapshot(mem: map<Loc, Val>, strong: InternTable, weak: InternTable, dirty: set<Loc>, clean: bool)

  function CommittedInto(snap: Snapshot, stack: seq<Tx>, n: nat, shapes: map<Ref, Shape>): Snapshot
    requires stack != []
  {
    var kept := set l <- snap.mem |
      ObjOf(l) in shapes && Undoes(stack[0], shapes[ObjOf(l)], l) && !AnyUndoes(stack[1..], n, shapes[ObjOf(l)], l);
    snap.(dirty := snap.dirty + kept, clean := snap.clean && stack[0].internLogs == [])
  }

  function Surviving(snap: Snapshot, dead: set<Ref>): Snapshot {
    snap.(mem := map l <- snap.mem | ObjOf(l) !in dead :: snap.mem[l], weak := Swept(snap.weak, dead))
  }

  function StepHistory(h: seq<Snapshot>, s: Sys, e: Event): seq<Snapshot>
    requires |h| == |s.stack|
    requires e.Exit? || e.RollbackExit? ==> s.stack != []
  {
    match e
    case Enter(_, _) => [Snapshot(s.heap.mem, s.heap.strong, s.heap.weak, {}, true)] + h
    case Exit => seq(|h| - 1, (j: nat) requires j < |h| - 1 => CommittedInto(h[j + 1], s.stack, j + 1, s.heap.shapes))
    case RollbackExit => h[1..]
    case Collect(dead) => seq(|h|, (j: nat) requires j < |h| => Surviving(h[j], dead))
    case _ => h
  }

  // ---- The invariant ----

  ghost predicate Restored(stack: seq<Tx>, n: nat, h: Heap, snap: Snapshot, l: Loc)
    requires l in snap.mem
  {
    && l in h.mem && ObjOf(l) in h.shapes
    && (l !in snap.dirty && Rollbackable(h.shapes[ObjOf(l)], l) && Recoverable(snap.mem[l]) ==>
          UnwindVal(stack, n, h.shapes[ObjOf(l)], l, h.mem[l]) == snap.mem[l])
  }

  /** Undoing the `n` innermost transactions takes the heap back to `snap`. */
  ghost predicate Restores(stack: seq<Tx>, n: nat, h: Heap, snap: Snapshot) {
    && (forall l <- snap.mem :: Restored(stack, n, h, snap, l))
    && (snap.clean ==> UnwindTables(stack, n, h.shapes, TablesOf(h)) == (snap.strong, snap.weak))
  }

  /** No object that `tx` flags as new has a slot in the snapshot. */
  ghost predicate NewerThan(tx: Tx, shapes: map<Ref, Shape>, snap: Snapshot) {
    forall l <- snap.mem :: !FlaggedNew(tx, shapes, ObjOf(l))
  }

  ghost predicate AllValid(stack: seq<Tx>, h: Heap) {
    forall i :: 0 <= i < |stack| ==> ValidTx(stack[i], h)
  }

  ghost predicate AllNewer(stack: seq<Tx>, shapes: map<Ref, Shape>, hist: seq<Snapshot>) {
    |hist| == |stack| &&
    forall i, j :: 0 <= i <= j < |stack| ==> NewerThan(stack[i], shapes, hist[j])
  }

  ghost predicate AllRestore(stack: seq<Tx>, h: Heap, hist: seq<Snapshot>) {
    |hist| == |stack| &&
    forall j :: 0 <= j < |stack| ==> Restores(stack, j + 1, h, hist[j])
  }

  ghost predicate Inv(s: Sys, hist: seq<Snapshot>) {
    && ValidHeap(s.heap)
    && AllValid(s.stack, s.heap)
    && AllNewer(s.stack, s.heap.shapes, hist)
    && AllRestore(s.stack, s.heap, hist)
  }

  // ---- Every step keeps the invariant ----

  /** A transaction with nothing in its logs unwinds to nothing. */
  lemma UnwindFresh(tx: Tx, stack: seq<Tx>, n: nat, shapes: map<Ref, Shape>, ts: Tables)
    requires tx.objectLogs == map[] && tx.arrayLogs == map[] && tx.internLogs == []
    ensures forall sh, l, v :: UnwindVal([tx] + stack, n + 1, sh, l, v) == UnwindVal(stack, n, sh, l, v)
    ensures UnwindTables([tx] + stack, n + 1, shapes, ts) == UnwindTables(stack, n, shapes, ts)
  {
    assert ([tx] + stack)[1..] == stack;
  }

  lemma EnterKeeps(s: Sys, hist: seq<Snapshot>, e: Event)
    requires Inv(s, hist) && e.Enter? && Enabled(s, e)
    ensures Inv(Step(s, e), StepHistory(hist, s, e))
  {
    var s', hist' := Step(s, e), StepHistory(hist, s, e);
    forall j | 0 <= j < |s'.stack| ensures Restores(s'.stack, j + 1, s'.heap, hist'[j]) {
      UnwindFresh(s'.stack[0], s.stack, j, s.heap.shapes, TablesOf(s.heap));
      assert j > 0 ==> Restores(s.stack, j, s.heap, hist[j - 1]);
      forall l | l in hist'[j].mem ensures Restored(s'.stack, j + 1, s'.heap, hist'[j], l) {
        if j > 0 {
          assert Restored(s.stack, j, s.heap, hist[j - 1], l);
        } else {
          assert ValidSlot(s.heap.shapes, l, s.heap.mem[l]);
        }
      }
    }
    forall i, j | 0 <= i <= j < |s'.stack| ensures NewerThan(s'.stack[i], s'.heap.shapes, hist'[j]) {
      assert i > 0 ==> NewerThan(s.stack[i - 1], s.heap.shapes, hist[j - 1]);
    }
  }

  lemma CommitRestores(stack: seq<Tx>, n: nat, h: Heap, snap: Snapshot)
    requires stack != [] && Restores(stack, n + 1, h, snap)
    ensures Restores(stack[1..], n, h, CommittedInto(snap, stack, n, h.shapes))
  {
    hide Undoes, Rollbackable, Recoverable;
    var snap' := CommittedInto(snap, stack, n, h.shapes);
    forall l | l in snap'.mem ensures Restored(stack[1..], n, h, snap', l) {
      assert Restored(stack, n + 1, h, snap, l);
      var sh := h.shapes[ObjOf(l)];
      UnwindIgnoresCurrent(stack[1..], n, sh, l, h.mem[l], UndoVal(stack[0], sh, l, h.mem[l]));
    }
  }

  lemma ExitKeeps(s: Sys, hist: seq<Snapshot>)
    requires Inv(s, hist) && s.stack != []
    ensures Inv(Step(s, Exit), StepHistory(hist, s, Exit))
  {
    hide Restores, FlaggedNew, ValidTx, ValidHeap;
    var s', hist' := Step(s, Exit), StepHistory(hist, s, Exit);
    forall j | 0 <= j < |s'.stack| ensures Restores(s'.stack, j + 1, s'.heap, hist'[j]) {
      CommitRestores(s.stack, j + 1, s.heap, hist[j + 1]);
    }
    forall i, j | 0 <= i <= j < |s'.stack| ensures NewerThan(s'.stack[i], s'.heap.shapes, hist'[j]) {
      assert NewerThan(s.stack[i + 1], s.heap.shapes, hist[j + 1]);
    }
  }

  lemma SameSlotsKeepTx(tx: Tx, h: Heap, h': Heap)
    requires ValidTx(tx, h) && h.shapes == h'.shapes && h.mem.Keys == h'.mem.Keys
    ensures ValidTx(tx, h')
  {
    forall o | o in tx.objectLogs ensures ValidObjectLog(h', o, tx.objectLogs[o]) {
      assert ValidObjectLog(h, o, tx.objectLogs[o]);
      forall off | off in tx.objectLogs[o].values ensures ValidFieldEntry(h', o, off, tx.objectLogs[o].values[off]) {
        assert ValidFieldEntry(h, o, off, tx.objectLogs[o].values[off]);
      }
    }
    forall a | a in tx.arrayLogs ensures ValidArrayLog(h', a, tx.arrayLogs[a]) {
      assert ValidArrayLog(h, a, tx.arrayLogs[a]);
    }
  }

  lemma RollbackExitKeeps(s: Sys, hist: seq<Snapshot>)
    requires Inv(s, hist) && Enabled(s, RollbackExit)
    ensures Inv(Step(s, RollbackExit), StepHistory(hist, s, RollbackExit))
  {
    var s', hist' := Step(s, RollbackExit), StepHistory(hist, s, RollbackExit);
    UndoKeepsHeapValid(s.stack[0], s.heap);
    forall j | 0 <= j < |s'.stack| ensures Restores(s'.stack, j + 1, s'.heap, hist'[j]) {
      assert Restores(s.stack, j + 2, s.heap, hist[j + 1]);
      forall l | l in hist'[j].mem ensures Restored(s'.stack, j + 1, s'.heap, hist'[j], l) {
        assert Restored(s.stack, j + 2, s.heap, hist[j + 1], l);
      }
    }
    forall i | 0 <= i < |s'.stack| ensures ValidTx(s'.stack[i], s'.heap) {
      SameSlotsKeepTx(s.stack[i + 1], s.heap, s'.heap);
    }
    forall i, j | 0 <= i <= j < |s'.stack| ensures NewerThan(s'.stack[i], s'.heap.shapes, hist'[j]) {
      assert NewerThan(s.stack[i + 1], s.heap.shapes, hist[j + 1]);
    }
  }

  /** The slot that is written: its old value is logged, already logged, or belongs to an object
      that no snapshot knows. */
  lemma WrittenSlotRestored(s: Sys, hist: seq<Snapshot>, l: Loc, v: Val, j: nat)
    requires Inv(s, hist) && j < |s.stack| && l in s.heap.mem && ValidSlot(s.heap.shapes, l, v)
    requires l in hist[j].mem && ValidSlot(s.heap.shapes, l, s.heap.mem[l])
    ensures var s' := WriteStep(s, l, v, false); Restored(s'.stack, j + 1, s'.heap, hist[j], l)
  {
    var s' := WriteStep(s, l, v, false);
    var sh, cur, rest := s.heap.shapes[ObjOf(l)], s.heap.mem[l], s.stack[1..];
    var front, front' := s.stack[0], s'.stack[0];
    assert s'.stack[1..] == rest;
    assert Restores(s.stack, j + 1, s.heap, hist[j]);
    assert Restored(s.stack, j + 1, s.heap, hist[j], l);
    if l !in hist[j].dirty && Rollbackable(sh, l) && Recoverable(hist[j].mem[l]) {
      var u, u' := UndoVal(front, sh, l, cur), UndoVal(front', sh, l, v);
      if Undoes(front, sh, l) {
        RecordKeepsEntry(front, sh, l, cur);
      } else {
        RecordAddsEntry(front, s.heap, l);
        assert NewerThan(front, s.heap.shapes, hist[j]);
        UnwindIgnoresCurrent(rest, j, sh, l, u, u');
      }
      assert UnwindVal(rest, j, sh, l, u') == UnwindVal(rest, j, sh, l, u);
    }
  }

  lemma OtherSlotRestored(s: Sys, hist: seq<Snapshot>, l: Loc, v: Val, j: nat, k: Loc)
    requires Inv(s, hist) && j < |s.stack| && l in s.heap.mem && ValidSlot(s.heap.shapes, l, v)
    requires k in hist[j].mem && k != l && ValidSlot(s.heap.shapes, l, s.heap.mem[l])
    ensures var s' := WriteStep(s, l, v, false); Restored(s'.stack, j + 1, s'.heap, hist[j], k)
  {
    var s' := WriteStep(s, l, v, false);
    assert s'.stack[1..] == s.stack[1..];
    assert Restores(s.stack, j + 1, s.heap, hist[j]);
    assert Restored(s.stack, j + 1, s.heap, hist[j], k);
    RecordFramesOtherSlots(s.stack[0], s.heap.shapes[ObjOf(l)], l, s.heap.mem[l], k, s.heap.shapes[ObjOf(k)], s.heap.mem[k]);
  }

  lemma RecordWriteKeepsFlags(tx: Tx, shapes: map<Ref, Shape>, l: Loc, sh: Shape, cur: Val, r: Ref)
    requires HasSlot(sh, l) && Fits(SlotTypeOf(sh, l), cur)
    ensures FlaggedNew(RecordWrite(tx, sh, l, cur), shapes, r) <==> FlaggedNew(tx, shapes, r)
  {
  }

  lemma RecordFieldKeepsTx(tx: Tx, h: Heap, o: Ref, off: nat, fv: FieldValue)
    requires ValidTx(tx, h) && ValidFieldEntry(h, o, off, fv)
    ensures ValidTx(RecordWriteField(tx, o, off, fv), h)
  {
    assert o in tx.objectLogs ==> ValidObjectLog(h, o, tx.objectLogs[o]);
    assert ValidObjectLog(h, o, LogFieldValue(ObjectLogOf(tx, o), off, fv));
  }

  lemma RecordArrayKeepsTx(tx: Tx, h: Heap, a: Ref, i: nat, word: nat)
    requires ValidTx(tx, h) && Elem(a, i) in h.mem && a in h.shapes && h.shapes[a].elem.Some?
    ensures ValidTx(RecordWriteArray(tx, a, i, word), h)
  {
    assert a in tx.arrayLogs ==> ValidArrayLog(h, a, tx.arrayLogs[a]);
    assert ValidArrayLog(h, a, LogElemValue(ArrayLogOf(tx, a), i, word));
  }

  lemma RecordWriteKeepsTx(tx: Tx, h: Heap, l: Loc)
    requires ValidTx(tx, h) && l in h.mem && ValidSlot(h.shapes, l, h.mem[l])
    ensures ValidTx(RecordWrite(tx, h.shapes[ObjOf(l)], l, h.mem[l]), h)
  {
    var word := EncodeSlot(SlotTypeOf(h.shapes[ObjOf(l)], l), h.mem[l]);
    match l {
      case Field(o, off) =>
        RecordFieldKeepsTx(tx, h, o, off, FieldValue(RecordKind(h.shapes[o].fields[off]), word));
      case Elem(a, i) =>
        RecordArrayKeepsTx(tx, h, a, i, word);
    }
  }

  lemma StoreKeepsHeap(h: Heap, l: Loc, v: Val)
    requires ValidHeap(h) && l in h.mem && ValidSlot(h.shapes, l, v)
    ensures ValidHeap(h.(mem := h.mem[l := v]))
  {
  }

  lemma FrontKeepsNewer(stack: seq<Tx>, tx: Tx, shapes: map<Ref, Shape>, hist: seq<Snapshot>)
    requires stack != [] && AllNewer(stack, shapes, hist)
    requires forall r :: FlaggedNew(tx, shapes, r) ==> FlaggedNew(stack[0], shapes, r)
    ensures AllNewer(WithFront(stack, tx), shapes, hist)
  {
    var stack' := WithFront(stack, tx);
    forall i, j | 0 <= i <= j < |stack'| ensures NewerThan(stack'[i], shapes, hist[j]) {
      assert NewerThan(stack[i], shapes, hist[j]);
    }
  }

  lemma WriteStoresKeeps(s: Sys, hist: seq<Snapshot>, l: Loc, v: Val)
    requires Inv(s, hist) && s.stack != [] && l in s.heap.mem && ValidSlot(s.heap.shapes, l, v)
    requires ValidSlot(s.heap.shapes, l, s.heap.mem[l])
    ensures Inv(WriteStep(s, l, v, false), hist)
  {
    var s' := WriteStep(s, l, v, false);
    StoreKeepsHeap(s.heap, l, v);
    RecordWriteKeepsTx(s.stack[0], s.heap, l);
    forall i | 0 <= i < |s'.stack| ensures ValidTx(s'.stack[i], s'.heap) {
      SameSlotsKeepTx(s'.stack[i], s.heap, s'.heap);
    }
    forall j | 0 <= j < |s'.stack| ensures Restores(s'.stack, j + 1, s'.heap, hist[j]) {
      assert Restores(s.stack, j + 1, s.heap, hist[j]);
      assert s'.stack[1..] == s.stack[1..];
      forall k | k in hist[j].mem ensures Restored(s'.stack, j + 1, s'.heap, hist[j], k) {
        if k == l {
          WrittenSlotRestored(s, hist, l, v, j);
        } else {
          OtherSlotRestored(s, hist, l, v, j, k);
        }
      }
    }
    forall r ensures FlaggedNew(s'.stack[0], s.heap.shapes, r) <==> FlaggedNew(s.stack[0], s.heap.shapes, r) {
      RecordWriteKeepsFlags(s.stack[0], s.heap.shapes, l, s.heap.shapes[ObjOf(l)], s.heap.mem[l], r);
    }
    FrontKeepsNewer(s.stack, s'.stack[0], s.heap.shapes, hist);
  }

  /** Changing the innermost transaction and the heap together without changing what undoing
      that transaction gives leaves everything restorable. */
  lemma FrontKeepsRestore(stack: seq<Tx>, tx: Tx, h: Heap, h': Heap, hist: seq<Snapshot>)
    requires stack != [] && AllRestore(stack, h, hist)
    requires h.shapes == h'.shapes && h.mem.Keys == h'.mem.Keys && ShapesCover(h.mem, h.shapes)
    requires Undo(tx, h') == Undo(stack[0], h)
    ensures AllRestore(WithFront(stack, tx), h', hist)
  {
    var stack' := WithFront(stack, tx);
    assert stack'[1..] == stack[1..];
    forall j | 0 <= j < |stack'| ensures Restores(stack', j + 1, h', hist[j]) {
      assert Restores(stack, j + 1, h, hist[j]);
      forall k | k in hist[j].mem ensures Restored(stack', j + 1, h', hist[j], k) {
        assert Restored(stack, j + 1, h, hist[j], k);
        assert Undo(tx, h').mem[k] == Undo(stack[0], h).mem[k];
      }
      var ts, ts' := UndoInterns(h.shapes, stack[0].internLogs, TablesOf(h)), UndoInterns(h.shapes, tx.internLogs, TablesOf(h'));
      assert ts == TablesOf(Undo(stack[0], h)) && ts' == TablesOf(Undo(tx, h'));
    }
  }

  lemma AbortedTx(tx: Tx, h: Heap)
    requires ValidHeap(h) && ShapesCover(h.mem, h.shapes) && ValidTx(tx, h)
    ensures ValidTx(tx.(aborted := true), h) && Undo(tx.(aborted := true), h) == Undo(tx, h)
    ensures forall r :: FlaggedNew(tx.(aborted := true), h.shapes, r) <==> FlaggedNew(tx, h.shapes, r)
  {
    var t := tx.(aborted := true);
    assert UndoMem(t, h.mem, h.shapes) == UndoMem(tx, h.mem, h.shapes);
  }

  lemma CoverOfValid(h: Heap)
    requires ValidHeap(h)
    ensures ShapesCover(h.mem, h.shapes)
  {
    forall l | l in h.mem ensures ObjOf(l) in h.shapes {
      assert ValidSlot(h.shapes, l, h.mem[l]);
    }
  }

  lemma AbortKeeps(s: Sys, hist: seq<Snapshot>)
    requires Inv(s, hist) && s.stack != []
    ensures Inv(s.(stack := WithFront(s.stack, s.stack[0].(aborted := true))), hist)
  {
    hide Restores, NewerThan, ValidHeap, AllNewer, AllRestore, Undo, ValidTx, FlaggedNew, ShapesCover;
    var tx := s.stack[0].(aborted := true);
    CoverOfValid(s.heap);
    AbortedTx(s.stack[0], s.heap);
    FrontKeepsRestore(s.stack, tx, s.heap, s.heap, hist);
    FrontKeepsNewer(s.stack, tx, s.heap.shapes, hist);
  }

  lemma WriteKeeps(s: Sys, hist: seq<Snapshot>, e: Event)
    requires Inv(s, hist) && e.Write? && Enabled(s, e)
    ensures Inv(Step(s, e), StepHistory(hist, s, e))
  {
    var Write(l, v, guarded) := e;
    assert ValidSlot(s.heap.shapes, l, s.heap.mem[l]);
    if s.stack == [] {
      StoreKeepsHeap(s.heap, l, v);
    } else if guarded && Blocked(s, l, v) {
      AbortKeeps(s, hist);
    } else {
      WriteStoresKeeps(s, hist, l, v);
    }
  }

  lemma InternKeepsHeap(h: Heap, op: InternOp)
    requires ValidHeap(h) && op.str in h.shapes
    ensures var ts := ApplyIntern(h.shapes, TablesOf(h), op); ValidHeap(h.(strong := ts.0, weak := ts.1))
  {
  }

  lemma InternedTx(tx: Tx, h: Heap, op: InternOp)
    requires ValidHeap(h) && ShapesCover(h.mem, h.shapes) && ValidTx(tx, h) && InternAllowed(h.shapes, TablesOf(h), op)
    ensures var ts := ApplyIntern(h.shapes, TablesOf(h), op);
      var tx', h' := LogInterned(tx, op), h.(strong := ts.0, weak := ts.1);
      ValidTx(tx', h') && Undo(tx', h') == Undo(tx, h) && forall r :: FlaggedNew(tx', h.shapes, r) <==> FlaggedNew(tx, h.shapes, r)
  {
    hide ApplyIntern, TableApply;
    var ts := ApplyIntern(h.shapes, TablesOf(h), op);
    var tx', h' := LogInterned(tx, op), h.(strong := ts.0, weak := ts.1);
    InverseUndoesIntern(h.shapes, TablesOf(h), op);
    assert tx'.internLogs[1..] == tx.internLogs;
    SameSlotsKeepTx(tx, h, h');
    assert UndoMem(tx', h'.mem, h'.shapes) == UndoMem(tx, h.mem, h.shapes);
  }

  lemma InternKeeps(s: Sys, hist: seq<Snapshot>, e: Event)
    requires Inv(s, hist) && e.Intern? && Enabled(s, e)
    ensures Inv(Step(s, e), StepHistory(hist, s, e))
  {
    hide Restores, NewerThan, ValidTx, ValidHeap, Undo, FlaggedNew, ApplyIntern, LogInterned, ShapesCover;
    var op, h' := e.op, Step(s, e).heap;
    InternKeepsHeap(s.heap, op);
    CoverOfValid(s.heap);
    CoverOfValid(h');
    forall i | 0 <= i < |s.stack| ensures ValidTx(s.stack[i], h') {
      SameSlotsKeepTx(s.stack[i], s.heap, h');
    }
    if s.stack != [] {
      var tx := LogInterned(s.stack[0], op);
      InternedTx(s.stack[0], s.heap, op);
      FrontKeepsRestore(s.stack, tx, s.heap, h', hist);
      FrontKeepsNewer(s.stack, tx, s.heap.shapes, hist);
    }
  }

  lemma AllocateKeepsHeap(h: Heap, r: Ref, sh: Shape, init: map<Loc, Val>)
    requires ValidHeap(h) && r != NULL && r !in h.shapes
    requires forall l <- init :: ObjOf(l) == r && ValidSlot(h.shapes[r := sh], l, init[l])
    ensures ValidHeap(h.(mem := h.mem + init, shapes := h.shapes[r := sh]))
  {
    var h' := h.(mem := h.mem + init, shapes := h.shapes[r := sh]);
    forall l | l in h'.mem ensures ValidSlot(h'.shapes, l, h'.mem[l]) {
      if l !in init {
        assert ValidSlot(h.shapes, l, h.mem[l]);
      }
    }
  }

  /** A log stays well formed when objects and slots are added. */
  lemma GrowingKeepsTx(tx: Tx, h: Heap, h': Heap)
    requires ValidTx(tx, h) && h.mem.Keys <= h'.mem.Keys && h.shapes.Keys <= h'.shapes.Keys
    requires forall r <- h.shapes :: h'.shapes[r] == h.shapes[r]
    ensures ValidTx(tx, h')
  {
    forall o | o in tx.objectLogs ensures ValidObjectLog(h', o, tx.objectLogs[o]) {
      assert ValidObjectLog(h, o, tx.objectLogs[o]);
      forall off | off in tx.objectLogs[o].values ensures ValidFieldEntry(h', o, off, tx.objectLogs[o].values[off]) {
        assert ValidFieldEntry(h, o, off, tx.objectLogs[o].values[off]);
      }
    }
    forall a | a in tx.arrayLogs ensures ValidArrayLog(h', a, tx.arrayLogs[a]) {
      assert ValidArrayLog(h, a, tx.arrayLogs[a]);
    }
  }

  lemma NewObjectKeepsTx(tx: Tx, h: Heap, r: Ref)
    requires ValidTx(tx, h) && r != NULL && r in h.shapes && h.shapes[r].elem.None?
    requires r !in tx.objectLogs && r !in tx.arrayLogs
    ensures ValidTx(RecordNewObject(tx, r), h)
  {
    hide ValidFieldEntry, ValidArrayLog;
    var tx' := RecordNewObject(tx, r);
    forall o | o in tx'.objectLogs ensures ValidObjectLog(h, o, tx'.objectLogs[o]) {
      assert o != r ==> ValidObjectLog(h, o, tx.objectLogs[o]);
    }
  }

  lemma NewArrayKeepsTx(tx: Tx, h: Heap, r: Ref)
    requires ValidTx(tx, h) && r != NULL && r in h.shapes && h.shapes[r].elem.Some? && h.shapes[r].isArray
    requires r !in tx.objectLogs && r !in tx.arrayLogs
    ensures ValidTx(RecordNewArray(tx, h.shapes[r], r), h)
  {
    hide ValidObjectLog;
    var tx' := RecordNewArray(tx, h.shapes[r], r);
    forall a | a in tx'.arrayLogs ensures ValidArrayLog(h, a, tx'.arrayLogs[a]) {
      assert a != r ==> ValidArrayLog(h, a, tx.arrayLogs[a]);
    }
  }

  lemma AllocationKeepsTx(tx: Tx, h: Heap, r: Ref)
    requires ValidTx(tx, h) && r != NULL && r in h.shapes && (h.shapes[r].elem.Some? ==> h.shapes[r].isArray)
    requires r !in tx.objectLogs && r !in tx.arrayLogs
    ensures ValidTx(RecordAllocation(tx, h.shapes[r], r), h)
  {
    hide ValidTx;
    if h.shapes[r].elem.None? {
      NewObjectKeepsTx(tx, h, r);
    } else {
      NewArrayKeepsTx(tx, h, r);
    }
  }

  ghost predicate AgreeOnText(stack: seq<Tx>, shapes: map<Ref, Shape>, shapes': map<Ref, Shape>) {
    forall i, op :: 0 <= i < |stack| && op in stack[i].internLogs ==> TextOf(shapes, op.str) == TextOf(shapes', op.str)
  }

  lemma {:induction false} UndoInternsAgree(shapes: map<Ref, Shape>, shapes': map<Ref, Shape>, ops: seq<InternOp>, ts: Tables)
    requires forall op <- ops :: TextOf(shapes, op.str) == TextOf(shapes', op.str)
    ensures UndoInterns(shapes, ops, ts) == UndoInterns(shapes', ops, ts)
  {
    if ops != [] {
      UndoInternsAgree(shapes, shapes', ops[1..], ApplyIntern(shapes, ts, Inverse(ops[0])));
    }
  }

  lemma {:induction false} UnwindTablesAgree(stack: seq<Tx>, n: nat, shapes: map<Ref, Shape>, shapes': map<Ref, Shape>, ts: Tables)
    requires AgreeOnText(stack, shapes, shapes')
    ensures UnwindTables(stack, n, shapes, ts) == UnwindTables(stack, n, shapes', ts)
  {
    if n != 0 && stack != [] {
      UndoInternsAgree(shapes, shapes', stack[0].internLogs, ts);
      forall i, op | 0 <= i < |stack[1..]| && op in stack[1..][i].internLogs
        ensures TextOf(shapes, op.str) == TextOf(shapes', op.str) {
        assert op in stack[i + 1].internLogs;
      }
      UnwindTablesAgree(stack[1..], n - 1, shapes, shapes', UndoInterns(shapes, stack[0].internLogs, ts));
    }
  }

  lemma UnwindTablesSameShapes(stack: seq<Tx>, h: Heap, shapes': map<Ref, Shape>)
    requires AllValid(stack, h)
    requires forall tx <- stack, op <- tx.internLogs :: op.str in shapes' && shapes'[op.str] == h.shapes[op.str]
    ensures forall n: nat :: UnwindTables(stack, n, h.shapes, TablesOf(h)) == UnwindTables(stack, n, shapes', TablesOf(h))
  {
    forall i, op | 0 <= i < |stack| && op in stack[i].internLogs
      ensures TextOf(h.shapes, op.str) == TextOf(shapes', op.str) {
      assert ValidTx(stack[i], h);
    }
    forall n: nat ensures UnwindTables(stack, n, h.shapes, TablesOf(h)) == UnwindTables(stack, n, shapes', TablesOf(h)) {
      UnwindTablesAgree(stack, n, h.shapes, shapes', TablesOf(h));
    }
  }

  lemma LoggedIsLive(tx: Tx, h: Heap, op: InternOp)
    requires ValidTx(tx, h) && op in tx.internLogs
    ensures op.str in h.shapes
  {
  }

  /** Shapes are consulted only for the objects of known slots, so adding one changes nothing. */
  lemma AllocateKeepsRestore(s: Sys, hist: seq<Snapshot>, r: Ref, sh: Shape, init: map<Loc, Val>, recorded: bool)
    requires Inv(s, hist) && s.stack != [] && r !in s.heap.shapes
    requires forall l <- init :: ObjOf(l) == r
    ensures var s' := AllocateStep(s, r, sh, init, recorded); AllRestore(s'.stack, s'.heap, hist)
  {
    hide ValidHeap, ValidTx, NewerThan, Rollbackable, Recoverable;
    var s' := AllocateStep(s, r, sh, init, recorded);
    assert s'.stack[1..] == s.stack[1..];
    forall tx, op | tx in s.stack && op in tx.internLogs ensures op.str in s.heap.shapes {
      LoggedIsLive(tx, s.heap, op);
    }
    UnwindTablesSameShapes(s.stack, s.heap, s'.heap.shapes);
    forall j | 0 <= j < |s'.stack| ensures Restores(s'.stack, j + 1, s'.heap, hist[j]) {
      assert Restores(s.stack, j + 1, s.heap, hist[j]);
      assert UnwindTables(s'.stack, j + 1, s'.heap.shapes, TablesOf(s'.heap)) == UnwindTables(s.stack, j + 1, s'.heap.shapes, TablesOf(s.heap));
      forall l | l in hist[j].mem ensures Restored(s'.stack, j + 1, s'.heap, hist[j], l) {
        assert Restored(s.stack, j + 1, s.heap, hist[j], l);
        assert ObjOf(l) != r;
        assert s'.heap.mem[l] == s.heap.mem[l];
        assert UndoVal(s'.stack[0], s.heap.shapes[ObjOf(l)], l, s.heap.mem[l]) == UndoVal(s.stack[0], s.heap.shapes[ObjOf(l)], l, s.heap.mem[l]);
      }
    }
  }

  lemma AllocateKeepsNewer(s: Sys, hist: seq<Snapshot>, r: Ref, sh: Shape, init: map<Loc, Val>, recorded: bool)
    requires Inv(s, hist) && s.stack != [] && r !in s.heap.shapes
    ensures var s' := AllocateStep(s, r, sh, init, recorded); AllNewer(s'.stack, s'.heap.shapes, hist)
  {
    var s' := AllocateStep(s, r, sh, init, recorded);
    forall i, j | 0 <= i <= j < |s'.stack| ensures NewerThan(s'.stack[i], s'.heap.shapes, hist[j]) {
      assert NewerThan(s.stack[i], s.heap.shapes, hist[j]);
      assert Restores(s.stack, j + 1, s.heap, hist[j]);
      forall l | l in hist[j].mem ensures !FlaggedNew(s'.stack[i], s'.heap.shapes, ObjOf(l)) {
        assert Restored(s.stack, j + 1, s.heap, hist[j], l);
        assert !FlaggedNew(s.stack[i], s.heap.shapes, ObjOf(l));
      }
    }
  }

  lemma FreshIsUnlogged(tx: Tx, h: Heap, r: Ref)
    requires ValidTx(tx, h) && r !in h.shapes
    ensures r !in tx.objectLogs && r !in tx.arrayLogs
  {
    assert r in tx.objectLogs ==> ValidObjectLog(h, r, tx.objectLogs[r]);
    assert r in tx.arrayLogs ==> ValidArrayLog(h, r, tx.arrayLogs[r]);
  }

  lemma AllocateKeeps(s: Sys, hist: seq<Snapshot>, e: Event)
    requires Inv(s, hist) && e.Allocate? && Enabled(s, e)
    ensures Inv(Step(s, e), StepHistory(hist, s, e))
  {
    hide Restores, NewerThan, ValidTx, ValidHeap, RecordNewObject, RecordNewArray;
    var Allocate(r, sh, init, recorded) := e;
    var s' := Step(s, e);
    AllocateKeepsHeap(s.heap, r, sh, init);
    if s.stack != [] {
      AllocateKeepsRestore(s, hist, r, sh, init, recorded);
      AllocateKeepsNewer(s, hist, r, sh, init, recorded);
      forall i | 0 <= i < |s'.stack| ensures ValidTx(s'.stack[i], s'.heap) {
        FreshIsUnlogged(s.stack[i], s.heap, r);
        GrowingKeepsTx(s.stack[i], s.heap, s'.heap);
        if i == 0 && recorded {
          AllocationKeepsTx(s.stack[0], s'.heap, r);
        }
      }
    }
  }

  lemma CollectKeepsHeap(s: Sys, dead: set<Ref>)
    requires ValidHeap(s.heap) && Collectable(s, dead)
    ensures ValidHeap(CollectStep(s, dead).heap)
  {
    var h' := CollectStep(s, dead).heap;
    forall l | l in h'.mem ensures ValidSlot(h'.shapes, l, h'.mem[l]) {
      assert ValidSlot(s.heap.shapes, l, s.heap.mem[l]);
      assert SlotAvoids(l, s.heap.mem[l], dead);
    }
  }

  /** Because `VisitRoots` reports every logged object and every logged reference, a collection
      leaves the log well formed. */
  lemma CollectKeepsTx(s: Sys, dead: set<Ref>, tx: Tx)
    requires ValidTx(tx, s.heap) && RootsAvoid(tx, dead)
    ensures ValidTx(tx, CollectStep(s, dead).heap)
  {
    var h' := CollectStep(s, dead).heap;
    forall o | o in tx.objectLogs ensures ValidObjectLog(h', o, tx.objectLogs[o]) {
      assert ValidObjectLog(s.heap, o, tx.objectLogs[o]);
      assert LogAvoids(tx.objectLogs[o], dead);
      forall off | off in tx.objectLogs[o].values ensures ValidFieldEntry(h', o, off, tx.objectLogs[o].values[off]) {
        assert ValidFieldEntry(s.heap, o, off, tx.objectLogs[o].values[off]);
      }
    }
    forall a | a in tx.arrayLogs ensures ValidArrayLog(h', a, tx.arrayLogs[a]) {
      assert ValidArrayLog(s.heap, a, tx.arrayLogs[a]);
    }
  }

  lemma {:induction false} UnwindTablesSwept(stack: seq<Tx>, n: nat, shapes: map<Ref, Shape>, ts: Tables, dead: set<Ref>)
    requires forall tx <- stack :: RootsAvoid(tx, dead)
    ensures var r := UnwindTables(stack, n, shapes, ts); UnwindTables(stack, n, shapes, (ts.0, Swept(ts.1, dead))) == (r.0, Swept(r.1, dead))
  {
    hide Swept, UndoInterns;
    if n != 0 && stack != [] {
      assert RootsAvoid(stack[0], dead);
      UndoInternsSwept(shapes, stack[0].internLogs, ts, dead);
      UnwindTablesSwept(stack[1..], n - 1, shapes, UndoInterns(shapes, stack[0].internLogs, ts), dead);
    }
  }

  lemma CollectKeeps(s: Sys, hist: seq<Snapshot>, e: Event)
    requires Inv(s, hist) && e.Collect? && Enabled(s, e)
    ensures Inv(Step(s, e), StepHistory(hist, s, e))
  {
    hide ValidHeap, ValidTx, Swept, UnwindTables, Rollbackable, Recoverable;
    var dead := e.dead;
    var s', hist' := Step(s, e), StepHistory(hist, s, e);
    CollectKeepsHeap(s, dead);
    forall i | 0 <= i < |s'.stack| ensures ValidTx(s'.stack[i], s'.heap) {
      CollectKeepsTx(s, dead, s.stack[i]);
    }
    forall tx, op | tx in s.stack && op in tx.internLogs
      ensures op.str in s'.heap.shapes && s'.heap.shapes[op.str] == s.heap.shapes[op.str] {
      assert RootsAvoid(tx, dead);
      LoggedIsLive(tx, s.heap, op);
    }
    UnwindTablesSameShapes(s.stack, s.heap, s'.heap.shapes);
    forall j | 0 <= j < |s'.stack| ensures Restores(s'.stack, j + 1, s'.heap, hist'[j]) {
      assert Restores(s.stack, j + 1, s.heap, hist[j]);
      UnwindTablesSwept(s.stack, j + 1, s'.heap.shapes, TablesOf(s.heap), dead);
      forall l | l in hist'[j].mem ensures Restored(s'.stack, j + 1, s'.heap, hist'[j], l) {
        assert Restored(s.stack, j + 1, s.heap, hist[j], l);
      }
    }
    forall i, j | 0 <= i <= j < |s'.stack| ensures NewerThan(s'.stack[i], s'.heap.shapes, hist'[j]) {
      assert NewerThan(s.stack[i], s.heap.shapes, hist[j]);
    }
  }

  lemma StepKeeps(s: Sys, hist: seq<Snapshot>, e: Event)
    requires Inv(s, hist) && Enabled(s, e)
    ensures Inv(Step(s, e), StepHistory(hist, s, e))
  {
    match e {
      case Enter(_, _) => EnterKeeps(s, hist, e);
      case Exit => ExitKeeps(s, hist);
      case RollbackExit => RollbackExitKeeps(s, hist);
      case Write(_, _, _) => WriteKeeps(s, hist, e);
      case Allocate(_, _, _, _) => AllocateKeeps(s, hist, e);
      case Intern(_) => InternKeeps(s, hist, e);
      case Collect(_) => CollectKeeps(s, hist, e);
    }
  }

  // ---- Rolling back finds what it removes ----

  /** All logged intern-table operations in the order in which a rollback undoes them. */
  function AllOps(stack: seq<Tx>): seq<InternOp> {
    if stack == [] then [] else stack[0].internLogs + AllOps(stack[1..])
  }

  /** Rolling back every transaction finds every string it removes from a table, so it completes. */
  ghost predicate RollsBack(s: Sys) {
    UndoFinds(s.heap.shapes, AllOps(s.stack), TablesOf(s.heap))
  }

  ghost predicate Owned(s: Sys) {
    UndoOwns(s.heap.shapes, AllOps(s.stack), TablesOf(s.heap))
  }

  /** Committing the innermost transaction drops no removal of an entry that an enclosing one
      inserted. */
  ghost predicate HarmlessExit(s: Sys)
    requires s.stack != []
  {
    Harmless(s.heap.shapes, s.stack[0].internLogs, AllOps(s.stack[1..]))
  }

  lemma {:induction false} LoggedBySome(stack: seq<Tx>, op: InternOp)
    requires op in AllOps(stack)
    ensures exists i :: 0 <= i < |stack| && op in stack[i].internLogs
  {
    if op in stack[0].internLogs {
    } else {
      LoggedBySome(stack[1..], op);
      var i :| 0 <= i < |stack[1..]| && op in stack[1..][i].internLogs;
      assert stack[i + 1] == stack[1..][i];
    }
  }

  lemma FrontKeepsOps(stack: seq<Tx>, tx: Tx)
    requires stack != [] && tx.internLogs == stack[0].internLogs
    ensures AllOps(WithFront(stack, tx)) == AllOps(stack)
  {
    assert WithFront(stack, tx)[1..] == stack[1..];
  }

  lemma WriteKeepsOwned(s: Sys, l: Loc, v: Val, guarded: bool)
    requires l in s.heap.mem && ValidSlot(s.heap.shapes, l, v) && ValidSlot(s.heap.shapes, l, s.heap.mem[l]) && Owned(s)
    ensures Owned(WriteStep(s, l, v, guarded))
  {
    hide UndoOwns, Blocked;
    if s.stack != [] {
      FrontKeepsOps(s.stack, s.stack[0].(aborted := true));
      FrontKeepsOps(s.stack, RecordWrite(s.stack[0], s.heap.shapes[ObjOf(l)], l, s.heap.mem[l]));
    }
  }

  lemma OwnedWithShapes(s: Sys, shapes: map<Ref, Shape>)
    requires AllValid(s.stack, s.heap) && Owned(s)
    requires forall i, op :: 0 <= i < |s.stack| && op in s.stack[i].internLogs ==> op.str in shapes && (op.str in s.heap.shapes ==> shapes[op.str] == s.heap.shapes[op.str])
    ensures UndoOwns(shapes, AllOps(s.stack), TablesOf(s.heap))
  {
    forall op | op in AllOps(s.stack) ensures TextOf(s.heap.shapes, op.str) == TextOf(shapes, op.str) {
      LoggedBySome(s.stack, op);
      var i :| 0 <= i < |s.stack| && op in s.stack[i].internLogs;
      assert ValidTx(s.stack[i], s.heap);
    }
    UndoOwnsAgree(s.heap.shapes, shapes, AllOps(s.stack), TablesOf(s.heap));
  }

  lemma AllocateKeepsOwned(s: Sys, r: Ref, sh: Shape, init: map<Loc, Val>, recorded: bool)
    requires AllValid(s.stack, s.heap) && r !in s.heap.shapes && Owned(s)
    ensures Owned(AllocateStep(s, r, sh, init, recorded))
  {
    hide UndoOwns;
    forall i, op | 0 <= i < |s.stack| && op in s.stack[i].internLogs ensures op.str in s.heap.shapes {
      LoggedIsLive(s.stack[i], s.heap, op);
    }
    OwnedWithShapes(s, s.heap.shapes[r := sh]);
    if s.stack != [] {
      FrontKeepsOps(s.stack, RecordAllocation(s.stack[0], sh, r));
    }
  }

  lemma NothingToOwn(s: Sys)
    requires s.stack == []
    ensures Owned(s) && RollsBack(s)
  {
  }

  lemma InternKeepsOwned(s: Sys, op: InternOp)
    requires InternAllowed(s.heap.shapes, TablesOf(s.heap), op) && Owned(s)
    ensures Owned(InternStep(s, op))
  {
    hide UndoOwns, ApplyIntern;
    if s.stack != [] {
      OwnsNewest(s.heap.shapes, AllOps(s.stack), TablesOf(s.heap), op);
      var s' := InternStep(s, op);
      assert s'.stack[1..] == s.stack[1..];
      assert AllOps(s'.stack) == [op] + AllOps(s.stack);
    } else {
      NothingToOwn(InternStep(s, op));
    }
  }

  lemma CollectKeepsOwned(s: Sys, dead: set<Ref>)
    requires AllValid(s.stack, s.heap) && Collectable(s, dead) && Owned(s)
    ensures Owned(CollectStep(s, dead))
  {
    hide UndoOwns, Swept;
    forall i, op | 0 <= i < |s.stack| && op in s.stack[i].internLogs ensures op.str in s.heap.shapes && op.str !in dead {
      LoggedIsLive(s.stack[i], s.heap, op);
      assert RootsAvoid(s.stack[i], dead);
    }
    OwnedWithShapes(s, s.heap.shapes - dead);
    forall op | op in AllOps(s.stack) ensures op.str !in dead {
      LoggedBySome(s.stack, op);
    }
    UndoOwnsSwept(s.heap.shapes - dead, AllOps(s.stack), TablesOf(s.heap), dead);
  }

  /** Every event but a harmful commit leaves a state from which rolling back completes. */
  lemma StepKeepsOwned(s: Sys, hist: seq<Snapshot>, e: Event)
    requires Inv(s, hist) && Owned(s) && Enabled(s, e) && (e.Exit? ==> HarmlessExit(s))
    ensures Owned(Step(s, e))
  {
    hide UndoOwns, UndoFinds, AllNewer, AllRestore, Harmless, Collectable, InternAllowed, UndoMem, UndoInterns;
    match e {
      case Enter(strict, root) =>
        assert ([NewTx(strict, root)] + s.stack)[1..] == s.stack;
        assert AllOps([NewTx(strict, root)] + s.stack) == [] + AllOps(s.stack) == AllOps(s.stack);
      case Exit =>
        HarmlessDrop(s.heap.shapes, s.stack[0].internLogs, AllOps(s.stack[1..]), TablesOf(s.heap));
      case RollbackExit =>
        CoverOfValid(s.heap);
        UndoOwnsConcat(s.heap.shapes, s.stack[0].internLogs, AllOps(s.stack[1..]), TablesOf(s.heap));
      case Write(l, v, guarded) => WriteKeepsOwned(s, l, v, guarded);
      case Allocate(r, sh, init, recorded) => AllocateKeepsOwned(s, r, sh, init, recorded);
      case Intern(op) => InternKeepsOwned(s, op);
      case Collect(dead) => CollectKeepsOwned(s, dead);
    }
  }

  /** Rolling back everything completes exactly when rolling back the innermost transaction does
      and then rolling back the rest does. */
  lemma RollsBackInSteps(s: Sys)
    requires ValidHeap(s.heap) && s.stack != []
    ensures RollsBack(s) <==> Enabled(s, RollbackExit) && RollsBack(Step(s, RollbackExit))
  {
    hide UndoFinds, UndoMem, UndoInterns, ValidHeap;
    CoverOfValid(s.heap);
    UndoFindsConcat(s.heap.shapes, s.stack[0].internLogs, AllOps(s.stack[1..]), TablesOf(s.heap));
  }

  /** After a commit, rolling back the rest completes exactly when every entry whose newest remaining
      operation is an insertion is in its table. */
  lemma ExitExactly(s: Sys)
    requires s.stack != [] && ValidHeap(s.heap) && RollsBack(s)
    ensures RollsBack(Step(s, Exit)) <==> NewestAreThere(s.heap.shapes, AllOps(s.stack[1..]), TablesOf(s.heap))
  {
    hide UndoFinds, NewestAreThere;
    DroppingExactly(s.heap.shapes, s.stack[0].internLogs, AllOps(s.stack[1..]), TablesOf(s.heap));
  }

  // ---- Whole runs ----

  /** Every event is enabled when its turn comes. */
  ghost predicate Runs(s: Sys, es: seq<Event>)
    decreases |es|
  {
    es == [] || (ValidHeap(s.heap) && Enabled(s, es[0]) && Runs(Step(s, es[0]), es[1..]))
  }

  ghost function Run(s: Sys, es: seq<Event>): Sys
    requires Runs(s, es)
    decreases |es|
  {
    if es == [] then s else Run(Step(s, es[0]), es[1..])
  }

  ghost function RunHistory(hist: seq<Snapshot>, s: Sys, es: seq<Event>): seq<Snapshot>
    requires Runs(s, es) && |hist| == |s.stack|
    decreases |es|
  {
    if es == [] then hist else RunHistory(StepHistory(hist, s, es[0]), Step(s, es[0]), es[1..])
  }

  lemma {:induction false} RunKeeps(s: Sys, hist: seq<Snapshot>, es: seq<Event>)
    requires Inv(s, hist) && Runs(s, es)
    ensures Inv(Run(s, es), RunHistory(hist, s, es))
    decreases |es|
  {
    if es != [] {
      StepKeeps(s, hist, es[0]);
      RunKeeps(Step(s, es[0]), StepHistory(hist, s, es[0]), es[1..]);
    }
  }

  /** Every commit of the run is harmless. */
  ghost predicate HarmlessRun(s: Sys, es: seq<Event>)
    requires Runs(s, es)
    decreases |es|
  {
    es == [] || ((es[0].Exit? ==> HarmlessExit(s)) && HarmlessRun(Step(s, es[0]), es[1..]))
  }

  lemma OwnedRollsBack(s: Sys)
    requires Owned(s)
    ensures RollsBack(s)
  {
    OwnsFinds(s.heap.shapes, AllOps(s.stack), TablesOf(s.heap));
  }

  lemma {:induction false} RunKeepsOwned(s: Sys, hist: seq<Snapshot>, es: seq<Event>)
    requires Inv(s, hist) && Owned(s) && Runs(s, es) && HarmlessRun(s, es)
    ensures Owned(Run(s, es)) && RollsBack(Run(s, es))
    decreases |es|
  {
    hide Step, StepHistory, AllValid, Restores, NewerThan, ValidHeap, Owned, RollsBack, HarmlessExit;
    if es == [] {
      OwnedRollsBack(s);
    } else {
      StepKeepsOwned(s, hist, es[0]);
      StepKeeps(s, hist, es[0]);
      RunKeepsOwned(Step(s, es[0]), StepHistory(hist, s, es[0]), es[1..]);
    }
  }

  /** At the end of every run whose commits are harmless, rolling back everything completes. */
  lemma HarmlessRunsRollBack(s: Sys, es: seq<Event>)
    requires ValidHeap(s.heap) && s.stack == [] && Runs(s, es) && HarmlessRun(s, es)
    ensures RollsBack(Run(s, es))
  {
    NothingToOwn(s);
    RunKeepsOwned(s, [], es);
  }

  /** After any run of nested transactions, rolling back everything puts each surviving slot
      known to the outermost transaction back to its value at that transaction's entry: every
      slot that undo may touch, whose entry value can be reproduced, and that no committed inner
      transaction has made its own. The intern tables are restored too when no committed inner
      transaction used them. */
  lemma RollbackAllRestoresOutermost(s: Sys, es: seq<Event>)
    requires ValidHeap(s.heap) && s.stack == [] && Runs(s, es) && Run(s, es).stack != []
    ensures var t, hist := Run(s, es), RunHistory([], s, es);
      && ValidHeap(t.heap) && |hist| == |t.stack| && ShapesCover(t.heap.mem, t.heap.shapes)
      && var outer, r := hist[|hist| - 1], RollbackAll(t.stack, t.heap);
      && (forall l <- outer.mem :: l in r.mem &&
            (l !in outer.dirty && Rollbackable(r.shapes[ObjOf(l)], l) && Recoverable(outer.mem[l]) ==> r.mem[l] == outer.mem[l]))
      && (outer.clean ==> r.strong == outer.strong && r.weak == outer.weak)
      && (HarmlessRun(s, es) ==> RollsBack(t))
  {
    hide Run, RunHistory, RollbackAll, HarmlessRun, RollsBack, UnwindVal, UnwindTables, ValidTx, NewerThan, Rollbackable;
    RunKeeps(s, [], es);
    if HarmlessRun(s, es) {
      HarmlessRunsRollBack(s, es);
    }
    var t, hist := Run(s, es), RunHistory([], s, es);
    CoverOfValid(t.heap);
    var outer := hist[|hist| - 1];
    assert Restores(t.stack, |t.stack|, t.heap, outer);
    RollbackAllTables(t.stack, t.heap);
    forall l | l in outer.mem
      ensures l in t.heap.mem && (l !in outer.dirty && Rollbackable(t.heap.shapes[ObjOf(l)], l) && Recoverable(outer.mem[l])
                ==> RollbackAll(t.stack, t.heap).mem[l] == outer.mem[l]) {
      assert Restored(t.stack, |t.stack|, t.heap, outer, l);
      RollbackAllIsUnwind(t.stack, t.heap, l);
    }
  }

  /** With `depth` transactions open, nothing is committed and the outermost one stays open. */
  predicate Uncommitted(es: seq<Event>, depth: nat) {
    es == [] ||
    match es[0]
    case Enter(_, _) => Uncommitted(es[1..], depth + 1)
    case Exit => false
    case RollbackExit => depth > 1 && Uncommitted(es[1..], depth - 1)
    case _ => Uncommitted(es[1..], depth)
  }

  function Opened(es: seq<Event>): int {
    if es == [] then 0 else (if es[0].Enter? then 1 else if es[0].RollbackExit? then -1 else 0) + Opened(es[1..])
  }

  /** Nothing is committed exactly when there is no exit and at every point fewer transactions have
      been rolled back than opened, the outermost one included. */
  lemma {:induction false} UncommittedExactly(es: seq<Event>, depth: nat)
    requires depth > 0
    ensures Uncommitted(es, depth) <==> (forall e <- es :: !e.Exit?) && forall n :: 0 <= n <= |es| ==> depth + Opened(es[..n]) > 0
  {
    if es != [] {
      var d := depth + (if es[0].Enter? then 1 else if es[0].RollbackExit? then -1 else 0);
      var rest := es[1..];
      forall n | 0 <= n <= |rest| ensures depth + Opened(es[..n + 1]) == d + Opened(rest[..n]) {
        assert es[..n + 1][1..] == rest[..n];
      }
      assert (forall e <- es :: !e.Exit?) <==> !es[0].Exit? && forall e <- rest :: !e.Exit? by {
        assert es == [es[0]] + rest;
      }
      assert Opened(es[..0]) == 0;
      if d > 0 {
        UncommittedExactly(rest, d);
        if forall n :: 0 <= n <= |es| ==> depth + Opened(es[..n]) > 0 {
          forall n | 0 <= n <= |rest| ensures d + Opened(rest[..n]) > 0 { assert depth + Opened(es[..n + 1]) > 0; }
        }
        if forall n :: 0 <= n <= |rest| ==> d + Opened(rest[..n]) > 0 {
          forall n | 0 <= n <= |es| ensures depth + Opened(es[..n]) > 0 {
            if n > 0 { assert d + Opened(rest[..n - 1]) > 0; assert depth + Opened(es[..n - 1 + 1]) == d + Opened(rest[..n - 1]); }
          }
        }
      } else {
        assert depth + Opened(es[..0 + 1]) == d + Opened(rest[..0]);
        assert Opened(rest[..0]) == 0;
      }
    } else {
      assert forall n :: 0 <= n <= |es| ==> es[..n] == [];
    }
  }

  predicate NeverFreed(es: seq<Event>, o: Ref) {
    forall e <- es :: e.Collect? ==> o !in e.dead
  }

  /** The entries of a table whose strings `es` does not free. */
  function Unfreed(t: InternTable, es: seq<Event>): InternTable {
    map x <- t | NeverFreed(es, t[x]) :: t[x]
  }

  /** `b` is `a` but for slots and weak entries of objects that `es` frees. */
  ghost predicate SameButFreed(a: Snapshot, b: Snapshot, es: seq<Event>) {
    && a.strong == b.strong && b.weak == Unfreed(a.weak, es) && a.dirty == b.dirty && a.clean == b.clean
    && forall l <- a.mem :: NeverFreed(es, ObjOf(l)) ==> l in b.mem && b.mem[l] == a.mem[l]
  }

  function DepthAfter(depth: nat, e: Event): int {
    if e.Enter? then depth + 1 else if e.Exit? || e.RollbackExit? then depth - 1 else depth
  }

  lemma UncommittedStep(hist: seq<Snapshot>, s: Sys, e: Event)
    requires ValidHeap(s.heap) && Enabled(s, e) && |hist| == |s.stack| && hist != [] && !e.Exit? && (e.RollbackExit? ==> |s.stack| > 1)
    ensures var hist' := StepHistory(hist, s, e);
      |hist'| == |Step(s, e).stack| == DepthAfter(|s.stack|, e) && hist' != [] && SameButFreed(hist[|hist| - 1], hist'[|hist'| - 1], [e])
  {
    hide ValidHeap, RecordWrite, Blocked, RecordAllocation, ApplyIntern, ValidSlot, Undo;
  }

  /** Without a commit the outermost snapshot is the heap at outermost entry. */
  lemma {:induction false} UncommittedHistory(hist: seq<Snapshot>, s: Sys, es: seq<Event>)
    requires Runs(s, es) && |hist| == |s.stack| && hist != [] && Uncommitted(es, |hist|)
    ensures var hist' := RunHistory(hist, s, es);
      hist' != [] && SameButFreed(hist[|hist| - 1], hist'[|hist'| - 1], es) && Run(s, es).stack != []
    decreases |es|
  {
    hide Step, StepHistory, ValidHeap, Enabled;
    if es != [] {
      UncommittedStep(hist, s, es[0]);
      UncommittedHistory(StepHistory(hist, s, es[0]), Step(s, es[0]), es[1..]);
    }
  }

  lemma {:induction false} UncommittedIsHarmless(s: Sys, es: seq<Event>, depth: nat)
    requires Runs(s, es) && Uncommitted(es, depth)
    ensures HarmlessRun(s, es)
    decreases |es|
  {
    hide Step, Enabled, ValidHeap;
    if es != [] {
      UncommittedIsHarmless(Step(s, es[0]), es[1..], if es[0].Enter? then depth + 1 else if es[0].RollbackExit? then depth - 1 else depth);
    }
  }

  lemma RunSplits(s: Sys, e: Event, es: seq<Event>)
    requires Runs(s, [e] + es)
    ensures ValidHeap(s.heap) && Enabled(s, e) && Runs(Step(s, e), es) && Run(s, [e] + es) == Run(Step(s, e), es)
    ensures s.stack == [] && e.Enter? ==> RunHistory([], s, [e] + es) == RunHistory(StepHistory([], s, e), Step(s, e), es)
  {
    hide Enabled, ValidHeap;
    assert ([e] + es)[1..] == es;
  }

  /** Objects keep their shape until they are collected. */
  lemma {:induction false} RunKeepsShapes(s: Sys, es: seq<Event>, x: Ref)
    requires Runs(s, es) && NeverFreed(es, x) && x in s.heap.shapes
    ensures x in Run(s, es).heap.shapes && Run(s, es).heap.shapes[x] == s.heap.shapes[x]
    decreases |es|
  {
    hide UndoMem, UndoInterns, RecordWrite, RecordAllocation, ApplyIntern, ValidHeap;
    if es != [] {
      assert es[0] in es;
      assert NeverFreed(es[1..], x);
      RunKeepsShapes(Step(s, es[0]), es[1..], x);
    }
  }

  /** What rolling back restores: both intern tables but for what was freed, every field of the
      objects that were not freed but for the class word at offset 0 and the length of an array at
      offset 8, and every element of the arrays that were not freed, a floating point one if it is a
      non-negative integer below 2^64. */
  ghost predicate LeftNoTrace(before: Heap, es: seq<Event>, after: Heap) {
    && after.strong == before.strong && after.weak == Unfreed(before.weak, es)
    && (forall o, off :: Field(o, off) in before.mem && NeverFreed(es, o) ==>
          && o in before.shapes && Field(o, off) in after.mem
          && (off != 0 && !(before.shapes[o].isArray && off == 8) ==> after.mem[Field(o, off)] == before.mem[Field(o, off)]))
    && (forall a, i :: Elem(a, i) in before.mem && NeverFreed(es, a) ==>
          && Elem(a, i) in after.mem
          && (var v := before.mem[Elem(a, i)];
              (v.Fp? ==> 0.0 <= v.x < 18446744073709551616.0 && v.x == v.x.Floor as real) ==> after.mem[Elem(a, i)] == v))
  }

  ghost predicate RestoredIn(before: Heap, after: Heap, l: Loc)
    requires l in before.mem
  {
    l in after.mem && ObjOf(l) in after.shapes && (Rollbackable(after.shapes[ObjOf(l)], l) && Recoverable(before.mem[l]) ==> after.mem[l] == before.mem[l])
  }

  /** Fields never hold floating point numbers, and an object that is not freed keeps its shape. */
  lemma RestoredLiterally(s: Sys, run: seq<Event>, r: Heap, l: Loc)
    requires ValidHeap(s.heap) && Runs(s, run) && l in s.heap.mem && NeverFreed(run, ObjOf(l)) && r.shapes == Run(s, run).heap.shapes
    requires RestoredIn(s.heap, r, l)
    ensures ObjOf(l) in s.heap.shapes
    ensures l.Field? && l.off != 0 && !(s.heap.shapes[l.obj].isArray && l.off == 8) ==> r.mem[l] == s.heap.mem[l]
    ensures l.Elem? && (s.heap.mem[l].Fp? ==> 0.0 <= s.heap.mem[l].x < 18446744073709551616.0 && s.heap.mem[l].x == s.heap.mem[l].x.Floor as real) ==>
      r.mem[l] == s.heap.mem[l]
  {
    hide Run, Runs;
    assert ValidSlot(s.heap.shapes, l, s.heap.mem[l]);
    RunKeepsShapes(s, run, ObjOf(l));
  }

  lemma NoTraceLeft(s: Sys, es: seq<Event>, run: seq<Event>, r: Heap)
    requires ValidHeap(s.heap) && Runs(s, run) && r.shapes == Run(s, run).heap.shapes && forall e <- run :: e.Collect? ==> e in es
    requires r.strong == s.heap.strong && r.weak == Unfreed(s.heap.weak, es)
    requires forall l <- s.heap.mem | NeverFreed(es, ObjOf(l)) :: RestoredIn(s.heap, r, l)
    ensures LeftNoTrace(s.heap, es, r)
  {
    hide ValidHeap, Run, Runs, Rollbackable, Recoverable, Unfreed;
    forall l | l in s.heap.mem && NeverFreed(es, ObjOf(l))
      ensures l.Field? ==> l.obj in s.heap.shapes && l in r.mem
      ensures l.Field? && l.off != 0 && !(s.heap.shapes[l.obj].isArray && l.off == 8) ==> r.mem[l] == s.heap.mem[l]
      ensures l.Elem? ==> l in r.mem && (var v := s.heap.mem[l];
        (v.Fp? ==> 0.0 <= v.x < 18446744073709551616.0 && v.x == v.x.Floor as real) ==> r.mem[l] == v)
    {
      RestoredLiterally(s, run, r, l);
    }
  }

  /** A transaction that is aborted takes the heap back to where it was: for any stores,
      allocations, intern operations, collections and nested transactions that are rolled back or
      still open, rolling back everything restores every slot of every object that existed at
      outermost entry and was not freed, except class words, array lengths and unreproducible
      floating point elements. The strong intern table is restored; the weak one is restored but
      for the strings that were freed. The rollback completes. */
  lemma AbortedRunLeavesNoTrace(s: Sys, strict: bool, root: Ref, es: seq<Event>)
    requires ValidHeap(s.heap) && s.stack == [] && Uncommitted(es, 1)
    requires Runs(s, [Enter(strict, root)] + es)
    ensures var t := Run(s, [Enter(strict, root)] + es);
      && ValidHeap(t.heap) && ShapesCover(t.heap.mem, t.heap.shapes) && RollsBack(t)
      && var r := RollbackAll(t.stack, t.heap);
      && LeftNoTrace(s.heap, es, r)
      && r.strong == s.heap.strong
      && r.weak == Unfreed(s.heap.weak, es)
      && (forall o, off :: Field(o, off) in s.heap.mem && NeverFreed(es, o) ==>
            && o in s.heap.shapes && Field(o, off) in r.mem
            && (off != 0 && !(s.heap.shapes[o].isArray && off == 8) ==> r.mem[Field(o, off)] == s.heap.mem[Field(o, off)]))
      && (forall a, i :: Elem(a, i) in s.heap.mem && NeverFreed(es, a) ==>
            && Elem(a, i) in r.mem
            && (var v := s.heap.mem[Elem(a, i)];
                (v.Fp? ==> 0.0 <= v.x < 18446744073709551616.0 && v.x == v.x.Floor as real) ==> r.mem[Elem(a, i)] == v))
      && ((forall e <- es :: !e.Collect?) ==> r.weak == s.heap.weak && forall o :: NeverFreed(es, o))
  {
    hide Run, RunHistory, RollbackAll, ValidHeap, Rollbackable, Recoverable, RollsBack, HarmlessRun;
    var e := Enter(strict, root);
    var run := [e] + es;
    assert run[1..] == es;
    UncommittedIsHarmless(s, run, 0);
    HarmlessRunsRollBack(s, run);
    var hist := StepHistory([], s, e);
    RunSplits(s, e, es);
    UncommittedHistory(hist, Step(s, e), es);
    RollbackAllRestoresOutermost(s, run);
    var t := Run(s, run);
    assert forall e <- run :: e.Collect? ==> e in es;
    NoTraceLeft(s, es, run, RollbackAll(t.stack, t.heap));
  }

  /** The weak table is the one at entry exactly when no string that was in it is freed. */
  lemma WeakTableRestoredExactly(s: Sys, strict: bool, root: Ref, es: seq<Event>)
    requires ValidHeap(s.heap) && s.stack == [] && Uncommitted(es, 1)
    requires Runs(s, [Enter(strict, root)] + es)
    ensures var t := Run(s, [Enter(strict, root)] + es);
      && ShapesCover(t.heap.mem, t.heap.shapes)
      && (RollbackAll(t.stack, t.heap).weak == s.heap.weak <==> forall x <- s.heap.weak :: NeverFreed(es, s.heap.weak[x]))
  {
    hide Run, Runs, RollbackAll, ValidHeap, NeverFreed, Rollbackable;
    AbortedRunLeavesNoTrace(s, strict, root, es);
    var u := Unfreed(s.heap.weak, es);
    assert forall x <- s.heap.weak :: x in u <==> NeverFreed(es, s.heap.weak[x]);
  }

  /** A heap with one string that only the weak intern table refers to. */
  function WeakOnly(): Sys {
    Sys(Heap(map[], map[1 := Shape(false, 0, false, None, map[], false, false, "a")], map[], map["a" := 1]), [], false)
  }

  lemma WeakOnlyRuns()
    ensures ValidHeap(WeakOnly().heap) && Runs(WeakOnly(), [Enter(false, NULL), Collect({1})])
  {
    var s, run := WeakOnly(), [Enter(false, NULL), Collect({1})];
    var s1 := Step(s, run[0]);
    assert s1 == Sys(s.heap, [NewTx(false, NULL)], false);
    assert Enabled(s1, run[1]) by {
      assert RootsAvoid(NewTx(false, NULL), {1});
    }
    assert run[1..] == [Collect({1})] && run[1..][1..] == [];
    assert Runs(Step(s1, run[1]), []);
    assert Runs(s1, run[1..]);
  }

  /** A collection inside a transaction frees that string, and rolling back does not bring the
      entry back. */
  lemma WeakEntryLost()
    ensures var s, es := WeakOnly(), [Enter(false, NULL), Collect({1})];
      && ValidHeap(s.heap) && Runs(s, es) && ShapesCover(Run(s, es).heap.mem, Run(s, es).heap.shapes)
      && s.heap.weak == map["a" := 1] && RollbackAll(Run(s, es).stack, Run(s, es).heap).weak == map[]
  {
    hide Run, Runs, Enabled, Step, ValidHeap, RollbackAll, Rollbackable, ShapesCover;
    var s, es := WeakOnly(), [Collect({1})];
    WeakOnlyRuns();
    assert [Enter(false, NULL)] + es == [Enter(false, NULL), Collect({1})];
    AbortedRunLeavesNoTrace(s, false, NULL, es);
    assert !NeverFreed(es, 1) by { assert es[0] in es; }
    assert Unfreed(s.heap.weak, es) == map[];
  }
}
