/** Runs of the transactions that initialize classes of a boot image extension: no store makes the
    heap refer to an object whose class the extension may not refer to. */
module ExtensionRuns {
  import opened HeapModel
  import opened TransactionModel
  import opened TransactionRuns
  import Classes = ClassReferences

  /** The heap's view of classes agrees with `w`. */
  ghost predicate Agrees(w: Classes.World, sh: Shape)
    requires Classes.WellFormed(w)
  {
    sh.klass in w.classes && (sh.referenceable <==> Classes.Accepted(w, sh.klass))
  }

  ghost predicate Describes(w: Classes.World, shapes: map<Ref, Shape>)
    requires Classes.WellFormed(w)
  {
    forall r <- shapes :: Agrees(w, shapes[r])
  }

  /** A guarded store of a reference in a non-strict transaction of a boot image extension changes
      the heap only if everything the stored object's class refers to is harmless; otherwise it
      leaves the heap alone and aborts the transaction. */
  lemma GuardedStoresAreClosed(w: Classes.World, s: Sys, l: Loc, r: Ref, d: Classes.ClassId)
    requires Classes.WellFormed(w) && Describes(w, s.heap.shapes) && d in w.classes
    requires s.stack != [] && !s.stack[0].strict && s.bootImageSpaces
    requires l in s.heap.mem && ValidSlot(s.heap.shapes, l, s.heap.mem[l]) && ValidSlot(s.heap.shapes, l, Pointer(r))
    requires r in s.heap.shapes && Classes.Refers(w, s.heap.shapes[r].klass, d)
    ensures var t, c := WriteStep(s, l, Pointer(r), true), s.heap.shapes[r].klass;
      (t.heap.mem == s.heap.mem[l := Pointer(r)] && Classes.Accepted(w, c) && Classes.Accepted(w, d) && Classes.Harmless(w, d)) ||
      (t.heap == s.heap && t.stack != [] && t.stack[0].aborted)
  {
    hide Classes.Accepted, Classes.Refers, Classes.Harmless, Classes.WellFormed, RecordWrite;
    if Classes.Accepted(w, s.heap.shapes[r].klass) {
      Classes.AcceptedIsHarmless(w, s.heap.shapes[r].klass, d);
    }
  }

  // ---- Runs ----

  predicate Good(shapes: map<Ref, Shape>, v: Val) {
    v.Pointer? && v.r in shapes ==> shapes[v.r].referenceable
  }

  /** The value may be in the slot: it is good, or was there at the start without being good. */
  predicate Ok(start: Heap, shapes: map<Ref, Shape>, l: Loc, v: Val) {
    Good(shapes, v) || (l in start.mem && v == start.mem[l] && !Good(start.shapes, v))
  }

  ghost predicate LogOk(start: Heap, shapes: map<Ref, Shape>, tx: Tx) {
    forall o <- tx.objectLogs, off <- tx.objectLogs[o].values ::
      Ok(start, shapes, Field(o, off), DecodeField(tx.objectLogs[o].values[off].kind, tx.objectLogs[o].values[off].value))
  }

  ghost predicate MemOk(start: Heap, shapes: map<Ref, Shape>, mem: map<Loc, Val>) {
    forall l <- mem :: Ok(start, shapes, l, mem[l])
  }

  ghost predicate Closed(start: Heap, s: Sys) {
    && s.bootImageSpaces && MemOk(start, s.heap.shapes, s.heap.mem)
    && forall i :: 0 <= i < |s.stack| ==> !s.stack[i].strict && LogOk(start, s.heap.shapes, s.stack[i])
  }

  /** What the interpreter does for a boot image extension: transactions are not strict, stores are
      in a transaction and guarded, and a new object refers to nothing but what may be referred to. */
  ghost predicate ExtensionEvent(w: Classes.World, s: Sys, e: Event)
    requires Classes.WellFormed(w)
  {
    match e
    case Enter(strict, _) => !strict
    case Write(_, _, guarded) => guarded && s.stack != []
    case Allocate(r, sh, init, _) => Agrees(w, sh) && forall l <- init :: Good(s.heap.shapes[r := sh], init[l])
    case _ => true
  }

  ghost predicate ExtensionRun(w: Classes.World, s: Sys, es: seq<Event>)
    requires Classes.WellFormed(w) && Runs(s, es)
    decreases |es|
  {
    es == [] || (ExtensionEvent(w, s, es[0]) && ExtensionRun(w, Step(s, es[0]), es[1..]))
  }

  // ---- Every step keeps the heap closed ----

  lemma RecordKeepsLog(start: Heap, h: Heap, tx: Tx, l: Loc)
    requires l in h.mem && ValidSlot(h.shapes, l, h.mem[l]) && Ok(start, h.shapes, l, h.mem[l]) && LogOk(start, h.shapes, tx)
    ensures LogOk(start, h.shapes, RecordWrite(tx, h.shapes[ObjOf(l)], l, h.mem[l]))
    ensures RecordWrite(tx, h.shapes[ObjOf(l)], l, h.mem[l]).strict == tx.strict
  {
    hide Ok;
    if l.Field? {
      SlotRoundTrip(SlotTypeOf(h.shapes[l.obj], l), h.mem[l]);
    }
  }

  lemma SlotIsLive(h: Heap, l: Loc)
    requires l in h.mem && ValidSlot(h.shapes, l, h.mem[l])
    ensures ObjOf(l) in h.shapes
  {
  }

  lemma GoodIsOk(start: Heap, shapes: map<Ref, Shape>, l: Loc, v: Val)
    requires Good(shapes, v)
    ensures Ok(start, shapes, l, v)
  {
  }

  lemma AbortKeepsLog(start: Heap, shapes: map<Ref, Shape>, tx: Tx)
    requires LogOk(start, shapes, tx)
    ensures LogOk(start, shapes, tx.(aborted := true))
  {
    hide Ok;
  }

  lemma WriteKeepsClosed(start: Heap, s: Sys, l: Loc, v: Val)
    requires Closed(start, s) && ValidHeap(s.heap) && Enabled(s, Write(l, v, true)) && s.stack != []
    ensures Closed(start, WriteStep(s, l, v, true))
  {
    hide RecordWrite, LogOk, Ok, ValidSlot;
    assert ValidSlot(s.heap.shapes, l, s.heap.mem[l]);
    assert !s.stack[0].strict && LogOk(start, s.heap.shapes, s.stack[0]);
    RecordKeepsLog(start, s.heap, s.stack[0], l);
    SlotIsLive(s.heap, l);
    if Blocked(s, l, v) {
      AbortKeepsLog(start, s.heap.shapes, s.stack[0]);
    } else {
      assert Good(s.heap.shapes, v);
      assert Ok(start, s.heap.shapes, l, v) by { GoodIsOk(start, s.heap.shapes, l, v); }
    }
  }

  /** A value that is live or null stays what it is when an object is added. */
  lemma AllocationKeepsOk(start: Heap, h: Heap, r: Ref, sh: Shape, l: Loc, v: Val)
    requires r != NULL && r !in h.shapes && (v.Pointer? ==> LiveOrNull(h.shapes, v.r)) && Ok(start, h.shapes, l, v)
    ensures Ok(start, h.shapes[r := sh], l, v)
  {
  }

  lemma AllocationKeepsLog(start: Heap, h: Heap, r: Ref, sh: Shape, tx: Tx)
    requires r != NULL && r !in h.shapes && ValidTx(tx, h) && LogOk(start, h.shapes, tx)
    ensures LogOk(start, h.shapes[r := sh], tx)
  {
    hide Ok;
    forall o <- tx.objectLogs, off <- tx.objectLogs[o].values
      ensures Ok(start, h.shapes[r := sh], Field(o, off), DecodeField(tx.objectLogs[o].values[off].kind, tx.objectLogs[o].values[off].value)) {
      assert ValidObjectLog(h, o, tx.objectLogs[o]);
      AllocationKeepsOk(start, h, r, sh, Field(o, off), DecodeField(tx.objectLogs[o].values[off].kind, tx.objectLogs[o].values[off].value));
    }
  }

  lemma RecordNewKeepsLog(start: Heap, shapes: map<Ref, Shape>, tx: Tx, sh: Shape, r: Ref)
    requires LogOk(start, shapes, tx)
    ensures LogOk(start, shapes, RecordAllocation(tx, sh, r)) && RecordAllocation(tx, sh, r).strict == tx.strict
  {
    hide Ok;
  }

  lemma AllocateKeepsMem(start: Heap, h: Heap, r: Ref, sh: Shape, init: map<Loc, Val>)
    requires ValidHeap(h) && MemOk(start, h.shapes, h.mem) && r != NULL && r !in h.shapes
    requires forall l <- init :: Good(h.shapes[r := sh], init[l])
    ensures MemOk(start, h.shapes[r := sh], h.mem + init)
  {
    hide Ok;
    forall l | l in h.mem + init ensures Ok(start, h.shapes[r := sh], l, (h.mem + init)[l]) {
      if l in init {
        GoodIsOk(start, h.shapes[r := sh], l, init[l]);
      } else {
        assert ValidSlot(h.shapes, l, h.mem[l]);
        AllocationKeepsOk(start, h, r, sh, l, h.mem[l]);
      }
    }
  }

  lemma AllocateKeepsClosed(start: Heap, s: Sys, e: Event)
    requires e.Allocate? && Closed(start, s) && ValidHeap(s.heap) && AllValid(s.stack, s.heap) && Enabled(s, e)
    requires forall l <- e.init :: Good(s.heap.shapes[e.r := e.shape], e.init[l])
    ensures Closed(start, Step(s, e))
  {
    hide MemOk, LogOk, ValidHeap, ValidTx, RecordAllocation;
    AllocateKeepsMem(start, s.heap, e.r, e.shape, e.init);
    forall i | 0 <= i < |s.stack| ensures LogOk(start, s.heap.shapes[e.r := e.shape], s.stack[i]) {
      AllocationKeepsLog(start, s.heap, e.r, e.shape, s.stack[i]);
    }
    if s.stack != [] {
      RecordNewKeepsLog(start, s.heap.shapes[e.r := e.shape], s.stack[0], e.shape, e.r);
    }
  }

  lemma UndoKeepsMem(start: Heap, h: Heap, tx: Tx)
    requires ShapesCover(h.mem, h.shapes) && MemOk(start, h.shapes, h.mem) && LogOk(start, h.shapes, tx)
    ensures MemOk(start, h.shapes, Undo(tx, h).mem)
  {
    hide Ok;
    forall l | l in h.mem ensures Ok(start, h.shapes, l, UndoVal(tx, h.shapes[ObjOf(l)], l, h.mem[l])) {
      if Undoes(tx, h.shapes[ObjOf(l)], l) && l.Elem? {
        GoodIsOk(start, h.shapes, l, LoggedVal(tx, h.shapes[ObjOf(l)], l));
      }
    }
  }

  lemma FewerKeepOk(start: Heap, s: Sys, dead: set<Ref>)
    requires Closed(start, s)
    ensures Closed(start, CollectStep(s, dead))
  {
    var t := CollectStep(s, dead);
    assert forall l, v :: Ok(start, s.heap.shapes, l, v) ==> Ok(start, t.heap.shapes, l, v);
    forall i | 0 <= i < |s.stack| ensures LogOk(start, t.heap.shapes, s.stack[i]) {
      hide Ok;
      assert LogOk(start, s.heap.shapes, s.stack[i]);
    }
  }

  lemma InternKeepsLog(start: Heap, shapes: map<Ref, Shape>, tx: Tx, op: InternOp)
    requires LogOk(start, shapes, tx)
    ensures LogOk(start, shapes, LogInterned(tx, op))
  {
    hide Ok;
  }

  lemma NewLogOk(start: Heap, shapes: map<Ref, Shape>, root: Ref)
    ensures LogOk(start, shapes, NewTx(false, root))
  {
  }

  lemma StepKeepsClosed(w: Classes.World, start: Heap, s: Sys, e: Event)
    requires Classes.WellFormed(w) && Describes(w, s.heap.shapes) && Closed(start, s)
    requires ValidHeap(s.heap) && AllValid(s.stack, s.heap) && Enabled(s, e) && ExtensionEvent(w, s, e)
    ensures Closed(start, Step(s, e)) && Describes(w, Step(s, e).heap.shapes)
  {
    hide Ok, LogOk, MemOk, ValidHeap, ValidTx, Classes.WellFormed, Agrees, RecordWrite;
    match e {
      case Enter(_, root) => NewLogOk(start, s.heap.shapes, root);
      case Exit =>
      case RollbackExit =>
        CoverOfValid(s.heap);
        UndoKeepsMem(start, s.heap, s.stack[0]);
      case Write(l, v, _) => WriteKeepsClosed(start, s, l, v);
      case Allocate(_, _, _, _) => AllocateKeepsClosed(start, s, e);
      case Intern(op) =>
        if s.stack != [] {
          InternKeepsLog(start, s.heap.shapes, s.stack[0], op);
        }
      case Collect(dead) => FewerKeepOk(start, s, dead);
    }
  }

  lemma {:induction false} RunKeepsClosed(w: Classes.World, start: Heap, s: Sys, hist: seq<Snapshot>, es: seq<Event>)
    requires Classes.WellFormed(w) && Describes(w, s.heap.shapes) && Closed(start, s)
    requires Inv(s, hist) && Runs(s, es) && ExtensionRun(w, s, es)
    ensures var t := Run(s, es); Closed(start, t) && Describes(w, t.heap.shapes) && ValidHeap(t.heap)
    decreases |es|
  {
    hide Closed, Describes, ExtensionEvent, Classes.WellFormed, Step, StepHistory, AllRestore, NewerThan, AllValid, ValidHeap;
    if es != [] {
      StepKeepsClosed(w, start, s, es[0]);
      StepKeeps(s, hist, es[0]);
      RunKeepsClosed(w, start, Step(s, es[0]), StepHistory(hist, s, es[0]), es[1..]);
    }
  }

  lemma {:induction false} RollbackAllKeepsMem(start: Heap, stack: seq<Tx>, h: Heap)
    requires ShapesCover(h.mem, h.shapes) && MemOk(start, h.shapes, h.mem)
    requires forall i :: 0 <= i < |stack| ==> LogOk(start, h.shapes, stack[i])
    ensures MemOk(start, h.shapes, RollbackAll(stack, h).mem)
  {
    hide MemOk, LogOk;
    if stack != [] {
      UndoKeepsMem(start, h, stack[0]);
      RollbackAllKeepsMem(start, stack[1..], Undo(stack[0], h));
    }
  }

  // ---- What the slots hold ----

  /** The value is no reference to an object, or everything the object's class refers to is harmless. */
  ghost predicate HarmlessValue(w: Classes.World, shapes: map<Ref, Shape>, v: Val) {
    v.Pointer? && v.r in shapes ==> shapes[v.r].klass in w.classes && Classes.AllHarmless(w, shapes[v.r].klass)
  }

  /** The slot held this reference at the start, to an object that the rule did not accept. */
  predicate WasThere(start: Heap, l: Loc, v: Val) {
    l in start.mem && v == start.mem[l] && !Good(start.shapes, v)
  }

  lemma OkIsHarmless(w: Classes.World, start: Heap, shapes: map<Ref, Shape>, l: Loc, v: Val)
    requires Classes.WellFormed(w) && Describes(w, shapes) && Ok(start, shapes, l, v)
    ensures HarmlessValue(w, shapes, v) || WasThere(start, l, v)
  {
    hide Classes.WellFormed, Classes.Accepted, Classes.Refers, Classes.Harmless;
    if Good(shapes, v) && v.Pointer? && v.r in shapes {
      var c := shapes[v.r].klass;
      assert Agrees(w, shapes[v.r]);
      forall d | d in w.classes && Classes.Refers(w, c, d) ensures Classes.Harmless(w, d) {
        Classes.AcceptedIsHarmless(w, c, d);
      }
    }
  }

  lemma StartIsClosed(s: Sys)
    requires s.stack == [] && s.bootImageSpaces
    ensures Closed(s.heap, s)
  {
  }

  /** At the end of every run of a boot image extension, and after rolling back from there, each
      slot holds a harmless value, unless it already held that very reference, to an object that the
      rule does not accept, at the start. From a start without such references there are none ever. */
  lemma ExtensionStaysClosed(w: Classes.World, s: Sys, es: seq<Event>)
    requires Classes.WellFormed(w) && Describes(w, s.heap.shapes) && ValidHeap(s.heap) && s.stack == [] && s.bootImageSpaces
    requires Runs(s, es) && ExtensionRun(w, s, es)
    ensures var t := Run(s, es);
      && ValidHeap(t.heap) && ShapesCover(t.heap.mem, t.heap.shapes)
      && forall l <- t.heap.mem ::
           && (HarmlessValue(w, t.heap.shapes, t.heap.mem[l]) || WasThere(s.heap, l, t.heap.mem[l]))
           && (HarmlessValue(w, t.heap.shapes, RollbackAll(t.stack, t.heap).mem[l]) || WasThere(s.heap, l, RollbackAll(t.stack, t.heap).mem[l]))
  {
    hide Classes.WellFormed, Describes, ValidHeap, ExtensionRun, Run, RollbackAll, HarmlessValue, WasThere, Ok, LogOk, ShapesCover;
    StartIsClosed(s);
    RunKeepsClosed(w, s.heap, s, [], es);
    var t := Run(s, es);
    CoverOfValid(t.heap);
    RollbackAllKeepsMem(s.heap, t.stack, t.heap);
    forall l | l in t.heap.mem
      ensures HarmlessValue(w, t.heap.shapes, t.heap.mem[l]) || WasThere(s.heap, l, t.heap.mem[l])
      ensures HarmlessValue(w, t.heap.shapes, RollbackAll(t.stack, t.heap).mem[l]) || WasThere(s.heap, l, RollbackAll(t.stack, t.heap).mem[l]) {
      OkIsHarmless(w, s.heap, t.heap.shapes, l, t.heap.mem[l]);
      OkIsHarmless(w, s.heap, t.heap.shapes, l, RollbackAll(t.stack, t.heap).mem[l]);
    }
  }
}
