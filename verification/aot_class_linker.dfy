/** The class linker's stack of open transactions. Every operation that changes it is proved to
    be the step of the run model with the same name, so the results about runs are results about
    these methods. */
module AotLinker {
  import opened HeapModel
  import opened TransactionModel
  import opened TransactionRuns
  import opened Interning
  import opened RootVisit
  import opened TransactionImpl
  import opened MovingGc
  import opened VisitRefines

  ghost function Views(ts: seq<Transaction>): (vs: seq<Tx>)
    reads ts
    ensures |vs| == |ts| && forall i :: 0 <= i < |ts| ==> vs[i] == ts[i].View()
  {
    if ts == [] then [] else [ts[0].View()] + Views(ts[1..])
  }

  ghost predicate AllRekey(moves: map<Ref, Ref>, txs: seq<Tx>) {
    forall i :: 0 <= i < |txs| ==> CanRekey(moves, txs[i])
  }

  ghost predicate Distinct(ts: seq<Transaction>) {
    forall i, j :: 0 <= i < j < |ts| ==> ts[i] != ts[j]
  }

  lemma ExitStep(s: Sys)
    requires ValidHeap(s.heap) && s.stack != []
    ensures Step(s, Exit) == Sys(s.heap, s.stack[1..], s.bootImageSpaces)
  {
  }

  lemma RollbackExitStep(s: Sys)
    requires ValidHeap(s.heap) && Enabled(s, RollbackExit)
    ensures ShapesCover(s.heap.mem, s.heap.shapes)
    ensures Step(s, RollbackExit) == Sys(Undo(s.stack[0], s.heap), s.stack[1..], s.bootImageSpaces)
  {
    CoverOfValid(s.heap);
  }

  lemma UnrecordedStep(s: Sys, l: Loc, v: Val, guarded: bool)
    requires ValidHeap(s.heap) && Enabled(s, Write(l, v, guarded)) && s.stack == []
    ensures Step(s, Write(l, v, guarded)) == s.(heap := s.heap.(mem := s.heap.mem[l := v]))
  {
  }

  lemma BlockedStep(s: Sys, l: Loc, v: Val)
    requires ValidHeap(s.heap) && Enabled(s, Write(l, v, true)) && s.stack != [] && Blocked(s, l, v)
    ensures Step(s, Write(l, v, true)) == s.(stack := [s.stack[0].(aborted := true)] + s.stack[1..])
  {
  }

  lemma RecordedStep(s: Sys, l: Loc, v: Val, guarded: bool)
    requires ValidHeap(s.heap) && Enabled(s, Write(l, v, guarded)) && s.stack != []
    requires l in s.heap.mem && ValidSlot(s.heap.shapes, l, s.heap.mem[l])
    requires guarded ==> !Blocked(s, l, v)
    ensures Step(s, Write(l, v, guarded)) ==
      s.(heap := s.heap.(mem := s.heap.mem[l := v]),
         stack := [RecordWrite(s.stack[0], s.heap.shapes[ObjOf(l)], l, s.heap.mem[l])] + s.stack[1..])
  {
    hide RecordWrite, Blocked;
  }

  lemma AllocatedStep(s: Sys, r: Ref, sh: Shape, init: map<Loc, Val>, recorded: bool)
    requires ValidHeap(s.heap) && Enabled(s, Event.Allocate(r, sh, init, recorded))
    ensures Step(s, Event.Allocate(r, sh, init, recorded)) ==
      s.(heap := s.heap.(mem := s.heap.mem + init, shapes := s.heap.shapes[r := sh]),
         stack := if s.stack == [] || !recorded then s.stack else [RecordAllocation(s.stack[0], sh, r)] + s.stack[1..])
  {
    hide RecordAllocation;
  }

  lemma InternedStep(s: Sys, op: InternOp)
    requires ValidHeap(s.heap) && Enabled(s, Intern(op))
    ensures var ts := ApplyIntern(s.heap.shapes, (s.heap.strong, s.heap.weak), op);
      Step(s, Intern(op)) ==
      s.(heap := s.heap.(strong := ts.0, weak := ts.1),
         stack := if s.stack == [] then [] else [LogInterned(s.stack[0], op)] + s.stack[1..])
  {
    hide ApplyIntern;
  }

  lemma CollectedStep(s: Sys, dead: set<Ref>)
    requires ValidHeap(s.heap) && Enabled(s, Collect(dead))
    ensures Step(s, Collect(dead)) == CollectStep(s, dead)
  {
  }

  lemma EnabledWrite(s: Sys, l: Loc, v: Val, guarded: bool)
    requires ValidHeap(s.heap) && Enabled(s, Write(l, v, guarded))
    ensures l in s.heap.mem && ValidSlot(s.heap.shapes, l, v) && ValidSlot(s.heap.shapes, l, s.heap.mem[l])
  {
  }

  lemma FrontReplaced(ts: seq<Transaction>, rest: seq<Tx>)
    requires ts != [] && rest == Views(ts[1..])
    ensures Views(ts) == [ts[0].View()] + rest
  {
  }

  lemma FrontIsApart(ts: seq<Transaction>)
    requires ts != [] && Distinct(ts)
    ensures ts[0] !in ts[1..] && Distinct(ts[1..])
  {
  }

  lemma UndoKeepsAllValid(stack: seq<Tx>, h: Heap)
    requires stack != [] && ValidHeap(h) && AllValid(stack, h)
    ensures ShapesCover(h.mem, h.shapes) && ValidHeap(Undo(stack[0], h)) && AllValid(stack[1..], Undo(stack[0], h))
  {
    CoverOfValid(h);
    UndoKeepsHeapValid(stack[0], h);
    forall i | 0 <= i < |stack[1..]| ensures ValidTx(stack[1..][i], Undo(stack[0], h)) {
      SameSlotsKeepTx(stack[i + 1], h, Undo(stack[0], h));
    }
  }

  lemma NothingIsLeft(s: Sys, es: seq<Event>)
    requires ValidHeap(s.heap) && s.stack == [] && Runs(s, es) && es != [] && es[0].Enter? && Uncommitted(es[1..], 1)
    ensures var t := Run(s, es); RollsBack(t) && ShapesCover(t.heap.mem, t.heap.shapes) && LeftNoTrace(s.heap, es[1..], RollbackAll(t.stack, t.heap))
  {
    hide Run, Runs, RollsBack, RollbackAll, ValidHeap, LeftNoTrace;
    assert [es[0]] + es[1..] == es;
    AbortedRunLeavesNoTrace(s, es[0].strict, es[0].root, es[1..]);
  }

  lemma NoTraceMeans(before: Heap, es: seq<Event>, after: Heap)
    requires LeftNoTrace(before, es, after)
    ensures forall o, off ::
      Field(o, off) in before.mem && NeverFreed(es, o) && o in before.shapes && off != 0 && !(before.shapes[o].isArray && off == 8) ==>
        Field(o, off) in after.mem && after.mem[Field(o, off)] == before.mem[Field(o, off)]
    ensures forall a, i :: Elem(a, i) in before.mem && NeverFreed(es, a) && !before.mem[Elem(a, i)].Fp? ==>
      Elem(a, i) in after.mem && after.mem[Elem(a, i)] == before.mem[Elem(a, i)]
  {
    hide NeverFreed, Unfreed;
  }

  lemma NothingOpen(s: Sys)
    requires ValidHeap(s.heap) && s.stack == []
    ensures Inv(s, [])
  {
  }

  lemma OpenForExit(s: Sys, e: Event)
    requires Enabled(s, e)
    ensures e.Exit? || e.RollbackExit? ==> s.stack != []
  {
  }

  class AotClassLinker {
    const heap: ManagedHeap
    const bootImageSpaces: bool
    var transactions: seq<Transaction>
    /** The runtime's flag. */
    var activeTransaction: bool

    ghost predicate Valid()
      reads this
    {
      Distinct(transactions) && (activeTransaction <==> transactions != [])
    }

    ghost function State(): Sys
      reads this, heap, transactions
    {
      Sys(heap.h, Views(transactions), bootImageSpaces)
    }

    constructor (heap: ManagedHeap, bootImageSpaces: bool)
      ensures Valid() && this.heap == heap && State() == Sys(heap.h, [], bootImageSpaces)
    {
      this.heap, this.bootImageSpaces := heap, bootImageSpaces;
      transactions, activeTransaction := [], false;
    }

    method EnterTransactionMode(strict: bool, root: Ref)
      requires Valid() && ValidHeap(heap.h) && Enabled(State(), Enter(strict, root))
      modifies this
      ensures Valid() && |transactions| == |old(transactions)| + 1
      ensures fresh(transactions[0]) && transactions[1..] == old(transactions)
      ensures State() == Step(old(State()), Enter(strict, root))
    {
      hide ValidHeap, Enabled, Views;
      var tx := new Transaction(strict, root);
      transactions := [tx] + transactions;
      activeTransaction := true;
      FrontReplaced(transactions, Views(old(transactions)));
    }

    /** Keeps the changes and drops the log. */
    method ExitTransactionMode()
      requires Valid() && ValidHeap(heap.h) && activeTransaction
      modifies this
      ensures Valid() && transactions == old(transactions)[1..]
      ensures State() == Step(old(State()), Exit)
    {
      hide ValidHeap, Views;
      ghost var s := State();
      FrontReplaced(transactions, Views(transactions[1..]));
      ExitStep(s);
      transactions := transactions[1..];
      if transactions == [] {
        activeTransaction := false;
      }
    }

    /** Fails, where the source ends the process, exactly when a string to be removed from an intern
        table is not there. */
    method RollbackAndExitTransactionMode() returns (ok: bool)
      requires Valid() && activeTransaction && ValidHeap(heap.h) && ValidTx(transactions[0].View(), heap.h)
      modifies this, heap, transactions[0]
      ensures ok <==> Enabled(old(State()), RollbackExit)
      ensures ok ==> Valid() && transactions == old(transactions)[1..]
      ensures ok ==> State() == Step(old(State()), RollbackExit)
    {
      hide UndoFinds, Undo, ValidTx, ValidHeap, ShapesCover, Step, UndoMem, Views, Distinct;
      ghost var s := State();
      activeTransaction := false;
      ghost var rest := Views(transactions[1..]);
      FrontReplaced(transactions, rest);
      FrontIsApart(transactions);
      ok := transactions[0].Rollback(heap);
      if !ok {
        return;
      }
      FrontReplaced(transactions, rest);
      transactions := transactions[1..];
      RollbackExitStep(s);
      if transactions != [] {
        activeTransaction := true;
      }
    }

    /** Ends with no transaction open and the heap unwound through all of them, unless some string to
        be removed from an intern table is not there when its turn comes. */
    method RollbackAllTransactions() returns (ok: bool)
      requires Valid() && ValidHeap(heap.h) && AllValid(Views(transactions), heap.h)
      modifies this, heap, transactions
      ensures ok <==> RollsBack(old(State()))
      ensures ok ==> Valid() && transactions == [] && !activeTransaction
      ensures ShapesCover(old(heap.h.mem), old(heap.h.shapes))
      ensures ok ==> heap.h == RollbackAll(old(Views(transactions)), old(heap.h))
    {
      hide Undo, ValidTx, ValidHeap, RollsBack, Enabled;
      CoverOfValid(heap.h);
      ghost var all, h0 := Views(transactions), heap.h;
      ok := true;
      while activeTransaction
        invariant ok && Valid() && ValidHeap(heap.h) && AllValid(Views(transactions), heap.h)
        invariant ShapesCover(heap.h.mem, heap.h.shapes)
        invariant RollbackAll(Views(transactions), heap.h) == RollbackAll(all, h0)
        invariant RollsBack(State()) <==> RollsBack(old(State()))
        invariant forall t <- transactions :: t in old(transactions)
        decreases |transactions|
      {
        ghost var s, vs, h := State(), Views(transactions), heap.h;
        assert ValidTx(vs[0], h);
        assert transactions[0] in transactions;
        RollsBackInSteps(s);
        ok := RollbackAndExitTransactionMode();
        if !ok {
          return;
        }
        RollbackExitStep(s);
        UndoKeepsAllValid(vs, h);
        CoverOfValid(heap.h);
        assert Views(transactions) == vs[1..];
      }
      NothingToOwn(State());
    }

    /** Where `AbortTransactionF` would report it, the constraint blocks the store and marks the
        innermost transaction as aborted. */
    method TransactionWriteConstraint(l: Loc, v: Val) returns (blocked: bool)
      requires Valid() && activeTransaction && ObjOf(l) in heap.h.shapes
      modifies transactions[0]
      ensures blocked <==> old(Blocked(State(), l, v))
      ensures heap.h.shapes[ObjOf(l)].inBootImage ==> blocked
      ensures transactions[0].strict ==>
        (blocked <==> heap.h.shapes[ObjOf(l)].inBootImage || (heap.h.shapes[ObjOf(l)].isClass && ObjOf(l) != transactions[0].root))
      ensures !transactions[0].strict && !heap.h.shapes[ObjOf(l)].inBootImage ==>
        (blocked <==> bootImageSpaces && v.Pointer? && v.r in heap.h.shapes && !heap.h.shapes[v.r].referenceable)
      ensures transactions[0].View() == if blocked then old(transactions[0].View()).(aborted := true) else old(transactions[0].View())
    {
      var tx, sh := transactions[0], heap.h.shapes[ObjOf(l)];
      blocked := sh.inBootImage || (tx.strict && sh.isClass && ObjOf(l) != tx.root);
      if !blocked && v.Pointer? && v.r in heap.h.shapes {
        blocked := !tx.strict && bootImageSpaces && !heap.h.shapes[v.r].referenceable;
      }
      if blocked {
        tx.Abort();
      }
    }

    /** The setter's call to the record entry point for the slot's type. */
    method RecordAt(tx: Transaction, l: Loc)
      requires l in heap.h.mem && ValidSlot(heap.h.shapes, l, heap.h.mem[l])
      modifies tx
      ensures tx.View() == RecordWrite(old(tx.View()), heap.h.shapes[ObjOf(l)], l, heap.h.mem[l])
    {
      hide TransactionModel.RecordWriteField, TransactionModel.RecordWriteArray, EncodeSlot;
      var sh, cur := heap.h.shapes[ObjOf(l)], heap.h.mem[l];
      var word := EncodeSlot(SlotTypeOf(sh, l), cur);
      match l {
        case Field(o, off) => tx.RecordWriteField(o, off, FieldValue(RecordKind(sh.fields[off]), word));
        case Elem(a, i) => tx.RecordWriteArray(a, i, word);
      }
    }

    /** A store as the interpreter and the object setters make it: check, record, store. */
    method Store(l: Loc, v: Val, guarded: bool)
      requires Valid() && ValidHeap(heap.h) && Enabled(State(), Write(l, v, guarded))
      modifies heap, transactions
      ensures Valid() && State() == Step(old(State()), Write(l, v, guarded))
    {
      hide ValidHeap, TransactionModel.RecordWriteField, TransactionModel.RecordWriteArray, EncodeSlot, Blocked, Enabled, Step, ValidSlot, Views, RecordWrite;
      ghost var s := State();
      EnabledWrite(s, l, v, guarded);
      if !activeTransaction {
        UnrecordedStep(s, l, v, guarded);
        heap.h := heap.h.(mem := heap.h.mem[l := v]);
        return;
      }
      ghost var rest := Views(transactions[1..]);
      FrontReplaced(transactions, rest);
      FrontIsApart(transactions);
      var blocked := false;
      if guarded {
        blocked := TransactionWriteConstraint(l, v);
      }
      if blocked {
        BlockedStep(s, l, v);
        FrontReplaced(transactions, rest);
        return;
      }
      RecordedStep(s, l, v, guarded);
      RecordAt(transactions[0], l);
      FrontReplaced(transactions, rest);
      heap.h := heap.h.(mem := heap.h.mem[l := v]);
    }

    /** An allocation; `recorded` says whether it is reported to the transaction, as the interpreter
        does for new instances other than strings and for new arrays. */
    method Allocate(r: Ref, sh: Shape, init: map<Loc, Val>, recorded: bool)
      requires Valid() && ValidHeap(heap.h) && Enabled(State(), Event.Allocate(r, sh, init, recorded))
      modifies heap, transactions
      ensures Valid() && State() == Step(old(State()), Event.Allocate(r, sh, init, recorded))
    {
      hide ValidHeap, Enabled, TransactionModel.RecordNewArray, TransactionModel.RecordNewObject, Step, Views;
      ghost var s := State();
      AllocatedStep(s, r, sh, init, recorded);
      if activeTransaction && recorded {
        ghost var rest := Views(transactions[1..]);
        FrontReplaced(transactions, rest);
        FrontIsApart(transactions);
        if sh.isArray {
          transactions[0].RecordNewArray(sh, r);
        } else {
          transactions[0].RecordNewObject(r);
        }
        FrontReplaced(transactions, rest);
      }
      heap.h := heap.h.(mem := heap.h.mem + init, shapes := heap.h.shapes[r := sh]);
    }

    /** A recorded change of an intern table: `InsertStrong`, `InsertWeak` and `RemoveWeak`. The
        source also has a record entry point for strong removals, but `RemoveStrong` does not use
        it; undoing an insertion is its only caller. */
    method ChangeInternTable(op: InternOp)
      requires Valid() && ValidHeap(heap.h) && Enabled(State(), Intern(op))
      modifies heap, transactions
      ensures Valid() && State() == Step(old(State()), Intern(op))
    {
      hide ValidHeap, Enabled, LogInterned, ApplyIntern, Step;
      ghost var s := State();
      InternedStep(s, op);
      if activeTransaction {
        ghost var rest := Views(transactions[1..]);
        FrontReplaced(transactions, rest);
        FrontIsApart(transactions);
        transactions[0].LogInternedString(op);
        FrontReplaced(transactions, rest);
      }
      var ts := ApplyIntern(heap.h.shapes, (heap.h.strong, heap.h.weak), op);
      heap.h := heap.h.(strong := ts.0, weak := ts.1);
    }

    /** `InternTable::Insert`: finds the string in a table, moves it to the strong one or inserts it,
        and leaves what this takes in the innermost transaction's log. */
    method InternString(str: Ref, isStrong: bool) returns (r: Ref)
      requires Valid() && ValidHeap(heap.h) && str in heap.h.shapes
      modifies heap, transactions
      ensures Valid() && r == Interned(old(heap.h), str)
      ensures Runs(old(State()), InternEvents(old(heap.h), str, isStrong))
      ensures State() == Run(old(State()), InternEvents(old(heap.h), str, isStrong))
    {
      hide ValidHeap, Enabled, Step, Views, Runs, Run, Valid;
      ghost var s := State();
      var x := heap.h.shapes[str].text;
      InterningFindsOrAdds(s, str, isStrong);
      if x in heap.h.strong {
        Interning.NoEvents(s);
        return heap.h.strong[x];
      }
      if x in heap.h.weak {
        r := heap.h.weak[x];
        if isStrong {
          PromotionSteps(s, x);
          TwoEvents(s, Intern(InternOp(r, false, false)), Intern(InternOp(r, true, true)));
          ChangeInternTable(InternOp(r, false, false));
          ChangeInternTable(InternOp(r, true, true));
        } else {
          Interning.NoEvents(s);
        }
        return;
      }
      InsertionStep(s, str, isStrong);
      OneEvent(s, Intern(InternOp(str, isStrong, true)));
      ChangeInternTable(InternOp(str, isStrong, true));
      r := str;
    }

    /** A collection that frees `dead`. */
    method FreeObjects(dead: set<Ref>)
      requires Valid() && ValidHeap(heap.h) && Enabled(State(), Collect(dead))
      modifies heap
      ensures Valid() && State() == Step(old(State()), Collect(dead))
    {
      hide ValidHeap, Enabled, Step, Views;
      CollectedStep(State(), dead);
      heap.h := CollectStep(Sys(heap.h, [], bootImageSpaces), dead).heap;
    }

    /** Any one event of a run. */
    method Perform(e: Event)
      requires Valid() && ValidHeap(heap.h) && AllValid(Views(transactions), heap.h) && Enabled(State(), e)
      modifies this, heap, transactions
      ensures Valid() && State() == Step(old(State()), e)
      ensures forall t <- transactions :: t in old(transactions) || fresh(t)
    {
      hide ValidHeap, Step, Views, ValidTx, Distinct;
      match e {
        case Enter(strict, root) => EnterTransactionMode(strict, root);
        case Exit => ExitTransactionMode();
        case RollbackExit =>
          assert ValidTx(Views(transactions)[0], heap.h);
          var ok := RollbackAndExitTransactionMode();
        case Write(l, v, guarded) => Store(l, v, guarded);
        case Allocate(r, sh, init, recorded) => Allocate(r, sh, init, recorded);
        case Intern(op) => ChangeInternTable(op);
        case Collect(dead) => FreeObjects(dead);
      }
    }

    /** A whole run, and the rollback of everything that is open at its end. That completes exactly
        when it finds all it removes, always so when the run's commits are harmless; a run that
        commits nothing leaves no trace. */
    method RunThenRollBack(es: seq<Event>) returns (ok: bool)
      requires Valid() && transactions == [] && ValidHeap(heap.h) && Runs(State(), es)
      modifies this, heap
      ensures ok <==> RollsBack(Run(old(State()), es))
      ensures HarmlessRun(old(State()), es) ==> ok
      ensures ShapesCover(Run(old(State()), es).heap.mem, Run(old(State()), es).heap.shapes)
      ensures ok ==> Valid() && transactions == [] && heap.h == RollbackAll(Run(old(State()), es).stack, Run(old(State()), es).heap)
      ensures es != [] && es[0].Enter? && Uncommitted(es[1..], 1) ==> ok && LeftNoTrace(old(heap.h), es[1..], heap.h)
      ensures es != [] && es[0].Enter? && Uncommitted(es[1..], 1) ==> forall o, off ::
        Field(o, off) in old(heap.h.mem) && NeverFreed(es[1..], o) && o in old(heap.h.shapes) && off != 0 && !(old(heap.h.shapes)[o].isArray && off == 8) ==>
          Field(o, off) in heap.h.mem && heap.h.mem[Field(o, off)] == old(heap.h.mem)[Field(o, off)]
      ensures es != [] && es[0].Enter? && Uncommitted(es[1..], 1) ==> forall a, i ::
        Elem(a, i) in old(heap.h.mem) && NeverFreed(es[1..], a) && !old(heap.h.mem)[Elem(a, i)].Fp? ==>
          Elem(a, i) in heap.h.mem && heap.h.mem[Elem(a, i)] == old(heap.h.mem)[Elem(a, i)]
    {
      hide ValidHeap, Step, StepHistory, Views, Distinct, AllRestore, NewerThan, ValidTx, RollsBack, HarmlessRun, RollbackAll, Enabled, LeftNoTrace;
      ghost var s, hist := State(), [];
      NothingOpen(s);
      assert es[0..] == es;
      for i := 0 to |es|
        invariant Valid() && Inv(State(), hist) && Runs(State(), es[i..])
        invariant Run(State(), es[i..]) == Run(s, es)
        invariant forall k :: 0 <= k < |transactions| ==> fresh(transactions[k])
      {
        ghost var before := State();
        assert es[i..][0] == es[i] && es[i..][1..] == es[i + 1..];
        StepKeeps(before, hist, es[i]);
        OpenForExit(before, es[i]);
        hist := StepHistory(hist, before, es[i]);
        ghost var open_ := transactions;
        Perform(es[i]);
        forall k | 0 <= k < |transactions| ensures fresh(transactions[k]) {
          assert transactions[k] in transactions;
          assert transactions[k] in open_ ==> exists j :: 0 <= j < |open_| && open_[j] == transactions[k];
        }
      }
      assert es[|es|..] == [];
      ghost var t := State();
      if HarmlessRun(s, es) {
        HarmlessRunsRollBack(s, es);
      }
      if es != [] && es[0].Enter? && Uncommitted(es[1..], 1) {
        NothingIsLeft(s, es);
      }
      ok := RollbackAllTransactions();
      if es != [] && es[0].Enter? && Uncommitted(es[1..], 1) {
        NoTraceMeans(s.heap, es[1..], heap.h);
      }
    }

    /** The root visit of every open transaction. */
    method VisitTransactionRoots(moves: map<Ref, Ref>) returns (ok: bool)
      requires Valid()
      requires forall t <- transactions :: KeepsApart(moves, t.objectLogs.Keys) && KeepsApart(moves, t.arrayLogs.Keys)
      modifies transactions
      ensures Valid()
      ensures ok ==> forall i :: 0 <= i < |transactions| ==> VisitedTx(moves, old(Views(transactions))[i], transactions[i].View())
      ensures ok <==> AllRekey(moves, old(Views(transactions)))
    {
      hide VisitedTx, KeepsApart, CanRekey, Views;
      ghost var before := Views(transactions);
      ok := true;
      for i := 0 to |transactions|
        invariant ok
        invariant forall j :: 0 <= j < i ==> VisitedTx(moves, before[j], transactions[j].View())
        invariant forall j :: 0 <= j < i ==> CanRekey(moves, before[j])
        invariant forall j :: i <= j < |transactions| ==> transactions[j].View() == before[j]
      {
        assert transactions[i] in transactions;
        assert transactions[i].View() == before[i];
        ok := transactions[i].VisitRoots(moves);
        if !ok {
          return;
        }
      }
    }

    /** A moving collection: the collector moves the heap and visits the open transactions. When
        every log can be re-keyed, the whole state is relocated. */
    method MoveObjects(moves: map<Ref, Ref>, ws: seq<Exchange>) returns (ok: bool)
      requires Valid() && AllValid(Views(transactions), heap.h) && Realizes(ws, moves, heap.h.shapes)
      modifies heap, transactions
      ensures Valid()
      ensures ok ==> State() == RSysAll(ws, old(State()))
      ensures ok <==> AllRekey(moves, old(Views(transactions)))
    {
      hide VisitedTx, KeepsApart, AllRekey, RHeapAll, RSysAll, ValidTx, Realizes;
      ghost var s := State();
      forall t | t in transactions ensures KeepsApart(moves, t.objectLogs.Keys) && KeepsApart(moves, t.arrayLogs.Keys) {
        var i :| 0 <= i < |transactions| && transactions[i] == t;
        LogKeysApart(ws, moves, heap.h, Views(transactions)[i]);
      }
      ok := VisitTransactionRoots(moves);
      if ok {
        VisitedStateIsRelocated(ws, moves, s, Views(transactions));
        heap.h := RHeapAll(ws, heap.h);
      }
    }
  }
}
