/** Moving collections in the middle of transactions. A collection that moves objects renames
    addresses in the heap, and the root visit renames them in every log: the keys, the logged
    references, the class being initialized and the last-allocation cache. Moving one object to
    a free address exchanges the roles of two addresses; a whole collection is a sequence of
    such exchanges, which `EveryMoveIsExchanges` shows to be no restriction. */
module MovingGc {
  import opened HeapModel
  import opened TransactionModel
  import opened InternLogs
  import opened TransactionRuns

  type Address = r: Ref | r != NULL witness 1

  datatype Exchange = Exchange(a: Address, b: Address)

  function To(w: Exchange, x: Ref): Ref {
    if x == w.a then w.b else if x == w.b then w.a else x
  }

  lemma ToTwice(w: Exchange, x: Ref)
    ensures To(w, To(w, x)) == x
  {
  }

  // ---- Renaming ----

  function RLoc(w: Exchange, l: Loc): Loc {
    match l case Field(o, off) => Field(To(w, o), off) case Elem(a, i) => Elem(To(w, a), i)
  }

  function RVal(w: Exchange, v: Val): Val {
    if v.Pointer? then Pointer(To(w, v.r)) else v
  }

  function RRefs(w: Exchange, rs: set<Ref>): (r: set<Ref>)
    ensures forall x {:trigger x in r} :: x in r <==> To(w, x) in rs
  {
    set x <- rs + {w.a, w.b} | To(w, x) in rs
  }

  function RKeys<V>(w: Exchange, d: map<Ref, V>): (r: map<Ref, V>)
    ensures forall x {:trigger x in r} :: x in r <==> To(w, x) in d
    ensures forall x {:trigger r[x]} :: x in r ==> To(w, x) in d && r[x] == d[To(w, x)]
  {
    map x <- d.Keys + {w.a, w.b} | To(w, x) in d :: d[To(w, x)]
  }

  function RMem(w: Exchange, mem: map<Loc, Val>): (r: map<Loc, Val>)
    ensures forall l {:trigger l in r} :: l in r <==> RLoc(w, l) in mem
    ensures forall l {:trigger r[l]} :: l in r ==> RLoc(w, l) in mem && r[l] == RVal(w, mem[RLoc(w, l)])
  {
    var ls := set l <- mem :: RLoc(w, l);
    assert forall l :: RLoc(w, l) in mem ==> RLoc(w, RLoc(w, l)) in ls;
    assert forall l :: RLoc(w, RLoc(w, l)) == l;
    map l <- ls :: RVal(w, mem[RLoc(w, l)])
  }

  function RTable(w: Exchange, t: InternTable): InternTable {
    map s <- t :: To(w, t[s])
  }

  function RTables(w: Exchange, ts: Tables): Tables { (RTable(w, ts.0), RTable(w, ts.1)) }

  function RFieldValue(w: Exchange, fv: FieldValue): FieldValue {
    if fv.kind == KReference then fv.(value := To(w, fv.value)) else fv
  }

  /** `ObjectLog::VisitRoots`. */
  function RObjectLog(w: Exchange, log: ObjectLog): ObjectLog {
    log.(values := map off <- log.values :: RFieldValue(w, log.values[off]))
  }

  function RLogs(w: Exchange, logs: map<Ref, ObjectLog>): (r: map<Ref, ObjectLog>)
    ensures forall x {:trigger x in r} :: x in r <==> To(w, x) in logs
    ensures forall x {:trigger r[x]} :: x in r ==> To(w, x) in logs && r[x] == RObjectLog(w, logs[To(w, x)])
  {
    map x <- logs.Keys + {w.a, w.b} | To(w, x) in logs :: RObjectLog(w, logs[To(w, x)])
  }

  function ROp(w: Exchange, op: InternOp): InternOp { op.(str := To(w, op.str)) }

  function ROps(w: Exchange, ops: seq<InternOp>): (r: seq<InternOp>)
    ensures |r| == |ops| && forall i :: 0 <= i < |ops| ==> r[i] == ROp(w, ops[i])
  {
    seq(|ops|, i requires 0 <= i < |ops| => ROp(w, ops[i]))
  }

  /** What `VisitRoots` makes of a transaction. */
  function RTx(w: Exchange, tx: Tx): Tx {
    Tx(tx.strict, To(w, tx.root), RLogs(w, tx.objectLogs), RKeys(w, tx.arrayLogs), ROps(w, tx.internLogs),
       To(w, tx.lastAllocated), tx.aborted)
  }

  function RHeap(w: Exchange, h: Heap): Heap {
    Heap(RMem(w, h.mem), RKeys(w, h.shapes), RTable(w, h.strong), RTable(w, h.weak))
  }

  function RStack(w: Exchange, stack: seq<Tx>): (r: seq<Tx>)
    ensures |r| == |stack| && forall i :: 0 <= i < |stack| ==> r[i] == RTx(w, stack[i])
  {
    seq(|stack|, i requires 0 <= i < |stack| => RTx(w, stack[i]))
  }

  function RSys(w: Exchange, s: Sys): Sys {
    Sys(RHeap(w, s.heap), RStack(w, s.stack), s.bootImageSpaces)
  }

  function REvent(w: Exchange, e: Event): Event {
    match e
    case Enter(strict, root) => Enter(strict, To(w, root))
    case Write(l, v, g) => Write(RLoc(w, l), RVal(w, v), g)
    case Allocate(r, sh, init, recorded) => Allocate(To(w, r), sh, RMem(w, init), recorded)
    case Intern(op) => Intern(ROp(w, op))
    case Collect(dead) => Collect(RRefs(w, dead))
    case Exit => Exit
    case RollbackExit => RollbackExit
  }

  // ---- Renaming twice changes nothing ----

  lemma LocTwice(w: Exchange, l: Loc)
    ensures RLoc(w, RLoc(w, l)) == l
  {
  }

  lemma ValTwice(w: Exchange, v: Val)
    ensures RVal(w, RVal(w, v)) == v
  {
  }

  lemma MemInvolution(w: Exchange, mem: map<Loc, Val>)
    ensures RMem(w, RMem(w, mem)) == mem
  {
    hide RLoc, RVal, RMem;
    var a := RMem(w, mem);
    var r := RMem(w, a);
    forall l ensures (l in r <==> l in mem) && (l in mem ==> r[l] == mem[l]) {
      LocTwice(w, l);
      assert l in r <==> RLoc(w, l) in a;
      assert RLoc(w, l) in a <==> l in mem;
      if l in mem {
        ValTwice(w, mem[l]);
        assert r[l] == RVal(w, a[RLoc(w, l)]) && a[RLoc(w, l)] == RVal(w, mem[l]);
      }
    }
  }

  lemma KeysInvolution<V>(w: Exchange, d: map<Ref, V>)
    ensures RKeys(w, RKeys(w, d)) == d
  {
    var r := RKeys(w, RKeys(w, d));
    forall x | x in d ensures x in r && r[x] == d[x] { ToTwice(w, x); }
    forall x | x in r ensures x in d { ToTwice(w, x); }
  }

  lemma ObjectLogInvolution(w: Exchange, log: ObjectLog)
    ensures RObjectLog(w, RObjectLog(w, log)) == log
  {
    assert RObjectLog(w, RObjectLog(w, log)).values == log.values;
  }

  lemma LogsInvolution(w: Exchange, logs: map<Ref, ObjectLog>)
    ensures RLogs(w, RLogs(w, logs)) == logs
  {
    hide RLogs, RObjectLog;
    var r := RLogs(w, RLogs(w, logs));
    forall x | x in logs ensures x in r && r[x] == logs[x] {
      ToTwice(w, x);
      ObjectLogInvolution(w, logs[x]);
    }
    forall x | x in r ensures x in logs { ToTwice(w, x); }
  }

  lemma TxInvolution(w: Exchange, tx: Tx)
    ensures RTx(w, RTx(w, tx)) == tx
  {
    LogsInvolution(w, tx.objectLogs);
    KeysInvolution(w, tx.arrayLogs);
    assert ROps(w, ROps(w, tx.internLogs)) == tx.internLogs;
  }

  lemma TableInvolution(w: Exchange, t: InternTable)
    ensures RTable(w, RTable(w, t)) == t
  {
  }

  lemma HeapInvolution(w: Exchange, h: Heap)
    ensures RHeap(w, RHeap(w, h)) == h
  {
    MemInvolution(w, h.mem);
    KeysInvolution(w, h.shapes);
    TableInvolution(w, h.strong);
    TableInvolution(w, h.weak);
  }

  lemma SysInvolution(w: Exchange, s: Sys)
    ensures RSys(w, RSys(w, s)) == s
  {
    hide RTx, RHeap, RStack;
    HeapInvolution(w, s.heap);
    var r := RStack(w, RStack(w, s.stack));
    forall i | 0 <= i < |s.stack| ensures r[i] == s.stack[i] {
      TxInvolution(w, s.stack[i]);
    }
    assert r == s.stack;
  }

  lemma EventInvolution(w: Exchange, e: Event)
    ensures REvent(w, REvent(w, e)) == e
  {
    hide RMem, RRefs;
    match e {
      case Allocate(r, sh, init, _) =>
        MemInvolution(w, init);
      case Collect(dead) =>
        forall x ensures x in RRefs(w, RRefs(w, dead)) <==> x in dead { ToTwice(w, x); }
      case _ =>
    }
  }

  // ---- Undoing commutes with renaming ----

  lemma UndoValCommutes(w: Exchange, tx: Tx, sh: Shape, l: Loc, cur: Val)
    ensures UndoVal(RTx(w, tx), sh, RLoc(w, l), RVal(w, cur)) == RVal(w, UndoVal(tx, sh, l, cur))
    ensures Logs(RTx(w, tx), RLoc(w, l)) <==> Logs(tx, l)
  {
    hide ROps, RLogs, RKeys;
    ToTwice(w, ObjOf(l));
    var x := To(w, ObjOf(l));
    assert x in RLogs(w, tx.objectLogs) <==> ObjOf(l) in tx.objectLogs;
    assert x in RKeys(w, tx.arrayLogs) <==> ObjOf(l) in tx.arrayLogs;
  }

  lemma TextCommutes(w: Exchange, shapes: map<Ref, Shape>, r: Ref)
    ensures TextOf(RKeys(w, shapes), To(w, r)) == TextOf(shapes, r)
  {
    ToTwice(w, r);
    assert To(w, r) in RKeys(w, shapes) <==> r in shapes;
  }

  lemma TableApplyCommutes(w: Exchange, shapes: map<Ref, Shape>, t: InternTable, op: InternOp)
    ensures TableApply(RKeys(w, shapes), RTable(w, t), ROp(w, op)) == RTable(w, TableApply(shapes, t, op))
  {
    hide TextOf, RKeys, To;
    TextCommutes(w, shapes, op.str);
    var s := TextOf(shapes, op.str);
    if op.isInsert {
      assert RTable(w, t[s := op.str]) == RTable(w, t)[s := To(w, op.str)];
    } else {
      assert RTable(w, t - {s}) == RTable(w, t) - {s};
    }
  }

  lemma ApplyInternCommutes(w: Exchange, shapes: map<Ref, Shape>, ts: Tables, op: InternOp)
    ensures ApplyIntern(RKeys(w, shapes), RTables(w, ts), ROp(w, op)) == RTables(w, ApplyIntern(shapes, ts, op))
  {
    TableApplyCommutes(w, shapes, if op.isStrong then ts.0 else ts.1, op);
  }

  lemma {:induction false} UndoInternsCommutes(w: Exchange, shapes: map<Ref, Shape>, ops: seq<InternOp>, ts: Tables)
    ensures UndoInterns(RKeys(w, shapes), ROps(w, ops), RTables(w, ts)) == RTables(w, UndoInterns(shapes, ops, ts))
  {
    if ops != [] {
      ApplyInternCommutes(w, shapes, ts, Inverse(ops[0]));
      assert ROps(w, ops)[1..] == ROps(w, ops[1..]);
      assert Inverse(ROps(w, ops)[0]) == ROp(w, Inverse(ops[0]));
      UndoInternsCommutes(w, shapes, ops[1..], ApplyIntern(shapes, ts, Inverse(ops[0])));
    }
  }

  lemma CoverCommutes(w: Exchange, h: Heap)
    requires ShapesCover(h.mem, h.shapes)
    ensures ShapesCover(RMem(w, h.mem), RKeys(w, h.shapes))
  {
    forall l | l in RMem(w, h.mem) ensures ObjOf(l) in RKeys(w, h.shapes) {
      assert RLoc(w, l) in h.mem;
    }
  }

  lemma UndoMemCommutes(w: Exchange, tx: Tx, h: Heap)
    requires ShapesCover(h.mem, h.shapes) && ShapesCover(RMem(w, h.mem), RKeys(w, h.shapes))
    ensures UndoMem(RTx(w, tx), RMem(w, h.mem), RKeys(w, h.shapes)) == RMem(w, UndoMem(tx, h.mem, h.shapes))
  {
    hide RMem, RKeys, RTx, UndoVal;
    var a, b := UndoMem(RTx(w, tx), RMem(w, h.mem), RKeys(w, h.shapes)), RMem(w, UndoMem(tx, h.mem, h.shapes));
    forall l | l in RMem(w, h.mem) ensures a[l] == b[l] {
      var k := RLoc(w, l);
      assert k in h.mem && RLoc(w, k) == l && ObjOf(k) == To(w, ObjOf(l));
      UndoValCommutes(w, tx, h.shapes[ObjOf(k)], k, h.mem[k]);
      assert RMem(w, h.mem)[l] == RVal(w, h.mem[k]);
      assert RKeys(w, h.shapes)[ObjOf(l)] == h.shapes[ObjOf(k)];
    }
    assert a.Keys == RMem(w, h.mem).Keys;
    forall l ensures l in b <==> l in RMem(w, h.mem) { assert RLoc(w, RLoc(w, l)) == l; }
  }

  lemma UndoCommutes(w: Exchange, tx: Tx, h: Heap)
    requires ShapesCover(h.mem, h.shapes)
    ensures ShapesCover(RMem(w, h.mem), RKeys(w, h.shapes))
    ensures Undo(RTx(w, tx), RHeap(w, h)) == RHeap(w, Undo(tx, h))
  {
    CoverCommutes(w, h);
    UndoMemCommutes(w, tx, h);
    UndoInternsCommutes(w, h.shapes, tx.internLogs, (h.strong, h.weak));
  }

  /** Rolling back after objects moved gives the renamed image of rolling back without the move. */
  lemma {:induction false} RollbackAllCommutes(w: Exchange, stack: seq<Tx>, h: Heap)
    requires ShapesCover(h.mem, h.shapes)
    ensures ShapesCover(RMem(w, h.mem), RKeys(w, h.shapes))
    ensures RollbackAll(RStack(w, stack), RHeap(w, h)) == RHeap(w, RollbackAll(stack, h))
  {
    CoverCommutes(w, h);
    if stack != [] {
      UndoCommutes(w, stack[0], h);
      assert RStack(w, stack)[1..] == RStack(w, stack[1..]);
      RollbackAllCommutes(w, stack[1..], Undo(stack[0], h));
    }
  }

  // ---- Every step commutes with renaming ----

  lemma KeysUpdate<V>(w: Exchange, d: map<Ref, V>, k: Ref, v: V)
    ensures RKeys(w, d[k := v]) == RKeys(w, d)[To(w, k) := v]
  {
    hide RKeys;
    var a, b := RKeys(w, d[k := v]), RKeys(w, d)[To(w, k) := v];
    ToTwice(w, k);
    forall x ensures To(w, x) == k <==> x == To(w, k) { ToTwice(w, x); }
    forall x | x in b ensures x in a && a[x] == b[x] { }
    forall x | x in a ensures x in b { }
  }

  lemma LogsUpdate(w: Exchange, d: map<Ref, ObjectLog>, k: Ref, v: ObjectLog)
    ensures RLogs(w, d[k := v]) == RLogs(w, d)[To(w, k) := RObjectLog(w, v)]
  {
    hide RLogs, RObjectLog;
    var a, b := RLogs(w, d[k := v]), RLogs(w, d)[To(w, k) := RObjectLog(w, v)];
    ToTwice(w, k);
    forall x ensures To(w, x) == k <==> x == To(w, k) { ToTwice(w, x); }
    forall x | x in b ensures x in a && a[x] == b[x] { }
    forall x | x in a ensures x in b { }
  }

  lemma MemUnion(w: Exchange, m: map<Loc, Val>, n: map<Loc, Val>)
    ensures RMem(w, m + n) == RMem(w, m) + RMem(w, n)
  {
    hide RMem, RLoc;
    var a, b := RMem(w, m + n), RMem(w, m) + RMem(w, n);
    forall x | x in b ensures x in a && a[x] == b[x] { assert x in RMem(w, m) || x in RMem(w, n); }
    forall x | x in a ensures x in b { assert x in RMem(w, m) || x in RMem(w, n); }
  }

  lemma MemUpdate(w: Exchange, m: map<Loc, Val>, l: Loc, v: Val)
    ensures RMem(w, m[l := v]) == RMem(w, m)[RLoc(w, l) := RVal(w, v)]
  {
    hide RMem;
    var a, b := RMem(w, m[l := v]), RMem(w, m)[RLoc(w, l) := RVal(w, v)];
    forall x ensures RLoc(w, x) == l <==> x == RLoc(w, l) { }
    forall x | x in b ensures x in a && a[x] == b[x] { assert x in RMem(w, m) || x == RLoc(w, l); }
    forall x | x in a ensures x in b { assert x in RMem(w, m) || x == RLoc(w, l); }
  }

  lemma ValidSlotCommutes(w: Exchange, shapes: map<Ref, Shape>, l: Loc, v: Val)
    ensures ValidSlot(RKeys(w, shapes), RLoc(w, l), RVal(w, v)) <==> ValidSlot(shapes, l, v)
  {
    hide RKeys;
    var shapes' := RKeys(w, shapes);
    ToTwice(w, ObjOf(l));
    assert ObjOf(RLoc(w, l)) in shapes' <==> ObjOf(l) in shapes;
    if v.Pointer? {
      ToTwice(w, v.r);
      assert To(w, v.r) in shapes' <==> v.r in shapes;
    }
  }

  lemma ValidTableCommutes(w: Exchange, shapes: map<Ref, Shape>, t: InternTable)
    requires ValidTable(shapes, t)
    ensures ValidTable(RKeys(w, shapes), RTable(w, t))
  {
    hide RKeys;
    forall s | s in t ensures To(w, t[s]) in RKeys(w, shapes) && RKeys(w, shapes)[To(w, t[s])] == shapes[t[s]] {
      ToTwice(w, t[s]);
    }
  }

  lemma ValidHeapCommutes(w: Exchange, h: Heap)
    requires ValidHeap(h)
    ensures ValidHeap(RHeap(w, h))
  {
    hide RMem, RKeys, RTable, ValidTable, ValidSlot;
    var h' := RHeap(w, h);
    forall l | l in h'.mem ensures ValidSlot(h'.shapes, l, h'.mem[l]) {
      var k := RLoc(w, l);
      assert RLoc(w, k) == l;
      assert ValidSlot(h.shapes, k, h.mem[k]);
      ValidSlotCommutes(w, h.shapes, k, h.mem[k]);
    }
    ValidTableCommutes(w, h.shapes, h.strong);
    ValidTableCommutes(w, h.shapes, h.weak);
    assert To(w, NULL) == NULL;
  }

  lemma LogFieldCommutes(w: Exchange, log: ObjectLog, off: nat, fv: FieldValue)
    ensures LogFieldValue(RObjectLog(w, log), off, RFieldValue(w, fv)) == RObjectLog(w, LogFieldValue(log, off, fv))
  {
    if !log.isNew && off !in log.values {
      assert RObjectLog(w, log.(values := log.values[off := fv])).values == RObjectLog(w, log).values[off := RFieldValue(w, fv)];
    }
  }

  lemma EmptyLogCommutes(w: Exchange)
    ensures RObjectLog(w, ObjectLog(false, map[])) == ObjectLog(false, map[])
    ensures RObjectLog(w, ObjectLog(true, map[])) == ObjectLog(true, map[])
  {
  }

  lemma RecordFieldCommutes(w: Exchange, tx: Tx, o: Ref, off: nat, fv: FieldValue)
    ensures RecordWriteField(RTx(w, tx), To(w, o), off, RFieldValue(w, fv)) == RTx(w, RecordWriteField(tx, o, off, fv))
  {
    hide RLogs, RObjectLog, RKeys, ROps, LogFieldValue;
    ToTwice(w, o);
    ToTwice(w, tx.lastAllocated);
    var log := ObjectLogOf(tx, o);
    assert To(w, o) in RLogs(w, tx.objectLogs) <==> o in tx.objectLogs;
    assert ObjectLogOf(RTx(w, tx), To(w, o)) == RObjectLog(w, log) by { EmptyLogCommutes(w); }
    LogFieldCommutes(w, log, off, fv);
    LogsUpdate(w, tx.objectLogs, o, LogFieldValue(log, off, fv));
  }

  lemma RecordArrayCommutes(w: Exchange, tx: Tx, a: Ref, i: nat, word: nat)
    ensures RecordWriteArray(RTx(w, tx), To(w, a), i, word) == RTx(w, RecordWriteArray(tx, a, i, word))
  {
    hide RLogs, RKeys, ROps, LogElemValue;
    ToTwice(w, a);
    ToTwice(w, tx.lastAllocated);
    assert To(w, a) in RKeys(w, tx.arrayLogs) <==> a in tx.arrayLogs;
    KeysUpdate(w, tx.arrayLogs, a, LogElemValue(ArrayLogOf(tx, a), i, word));
  }

  lemma RecordWriteCommutes(w: Exchange, tx: Tx, sh: Shape, l: Loc, cur: Val)
    requires HasSlot(sh, l) && Fits(SlotTypeOf(sh, l), cur)
    ensures HasSlot(sh, RLoc(w, l)) && Fits(SlotTypeOf(sh, RLoc(w, l)), RVal(w, cur))
    ensures RecordWrite(RTx(w, tx), sh, RLoc(w, l), RVal(w, cur)) == RTx(w, RecordWrite(tx, sh, l, cur))
  {
    hide RTx, RecordWriteField, RecordWriteArray;
    var word := EncodeSlot(SlotTypeOf(sh, l), cur);
    match l {
      case Field(o, off) =>
        RecordFieldCommutes(w, tx, o, off, FieldValue(RecordKind(sh.fields[off]), word));
      case Elem(a, i) =>
        RecordArrayCommutes(w, tx, a, i, word);
    }
  }

  lemma WithFrontCommutes(w: Exchange, stack: seq<Tx>, tx: Tx)
    requires stack != []
    ensures WithFront(RStack(w, stack), RTx(w, tx)) == RStack(w, WithFront(stack, tx))
  {
    hide RTx;
  }

  lemma BlockedCommutes(w: Exchange, s: Sys, l: Loc, v: Val)
    requires s.stack != [] && ObjOf(l) in s.heap.shapes
    ensures ObjOf(RLoc(w, l)) in RSys(w, s).heap.shapes
    ensures Blocked(RSys(w, s), RLoc(w, l), RVal(w, v)) <==> Blocked(s, l, v)
  {
    hide RMem, RKeys, RTable, RLogs, ROps;
    ToTwice(w, ObjOf(l));
    ToTwice(w, s.stack[0].root);
    var shapes' := RKeys(w, s.heap.shapes);
    assert ObjOf(RLoc(w, l)) in shapes';
    if v.Pointer? {
      ToTwice(w, v.r);
      assert To(w, v.r) in shapes' <==> v.r in s.heap.shapes;
    }
  }

  function ShapeOf(shapes: map<Ref, Shape>, l: Loc, v: Val): (sh: Shape)
    requires ValidSlot(shapes, l, v)
    ensures ObjOf(l) in shapes && sh == shapes[ObjOf(l)]
  {
    shapes[ObjOf(l)]
  }

  lemma SlotIsTyped(shapes: map<Ref, Shape>, l: Loc, v: Val)
    requires ValidSlot(shapes, l, v)
    ensures HasSlot(shapes[ObjOf(l)], l) && Fits(SlotTypeOf(shapes[ObjOf(l)], l), v)
  {
  }

  lemma AbortCommutes(w: Exchange, tx: Tx)
    ensures RTx(w, tx.(aborted := true)) == RTx(w, tx).(aborted := true)
  {
  }

  lemma WriteCommutes(w: Exchange, s: Sys, l: Loc, v: Val, guarded: bool)
    requires l in s.heap.mem && ValidSlot(s.heap.shapes, l, v) && ValidSlot(s.heap.shapes, l, s.heap.mem[l])
    ensures var s', l', v' := RSys(w, s), RLoc(w, l), RVal(w, v);
      l' in s'.heap.mem && ValidSlot(s'.heap.shapes, l', v') && ValidSlot(s'.heap.shapes, l', s'.heap.mem[l']) &&
      WriteStep(s', l', v', guarded) == RSys(w, WriteStep(s, l, v, guarded))
  {
    hide RMem, RKeys, RTable, RTx, RStack, ValidSlot, Blocked, RecordWrite;
    var s', l', v' := RSys(w, s), RLoc(w, l), RVal(w, v);
    assert RLoc(w, l') == l;
    assert s'.heap.mem[l'] == RVal(w, s.heap.mem[l]);
    ValidSlotCommutes(w, s.heap.shapes, l, v);
    ValidSlotCommutes(w, s.heap.shapes, l, s.heap.mem[l]);
    MemUpdate(w, s.heap.mem, l, v);
    if s.stack != [] {
      var tx, sh := s.stack[0], ShapeOf(s.heap.shapes, l, v);
      BlockedCommutes(w, s, l, v);
      AbortCommutes(w, tx);
      WithFrontCommutes(w, s.stack, tx.(aborted := true));
      ToTwice(w, ObjOf(l));
      SlotIsTyped(s.heap.shapes, l, s.heap.mem[l]);
      RecordWriteCommutes(w, tx, sh, l, s.heap.mem[l]);
      WithFrontCommutes(w, s.stack, RecordWrite(tx, sh, l, s.heap.mem[l]));
    }
  }

  lemma AllocationCommutes(w: Exchange, tx: Tx, sh: Shape, r: Ref)
    ensures RecordAllocation(RTx(w, tx), sh, To(w, r)) == RTx(w, RecordAllocation(tx, sh, r))
  {
    hide RLogs, RKeys, ROps, RObjectLog;
    EmptyLogCommutes(w);
    LogsUpdate(w, tx.objectLogs, r, ObjectLog(true, map[]));
    KeysUpdate(w, tx.arrayLogs, r, ArrayLog(true, map[]));
  }

  lemma AllocateCommutes(w: Exchange, s: Sys, r: Ref, sh: Shape, init: map<Loc, Val>, recorded: bool)
    ensures AllocateStep(RSys(w, s), To(w, r), sh, RMem(w, init), recorded) == RSys(w, AllocateStep(s, r, sh, init, recorded))
  {
    hide RMem, RKeys, RTable, RTx, RStack, RecordAllocation;
    MemUnion(w, s.heap.mem, init);
    KeysUpdate(w, s.heap.shapes, r, sh);
    if s.stack != [] && recorded {
      AllocationCommutes(w, s.stack[0], sh, r);
      WithFrontCommutes(w, s.stack, RecordAllocation(s.stack[0], sh, r));
    }
  }

  lemma LogInternedCommutes(w: Exchange, tx: Tx, op: InternOp)
    ensures RTx(w, LogInterned(tx, op)) == LogInterned(RTx(w, tx), ROp(w, op))
  {
    hide RLogs, RKeys;
    assert ROps(w, [op] + tx.internLogs) == [ROp(w, op)] + ROps(w, tx.internLogs);
  }

  lemma InternCommutes(w: Exchange, s: Sys, op: InternOp)
    ensures InternStep(RSys(w, s), ROp(w, op)) == RSys(w, InternStep(s, op))
  {
    hide RMem, RKeys, RTable, RTx, RStack, ApplyIntern, LogInterned;
    ApplyInternCommutes(w, s.heap.shapes, TablesOf(s.heap), op);
    if s.stack != [] {
      LogInternedCommutes(w, s.stack[0], op);
      WithFrontCommutes(w, s.stack, LogInterned(s.stack[0], op));
    }
  }

  lemma SweptCommutes(w: Exchange, t: InternTable, dead: set<Ref>)
    ensures Swept(RTable(w, t), RRefs(w, dead)) == RTable(w, Swept(t, dead))
  {
    hide RRefs;
    forall x | x in t ensures To(w, t[x]) in RRefs(w, dead) <==> t[x] in dead { ToTwice(w, t[x]); }
  }

  lemma CollectCommutes(w: Exchange, s: Sys, dead: set<Ref>)
    ensures CollectStep(RSys(w, s), RRefs(w, dead)) == RSys(w, CollectStep(s, dead))
  {
    hide RMem, RKeys, RTable, RTx, RStack, RRefs;
    var a, b := CollectStep(RSys(w, s), RRefs(w, dead)), RSys(w, CollectStep(s, dead));
    forall l ensures ObjOf(RLoc(w, l)) == To(w, ObjOf(l)) { }
    forall l | l in b.heap.mem ensures l in a.heap.mem && a.heap.mem[l] == b.heap.mem[l] {
      assert l in RMem(w, s.heap.mem);
    }
    forall l | l in a.heap.mem ensures l in b.heap.mem { }
    assert a.heap.mem == b.heap.mem;
    forall x | x in b.heap.shapes ensures x in a.heap.shapes && a.heap.shapes[x] == b.heap.shapes[x] {
      assert x in RKeys(w, s.heap.shapes);
    }
    forall x | x in a.heap.shapes ensures x in b.heap.shapes { }
    assert a.heap.shapes == b.heap.shapes;
    SweptCommutes(w, s.heap.weak, dead);
  }

  lemma NewTxCommutes(w: Exchange, strict: bool, root: Ref)
    ensures RTx(w, NewTx(strict, root)) == NewTx(strict, To(w, root))
  {
  }

  // ---- Enabledness ----

  lemma RootsAvoidCommutes(w: Exchange, tx: Tx, dead: set<Ref>)
    requires RootsAvoid(tx, dead)
    ensures RootsAvoid(RTx(w, tx), RRefs(w, dead))
  {
    hide RLogs, RKeys, RRefs;
    var tx', dead' := RTx(w, tx), RRefs(w, dead);
    ToTwice(w, tx.root);
    ToTwice(w, tx.lastAllocated);
    forall o | o in tx'.objectLogs ensures o !in dead' && LogAvoids(tx'.objectLogs[o], dead') {
      var log := tx.objectLogs[To(w, o)];
      assert LogAvoids(log, dead);
      forall off | off in log.values && log.values[off].kind == KReference
        ensures RObjectLog(w, log).values[off].value !in dead' {
        ToTwice(w, log.values[off].value);
      }
    }
    forall op | op in tx'.internLogs ensures op.str !in dead' {
      var i :| 0 <= i < |tx'.internLogs| && tx'.internLogs[i] == op;
      assert tx.internLogs[i] in tx.internLogs;
      ToTwice(w, tx.internLogs[i].str);
    }
  }

  lemma CollectableCommutes(w: Exchange, s: Sys, dead: set<Ref>)
    requires Collectable(s, dead)
    ensures Collectable(RSys(w, s), RRefs(w, dead))
  {
    hide RMem, RKeys, RTx, RRefs, RootsAvoid;
    var s', dead' := RSys(w, s), RRefs(w, dead);
    forall l | l in s'.heap.mem ensures SlotAvoids(l, s'.heap.mem[l], dead') {
      var k := RLoc(w, l);
      assert SlotAvoids(k, s.heap.mem[k], dead);
      assert ObjOf(k) == To(w, ObjOf(l));
      if s.heap.mem[k].Pointer? { ToTwice(w, s.heap.mem[k].r); }
    }
    forall t | t in s'.heap.strong ensures s'.heap.strong[t] !in dead' { ToTwice(w, s.heap.strong[t]); }
    forall tx | tx in s'.stack ensures RootsAvoid(tx, dead') {
      var i :| 0 <= i < |s'.stack| && s'.stack[i] == tx;
      RootsAvoidCommutes(w, s.stack[i], dead);
    }
    assert To(w, NULL) == NULL;
  }

  lemma InternAllowedCommutes(w: Exchange, shapes: map<Ref, Shape>, ts: Tables, op: InternOp)
    requires InternAllowed(shapes, ts, op)
    ensures InternAllowed(RKeys(w, shapes), RTables(w, ts), ROp(w, op))
  {
    hide RKeys;
    ToTwice(w, op.str);
  }

  lemma InitCommutes(w: Exchange, shapes: map<Ref, Shape>, r: Ref, sh: Shape, init: map<Loc, Val>, l: Loc)
    requires forall k <- init :: ObjOf(k) == r && ValidSlot(shapes[r := sh], k, init[k])
    requires l in RMem(w, init)
    ensures ObjOf(l) == To(w, r) && ValidSlot(RKeys(w, shapes)[To(w, r) := sh], l, RMem(w, init)[l])
  {
    hide RMem, RKeys, ValidSlot;
    var k := RLoc(w, l);
    LocTwice(w, l);
    assert k in init && RMem(w, init)[l] == RVal(w, init[k]);
    assert ObjOf(l) == To(w, ObjOf(k)) by { ToTwice(w, ObjOf(l)); }
    KeysUpdate(w, shapes, r, sh);
    ValidSlotCommutes(w, shapes[r := sh], k, init[k]);
  }

  lemma AllocateEnabledCommutes(w: Exchange, s: Sys, e: Event)
    requires ValidHeap(s.heap) && e.Allocate? && Enabled(s, e)
    ensures Enabled(RSys(w, s), REvent(w, e))
  {
    hide RMem, RKeys, RTx, RTable, ValidSlot, ValidHeap;
    var Allocate(r, sh, init, _) := e;
    ToTwice(w, r);
    forall l | l in RMem(w, init) ensures ObjOf(l) == To(w, r) && ValidSlot(RKeys(w, s.heap.shapes)[To(w, r) := sh], l, RMem(w, init)[l]) {
      InitCommutes(w, s.heap.shapes, r, sh, init, l);
    }
  }

  lemma FoundCommutes(w: Exchange, shapes: map<Ref, Shape>, ts: Tables, op: InternOp)
    ensures TextOf(RKeys(w, shapes), ROp(w, op).str) in TableOf(RTables(w, ts), ROp(w, op)) <==> TextOf(shapes, op.str) in TableOf(ts, op)
  {
    hide RKeys, TextOf;
    TextCommutes(w, shapes, op.str);
  }

  lemma {:induction false} UndoFindsCommutes(w: Exchange, shapes: map<Ref, Shape>, ops: seq<InternOp>, ts: Tables)
    ensures UndoFinds(RKeys(w, shapes), ROps(w, ops), RTables(w, ts)) <==> UndoFinds(shapes, ops, ts)
  {
    hide RKeys, RTables, ApplyIntern, TextOf, TableOf;
    if ops != [] {
      FoundCommutes(w, shapes, ts, ops[0]);
      ApplyInternCommutes(w, shapes, ts, Inverse(ops[0]));
      assert ROps(w, ops)[1..] == ROps(w, ops[1..]);
      assert Inverse(ROp(w, ops[0])) == ROp(w, Inverse(ops[0]));
      UndoFindsCommutes(w, shapes, ops[1..], ApplyIntern(shapes, ts, Inverse(ops[0])));
    }
  }

  lemma {:induction false} AllOpsCommute(w: Exchange, stack: seq<Tx>)
    ensures AllOps(RStack(w, stack)) == ROps(w, AllOps(stack))
  {
    hide RLogs, RKeys;
    if stack != [] {
      AllOpsCommute(w, stack[1..]);
      assert RStack(w, stack)[1..] == RStack(w, stack[1..]);
    }
  }

  /** Moving objects does not change whether rolling back completes. */
  lemma RollsBackCommutes(w: Exchange, s: Sys)
    ensures RollsBack(RSys(w, s)) <==> RollsBack(s)
  {
    hide UndoFinds, RKeys, RTable, RMem, RStack, AllOps;
    AllOpsCommute(w, s.stack);
    UndoFindsCommutes(w, s.heap.shapes, AllOps(s.stack), TablesOf(s.heap));
  }

  lemma RollbackEnabledCommutes(w: Exchange, s: Sys)
    requires Enabled(s, RollbackExit)
    ensures Enabled(RSys(w, s), RollbackExit)
  {
    hide UndoFinds, RKeys, RTable, RMem, RLogs;
    UndoFindsCommutes(w, s.heap.shapes, s.stack[0].internLogs, TablesOf(s.heap));
  }

  lemma EnabledCommutes(w: Exchange, s: Sys, e: Event)
    requires ValidHeap(s.heap) && Enabled(s, e)
    ensures Enabled(RSys(w, s), REvent(w, e))
  {
    hide RMem, RKeys, RTx, RTable, ValidSlot, ValidHeap, Collectable, InternAllowed, RRefs, UndoFinds;
    match e {
      case Enter(_, root) => ToTwice(w, root); assert To(w, NULL) == NULL;
      case Write(l, v, _) =>
        assert RLoc(w, RLoc(w, l)) == l;
        ValidSlotCommutes(w, s.heap.shapes, l, v);
      case RollbackExit => RollbackEnabledCommutes(w, s);
      case Allocate(_, _, _, _) => AllocateEnabledCommutes(w, s, e);
      case Intern(op) => InternAllowedCommutes(w, s.heap.shapes, TablesOf(s.heap), op);
      case Collect(dead) => CollectableCommutes(w, s, dead);
      case _ =>
    }
  }

  lemma StepCommutes(w: Exchange, s: Sys, e: Event)
    requires ValidHeap(s.heap) && Enabled(s, e)
    ensures ValidHeap(RSys(w, s).heap) && Enabled(RSys(w, s), REvent(w, e))
    ensures Step(RSys(w, s), REvent(w, e)) == RSys(w, Step(s, e))
  {
    hide RMem, RKeys, RTx, RTable, ValidSlot, Undo, WriteStep, AllocateStep, InternStep, CollectStep, RHeap, NewTx, RRefs, ROp;
    ValidHeapCommutes(w, s.heap);
    EnabledCommutes(w, s, e);
    match e {
      case Enter(strict, root) =>
        NewTxCommutes(w, strict, root);
        assert RStack(w, [NewTx(strict, root)] + s.stack) == [RTx(w, NewTx(strict, root))] + RStack(w, s.stack);
      case Exit =>
        assert RStack(w, s.stack)[1..] == RStack(w, s.stack[1..]);
      case RollbackExit =>
        assert RStack(w, s.stack)[1..] == RStack(w, s.stack[1..]);
        CoverOfValid(s.heap);
        UndoCommutes(w, s.stack[0], s.heap);
      case Write(l, v, g) =>
        assert ValidSlot(s.heap.shapes, l, s.heap.mem[l]);
        WriteCommutes(w, s, l, v, g);
      case Allocate(r, sh, init, recorded) => AllocateCommutes(w, s, r, sh, init, recorded);
      case Intern(op) => InternCommutes(w, s, op);
      case Collect(dead) => CollectCommutes(w, s, dead);
    }
  }

  // ---- Runs with moving collections ----

  datatype GcEvent = Mutate(e: Event) | Relocate(w: Exchange)

  ghost predicate GcRuns(s: Sys, gs: seq<GcEvent>)
    decreases |gs|
  {
    gs == [] ||
    match gs[0]
    case Mutate(e) => ValidHeap(s.heap) && Enabled(s, e) && GcRuns(Step(s, e), gs[1..])
    case Relocate(w) => GcRuns(RSys(w, s), gs[1..])
  }

  ghost function GcRun(s: Sys, gs: seq<GcEvent>): Sys
    requires GcRuns(s, gs)
    decreases |gs|
  {
    if gs == [] then s
    else match gs[0]
      case Mutate(e) => GcRun(Step(s, e), gs[1..])
      case Relocate(w) => GcRun(RSys(w, s), gs[1..])
  }

  /** The composite of a sequence of exchanges, first one first. */
  function RSysAll(ws: seq<Exchange>, s: Sys): Sys {
    if ws == [] then s else RSys(ws[|ws| - 1], RSysAll(ws[..|ws| - 1], s))
  }

  function RHeapAll(ws: seq<Exchange>, h: Heap): Heap {
    if ws == [] then h else RHeap(ws[|ws| - 1], RHeapAll(ws[..|ws| - 1], h))
  }

  function ToAll(ws: seq<Exchange>, x: Ref): Ref {
    if ws == [] then x else To(ws[|ws| - 1], ToAll(ws[..|ws| - 1], x))
  }

  /** What an event is about, in terms of the addresses before the exchanges. */
  function OriginalEvent(ws: seq<Exchange>, e: Event): Event {
    if ws == [] then e else OriginalEvent(ws[..|ws| - 1], REvent(ws[|ws| - 1], e))
  }

  function Exchanges(gs: seq<GcEvent>): seq<Exchange> {
    if gs == [] then []
    else (if gs[0].Relocate? then [gs[0].w] else []) + Exchanges(gs[1..])
  }

  /** The run without its collections. */
  function WithoutMoves(ws: seq<Exchange>, gs: seq<GcEvent>): seq<Event>
    decreases |gs|
  {
    if gs == [] then []
    else match gs[0]
      case Mutate(e) => [OriginalEvent(ws, e)] + WithoutMoves(ws, gs[1..])
      case Relocate(w) => WithoutMoves(ws + [w], gs[1..])
  }

  lemma {:induction false} StepCommutesAll(ws: seq<Exchange>, s: Sys, e: Event)
    requires ValidHeap(RSysAll(ws, s).heap) && Enabled(RSysAll(ws, s), e)
    ensures ValidHeap(s.heap) && Enabled(s, OriginalEvent(ws, e))
    ensures Step(RSysAll(ws, s), e) == RSysAll(ws, Step(s, OriginalEvent(ws, e)))
  {
    hide RSys, REvent, Step, Enabled, ValidHeap;
    if ws != [] {
      var w, ws' := ws[|ws| - 1], ws[..|ws| - 1];
      var t := RSysAll(ws', s);
      SysInvolution(w, t);
      EventInvolution(w, e);
      StepCommutes(w, RSys(w, t), e);
      SysInvolution(w, Step(RSys(w, t), e));
      StepCommutesAll(ws', s, REvent(w, e));
    }
  }

  lemma ExchangeLast(ws: seq<Exchange>, w: Exchange, s: Sys)
    ensures RSysAll(ws + [w], s) == RSys(w, RSysAll(ws, s))
  {
    hide RSys;
    assert (ws + [w])[..|ws|] == ws;
  }

  lemma RunNil(s: Sys)
    ensures Runs(s, []) && Run(s, []) == s
  {
  }

  lemma RunCons(s: Sys, e: Event, es: seq<Event>)
    requires ValidHeap(s.heap) && Enabled(s, e) && Runs(Step(s, e), es)
    ensures Runs(s, [e] + es) && Run(s, [e] + es) == Run(Step(s, e), es)
  {
    hide Step, Enabled, ValidHeap;
    assert ([e] + es)[1..] == es;
  }

  /** Every run with collections that move objects is the renamed image of the same run without
      them. */
  lemma {:induction false} MovesOnlyRename(ws: seq<Exchange>, s: Sys, gs: seq<GcEvent>)
    requires GcRuns(RSysAll(ws, s), gs)
    ensures Runs(s, WithoutMoves(ws, gs))
    ensures GcRun(RSysAll(ws, s), gs) == RSysAll(ws + Exchanges(gs), Run(s, WithoutMoves(ws, gs)))
    decreases |gs|
  {
    hide RSys, RSysAll, REvent, Step, Enabled, ValidHeap, Run, Runs, OriginalEvent;
    if gs == [] {
      assert Runs(s, []) && Run(s, []) == s by { RunNil(s); }
      assert ws + Exchanges(gs) == ws;
    } else {
      match gs[0] {
        case Mutate(e) =>
          StepCommutesAll(ws, s, e);
          var e' := OriginalEvent(ws, e);
          MovesOnlyRename(ws, Step(s, e'), gs[1..]);
          RunCons(s, e', WithoutMoves(ws, gs[1..]));
          assert Exchanges(gs) == Exchanges(gs[1..]);
        case Relocate(w) =>
          ExchangeLast(ws, w, s);
          MovesOnlyRename(ws + [w], s, gs[1..]);
          assert ws + Exchanges(gs) == ws + [w] + Exchanges(gs[1..]);
      }
    }
  }

  lemma {:induction false} RollsBackAfterMoves(ws: seq<Exchange>, s: Sys)
    ensures RollsBack(RSysAll(ws, s)) <==> RollsBack(s)
  {
    hide RSys, RollsBack;
    if ws != [] {
      RollsBackAfterMoves(ws[..|ws| - 1], s);
      RollsBackCommutes(ws[|ws| - 1], RSysAll(ws[..|ws| - 1], s));
    }
  }

  lemma HeapParts(w: Exchange, h: Heap)
    ensures RHeap(w, h).mem == RMem(w, h.mem) && RHeap(w, h).shapes == RKeys(w, h.shapes)
  {
  }

  lemma {:induction false} RollbackCommutesAll(ws: seq<Exchange>, s: Sys)
    requires ShapesCover(s.heap.mem, s.heap.shapes)
    ensures ShapesCover(RSysAll(ws, s).heap.mem, RSysAll(ws, s).heap.shapes)
    ensures RollbackAll(RSysAll(ws, s).stack, RSysAll(ws, s).heap) == RHeapAll(ws, RollbackAll(s.stack, s.heap))
  {
    hide RHeap, RStack, RollbackAll;
    if ws != [] {
      var w, ws' := ws[|ws| - 1], ws[..|ws| - 1];
      RollbackCommutesAll(ws', s);
      var t := RSysAll(ws', s);
      RollbackAllCommutes(w, t.stack, t.heap);
      assert RHeap(w, t.heap).mem == RMem(w, t.heap.mem) && RHeap(w, t.heap).shapes == RKeys(w, t.heap.shapes) by { HeapParts(w, t.heap); }
    }
  }

  /** For every run interleaved with moving collections, rolling back everything at the end gives
      the renamed image of what rolling back gives when nothing ever moved. */
  lemma RollbackCommutesWithMoving(s: Sys, gs: seq<GcEvent>)
    requires ValidHeap(s.heap) && s.stack == [] && GcRuns(s, gs)
    ensures Runs(s, WithoutMoves([], gs))
    ensures var t, t' := Run(s, WithoutMoves([], gs)), GcRun(s, gs);
      && ShapesCover(t.heap.mem, t.heap.shapes) && ShapesCover(t'.heap.mem, t'.heap.shapes)
      && (RollsBack(t') <==> RollsBack(t))
      && RollbackAll(t'.stack, t'.heap) == RHeapAll(Exchanges(gs), RollbackAll(t.stack, t.heap))
  {
    hide RollbackAll, Run, GcRun, RollsBack;
    MovesOnlyRename([], s, gs);
    assert [] + Exchanges(gs) == Exchanges(gs);
    assert RSysAll([], s) == s;
    var es := WithoutMoves([], gs);
    RunKeeps(s, [], es);
    CoverOfValid(Run(s, es).heap);
    RollbackCommutesAll(Exchanges(gs), Run(s, es));
    RollsBackAfterMoves(Exchanges(gs), Run(s, es));
  }

  function RLocAll(ws: seq<Exchange>, l: Loc): Loc {
    match l case Field(o, off) => Field(ToAll(ws, o), off) case Elem(a, i) => Elem(ToAll(ws, a), i)
  }

  function RValAll(ws: seq<Exchange>, v: Val): Val {
    if v.Pointer? then Pointer(ToAll(ws, v.r)) else v
  }

  lemma {:induction false} RenamedSlot(ws: seq<Exchange>, h: Heap, l: Loc)
    requires l in h.mem
    ensures RLocAll(ws, l) in RHeapAll(ws, h).mem && RHeapAll(ws, h).mem[RLocAll(ws, l)] == RValAll(ws, h.mem[l])
  {
    hide RMem, RKeys, RTable;
    if ws != [] {
      var w, ws' := ws[|ws| - 1], ws[..|ws| - 1];
      RenamedSlot(ws', h, l);
      var k := RLocAll(ws', l);
      assert RLocAll(ws, l) == RLoc(w, k) && RLoc(w, RLoc(w, k)) == k;
    }
  }

  lemma {:induction false} RenamedTables(ws: seq<Exchange>, h: Heap, t: string)
    ensures t in RHeapAll(ws, h).strong <==> t in h.strong
    ensures t in RHeapAll(ws, h).weak <==> t in h.weak
    ensures t in h.strong ==> RHeapAll(ws, h).strong[t] == ToAll(ws, h.strong[t])
    ensures t in h.weak ==> RHeapAll(ws, h).weak[t] == ToAll(ws, h.weak[t])
  {
    if ws != [] {
      RenamedTables(ws[..|ws| - 1], h, t);
    }
  }

  predicate UncommittedGc(gs: seq<GcEvent>, depth: nat) {
    gs == [] ||
    match gs[0]
    case Relocate(_) => UncommittedGc(gs[1..], depth)
    case Mutate(Enter(_, _)) => UncommittedGc(gs[1..], depth + 1)
    case Mutate(Exit) => false
    case Mutate(RollbackExit) => depth > 1 && UncommittedGc(gs[1..], depth - 1)
    case _ => UncommittedGc(gs[1..], depth)
  }

  lemma {:induction false} OriginalKind(ws: seq<Exchange>, e: Event)
    ensures var o := OriginalEvent(ws, e);
      (o.Exit? <==> e.Exit?) && (o.RollbackExit? <==> e.RollbackExit?) && (o.Enter? <==> e.Enter?)
  {
    if ws != [] {
      OriginalKind(ws[..|ws| - 1], REvent(ws[|ws| - 1], e));
    }
  }

  lemma {:induction false} UncommittedWithoutMoves(ws: seq<Exchange>, gs: seq<GcEvent>, depth: nat)
    requires UncommittedGc(gs, depth)
    ensures Uncommitted(WithoutMoves(ws, gs), depth)
    decreases |gs|
  {
    hide OriginalEvent;
    if gs != [] {
      match gs[0] {
        case Mutate(e) =>
          UncommittedWithoutMoves(ws, gs[1..], if e.Enter? then depth + 1 else if e.RollbackExit? then depth - 1 else depth);
          OriginalKind(ws, e);
        case Relocate(w) =>
          UncommittedWithoutMoves(ws + [w], gs[1..], depth);
      }
    }
  }

  /** A heap without a trace of the run, after its objects have moved. */
  lemma RenamedTrace(before: Heap, es: seq<Event>, after: Heap, ws: seq<Exchange>)
    requires LeftNoTrace(before, es, after)
    ensures var r := RHeapAll(ws, after);
      && (forall o, off :: Field(o, off) in before.mem && NeverFreed(es, o) ==>
            && o in before.shapes && Field(ToAll(ws, o), off) in r.mem
            && (off != 0 && !(before.shapes[o].isArray && off == 8) ==>
                  r.mem[Field(ToAll(ws, o), off)] == RValAll(ws, before.mem[Field(o, off)])))
      && (forall a, i :: Elem(a, i) in before.mem && NeverFreed(es, a) ==>
            && Elem(ToAll(ws, a), i) in r.mem
            && (var v := before.mem[Elem(a, i)];
                (v.Fp? ==> 0.0 <= v.x < 18446744073709551616.0 && v.x == v.x.Floor as real) ==> r.mem[Elem(ToAll(ws, a), i)] == RValAll(ws, v)))
      && (forall x <- before.strong :: x in r.strong && r.strong[x] == ToAll(ws, before.strong[x]))
      && (forall x <- r.weak :: x in before.weak && r.weak[x] == ToAll(ws, before.weak[x]))
      && r.strong.Keys == before.strong.Keys && r.weak.Keys == Unfreed(before.weak, es).Keys
  {
    hide RHeapAll, RValAll, ToAll, NeverFreed;
    var r := RHeapAll(ws, after);
    forall o, off | Field(o, off) in after.mem
      ensures Field(ToAll(ws, o), off) in r.mem && r.mem[Field(ToAll(ws, o), off)] == RValAll(ws, after.mem[Field(o, off)]) {
      RenamedSlot(ws, after, Field(o, off));
    }
    forall a, i | Elem(a, i) in after.mem
      ensures Elem(ToAll(ws, a), i) in r.mem && r.mem[Elem(ToAll(ws, a), i)] == RValAll(ws, after.mem[Elem(a, i)]) {
      RenamedSlot(ws, after, Elem(a, i));
    }
    forall x
      ensures (x in r.strong <==> x in after.strong) && (x in r.weak <==> x in after.weak)
      ensures x in after.strong ==> r.strong[x] == ToAll(ws, after.strong[x])
      ensures x in after.weak ==> r.weak[x] == ToAll(ws, after.weak[x])
    {
      RenamedTables(ws, after, x);
    }
  }

  /** The main restoration result with moving collections in it: however the objects move while a
      transaction and the ones nested in it run, rolling everything back leaves every object that
      existed at entry and was not freed, at its new address, with the values it had at entry
      (references renamed), the strong intern table with its entries at entry, and the weak one
      with those whose strings were not freed. */
  lemma AbortedMovingRunLeavesNoTrace(s: Sys, strict: bool, root: Ref, gs: seq<GcEvent>)
    requires ValidHeap(s.heap) && s.stack == [] && UncommittedGc(gs, 1)
    requires GcRuns(s, [Mutate(Enter(strict, root))] + gs)
    ensures var run := [Mutate(Enter(strict, root))] + gs;
      var t, ws := GcRun(s, run), Exchanges(run);
      && ShapesCover(t.heap.mem, t.heap.shapes) && RollsBack(t)
      && var r := RollbackAll(t.stack, t.heap);
      && (forall o, off :: Field(o, off) in s.heap.mem && NeverFreed(WithoutMoves([], gs), o) ==>
            && o in s.heap.shapes && Field(ToAll(ws, o), off) in r.mem
            && (off != 0 && !(s.heap.shapes[o].isArray && off == 8) ==>
                  r.mem[Field(ToAll(ws, o), off)] == RValAll(ws, s.heap.mem[Field(o, off)])))
      && (forall a, i :: Elem(a, i) in s.heap.mem && NeverFreed(WithoutMoves([], gs), a) ==>
            && Elem(ToAll(ws, a), i) in r.mem
            && (var v := s.heap.mem[Elem(a, i)];
                (v.Fp? ==> 0.0 <= v.x < 18446744073709551616.0 && v.x == v.x.Floor as real) ==> r.mem[Elem(ToAll(ws, a), i)] == RValAll(ws, v)))
      && (forall x <- s.heap.strong :: x in r.strong && r.strong[x] == ToAll(ws, s.heap.strong[x]))
      && (forall x <- r.weak :: x in s.heap.weak && r.weak[x] == ToAll(ws, s.heap.weak[x]))
      && r.strong.Keys == s.heap.strong.Keys && r.weak.Keys == Unfreed(s.heap.weak, WithoutMoves([], gs)).Keys
  {
    hide Run, GcRun, RollbackAll, RHeapAll, RValAll, ToAll, RollsBack, ValidHeap, LeftNoTrace, NeverFreed, Unfreed;
    var run := [Mutate(Enter(strict, root))] + gs;
    var t, ws := GcRun(s, run), Exchanges(run);
    RollbackCommutesWithMoving(s, run);
    assert run[1..] == gs;
    UncommittedWithoutMoves([], gs, 1);
    var es := WithoutMoves([], gs);
    assert OriginalEvent([], Enter(strict, root)) == Enter(strict, root);
    assert WithoutMoves([], run) == [Enter(strict, root)] + es;
    AbortedRunLeavesNoTrace(s, strict, root, es);
    var u := Run(s, [Enter(strict, root)] + es);
    var r0 := RollbackAll(u.stack, u.heap);
    var r := RollbackAll(t.stack, t.heap);
    assert r == RHeapAll(ws, r0);
    RenamedTrace(s.heap, es, r0, ws);
  }

  // ---- A collection's moves as exchanges ----

  lemma {:induction false} ToAllInjective(ws: seq<Exchange>, x: Ref, y: Ref)
    ensures ToAll(ws, x) == ToAll(ws, y) <==> x == y
    ensures ToAll(ws, NULL) == NULL
  {
    if ws != [] {
      ToAllInjective(ws[..|ws| - 1], x, y);
    }
  }

  ghost predicate MovesApart(m: map<Ref, Ref>) {
    (forall x <- m :: x != NULL && m[x] != NULL) && (forall x, y :: x in m && y in m && x != y ==> m[x] != m[y])
  }

  /** Any finite move of objects to distinct addresses is a sequence of exchanges. */
  lemma {:induction false} EveryMoveIsExchanges(m: map<Ref, Ref>) returns (ws: seq<Exchange>)
    requires MovesApart(m)
    ensures forall x <- m :: ToAll(ws, x) == m[x]
    decreases |m|
  {
    ws := [];
    if m != map[] {
      assert m.Keys != {};
      var x :| x in m;
      var rest := m - {x};
      var ws' := EveryMoveIsExchanges(rest);
      ToAllInjective(ws', x, NULL);
      ws := ws' + [Exchange(ToAll(ws', x), m[x])];
      assert ws[..|ws| - 1] == ws';
      forall z | z in m ensures ToAll(ws, z) == m[z] {
        ToAllInjective(ws', z, x);
      }
    }
  }

  // ---- Logs stay well formed when objects move ----

  lemma FlaggedNewCommutes(w: Exchange, tx: Tx, shapes: map<Ref, Shape>, r: Ref)
    ensures FlaggedNew(RTx(w, tx), RKeys(w, shapes), To(w, r)) <==> FlaggedNew(tx, shapes, r)
  {
    hide ROps, RFieldValue;
    ToTwice(w, r);
    assert To(w, r) in RKeys(w, shapes) <==> r in shapes;
    assert To(w, r) in RLogs(w, tx.objectLogs) <==> r in tx.objectLogs;
    assert To(w, r) in RKeys(w, tx.arrayLogs) <==> r in tx.arrayLogs;
  }

  lemma ValidObjectLogCommutes(w: Exchange, h: Heap, o: Ref, log: ObjectLog)
    requires ValidObjectLog(h, o, log)
    ensures ValidObjectLog(RHeap(w, h), To(w, o), RObjectLog(w, log))
  {
    hide RMem, RKeys, RTable;
    var h', log' := RHeap(w, h), RObjectLog(w, log);
    ToTwice(w, o);
    forall off | off in log'.values ensures ValidFieldEntry(h', To(w, o), off, log'.values[off]) {
      assert ValidFieldEntry(h, o, off, log.values[off]);
      assert RLoc(w, Field(To(w, o), off)) == Field(o, off);
      ToTwice(w, log.values[off].value);
      assert To(w, log.values[off].value) in h'.shapes <==> log.values[off].value in h.shapes;
    }
  }

  lemma ValidArrayLogCommutes(w: Exchange, h: Heap, a: Ref, log: ArrayLog)
    requires ValidArrayLog(h, a, log)
    ensures ValidArrayLog(RHeap(w, h), To(w, a), log)
  {
    hide RMem, RKeys, RTable;
    ToTwice(w, a);
    forall i | i in log.values ensures Elem(To(w, a), i) in RMem(w, h.mem) {
      assert RLoc(w, Elem(To(w, a), i)) == Elem(a, i);
    }
  }

  lemma ValidTxCommutes(w: Exchange, tx: Tx, h: Heap)
    requires ValidTx(tx, h)
    ensures ValidTx(RTx(w, tx), RHeap(w, h))
  {
    hide RMem, RKeys, RTable, RLogs, RObjectLog, FlaggedNew, ValidObjectLog, ValidArrayLog;
    var tx', h' := RTx(w, tx), RHeap(w, h);
    ToTwice(w, tx.root);
    ToTwice(w, tx.lastAllocated);
    FlaggedNewCommutes(w, tx, h.shapes, tx.lastAllocated);
    forall o | o in tx'.objectLogs ensures ValidObjectLog(h', o, tx'.objectLogs[o]) {
      ToTwice(w, o);
      ValidObjectLogCommutes(w, h, To(w, o), tx.objectLogs[To(w, o)]);
    }
    forall a | a in tx'.arrayLogs ensures ValidArrayLog(h', a, tx'.arrayLogs[a]) {
      ToTwice(w, a);
      ValidArrayLogCommutes(w, h, To(w, a), tx.arrayLogs[To(w, a)]);
    }
    forall op | op in tx'.internLogs ensures op.str in h'.shapes {
      var i :| 0 <= i < |tx'.internLogs| && tx'.internLogs[i] == op;
      assert tx.internLogs[i] in tx.internLogs;
      ToTwice(w, tx.internLogs[i].str);
    }
    assert To(w, NULL) == NULL;
  }

  lemma {:induction false} ValidCommutesAll(ws: seq<Exchange>, s: Sys)
    requires AllValid(s.stack, s.heap)
    ensures AllValid(RSysAll(ws, s).stack, RSysAll(ws, s).heap)
  {
    hide RHeap, RTx, ValidTx;
    if ws != [] {
      var w, t := ws[|ws| - 1], RSysAll(ws[..|ws| - 1], s);
      ValidCommutesAll(ws[..|ws| - 1], s);
      forall i | 0 <= i < |t.stack| ensures ValidTx(RStack(w, t.stack)[i], RHeap(w, t.heap)) {
        ValidTxCommutes(w, t.stack[i], t.heap);
      }
    }
  }

  /** In every state of every run, moving collections included, each open transaction's log
      mentions only live objects and slots, and its cached last allocation is flagged as new in
      the log that owns its kind. */
  lemma LogsStayValidWhenMoving(s: Sys, gs: seq<GcEvent>)
    requires ValidHeap(s.heap) && s.stack == [] && GcRuns(s, gs)
    ensures AllValid(GcRun(s, gs).stack, GcRun(s, gs).heap)
  {
    hide Run, GcRun, ValidTx, RSys;
    MovesOnlyRename([], s, gs);
    assert [] + Exchanges(gs) == Exchanges(gs);
    assert RSysAll([], s) == s;
    RunKeeps(s, [], WithoutMoves([], gs));
    ValidCommutesAll(Exchanges(gs), Run(s, WithoutMoves([], gs)));
  }
}
