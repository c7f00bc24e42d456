/** A transaction as a mutable object with its logs. Each operation is proved to be the function of
    the transaction model that it stands for. */
module TransactionImpl {
  import opened Sets
  import opened HeapModel
  import opened TransactionModel
  import opened TransactionRuns
  import opened RootVisit

  /** The managed heap, shared by the linker and its transactions. */
  class ManagedHeap {
    var h: Heap

    constructor (h: Heap)
      ensures this.h == h
    {
      this.h := h;
    }
  }

  // ---- Undo, one kind of log at a time ----

  /** The slot after the entries at `offs` have been put back into `obj`. */
  function UndoneOffset(log: ObjectLog, offs: set<nat>, obj: Ref, sh: Shape, l: Loc, cur: Val): Val {
    if l.Field? && l.obj == obj && l.off in offs && l.off in log.values && Rollbackable(sh, l)
    then DecodeField(log.values[l.off].kind, log.values[l.off].value) else cur
  }

  /** The slot after the object logs of `done` have been undone. */
  function UndoneField(logs: map<Ref, ObjectLog>, done: set<Ref>, sh: Shape, l: Loc, cur: Val): Val {
    if l.Field? && l.obj in done && l.obj in logs then UndoneOffset(logs[l.obj], logs[l.obj].values.Keys, l.obj, sh, l, cur) else cur
  }

  function UndoneIndex(log: ArrayLog, idxs: set<nat>, arr: Ref, p: Prim, l: Loc, cur: Val): Val {
    if l.Elem? && l.arr == arr && l.idx in idxs && l.idx in log.values then DecodeElem(p, log.values[l.idx]) else cur
  }

  function UndoneElem(logs: map<Ref, ArrayLog>, done: set<Ref>, sh: Shape, l: Loc, cur: Val): Val {
    if l.Elem? && l.arr in done && l.arr in logs && sh.elem.Some?
    then UndoneIndex(logs[l.arr], logs[l.arr].values.Keys, l.arr, sh.elem.value, l, cur) else cur
  }

  ghost predicate FieldsUndone(logs: map<Ref, ObjectLog>, done: set<Ref>, h: Heap, mem: map<Loc, Val>) {
    forall l <- h.mem :: ObjOf(l) in h.shapes && l in mem && mem[l] == UndoneField(logs, done, h.shapes[ObjOf(l)], l, h.mem[l])
  }

  ghost predicate ElemsUndone(logs: map<Ref, ArrayLog>, done: set<Ref>, h: Heap, mem: map<Loc, Val>) {
    forall l <- h.mem :: ObjOf(l) in h.shapes && l in mem && mem[l] == UndoneElem(logs, done, h.shapes[ObjOf(l)], l, h.mem[l])
  }

  lemma SetOfSnoc(ks: seq<Ref>, i: nat)
    requires i < |ks|
    ensures SetOf(ks[..i + 1]) == SetOf(ks[..i]) + {ks[i]}
  {
    assert ks[..i + 1] == ks[..i] + [ks[i]];
  }

  lemma SetOfAll(ks: seq<Ref>, s: set<Ref>)
    requires forall x :: x in ks <==> x in s
    ensures SetOf(ks[..|ks|]) == s
  {
    assert ks[..|ks|] == ks;
  }

  ghost predicate OffsetsUndone(log: ObjectLog, offs: set<nat>, obj: Ref, sh: Shape, mem: map<Loc, Val>, r: map<Loc, Val>) {
    r.Keys == mem.Keys && forall l <- mem :: r[l] == UndoneOffset(log, offs, obj, sh, l, mem[l])
  }

  /** One more offset, put back unless a rollback leaves its word alone. */
  lemma OneMoreOffset(log: ObjectLog, offs: set<nat>, obj: Ref, sh: Shape, mem: map<Loc, Val>, r: map<Loc, Val>, off: nat)
    requires OffsetsUndone(log, offs, obj, sh, mem, r) && off in log.values && Field(obj, off) in mem
    ensures !Rollbackable(sh, Field(obj, off)) ==> OffsetsUndone(log, offs + {off}, obj, sh, mem, r)
    ensures Rollbackable(sh, Field(obj, off)) ==>
      OffsetsUndone(log, offs + {off}, obj, sh, mem, r[Field(obj, off) := DecodeField(log.values[off].kind, log.values[off].value)])
  {
    hide DecodeField;
  }

  lemma NothingUndone(log: ObjectLog, obj: Ref, sh: Shape, mem: map<Loc, Val>)
    ensures OffsetsUndone(log, SetOf([]), obj, sh, mem, mem)
  {
  }

  /** `ObjectLog::Undo`: skips the class word and an array's length. */
  method UndoObjectLog(log: ObjectLog, obj: Ref, mem: map<Loc, Val>, sh: Shape) returns (r: map<Loc, Val>)
    requires forall off <- log.values :: Field(obj, off) in mem
    ensures r.Keys == mem.Keys
    ensures forall l <- mem :: r[l] == UndoneOffset(log, log.values.Keys, obj, sh, l, mem[l])
    ensures forall off <- log.values :: off != 0 && !(sh.isArray && off == 8) ==>
      r[Field(obj, off)] == DecodeField(log.values[off].kind, log.values[off].value)
    ensures forall l <- mem :: !(l.Field? && l.obj == obj && l.off in log.values && l.off != 0 && !(sh.isArray && l.off == 8)) ==> r[l] == mem[l]
  {
    hide DecodeField, SetOf;
    r := mem;
    var offs := KeysInOrder(log.values.Keys);
    assert offs[..0] == [];
    NothingUndone(log, obj, sh, mem);
    for i := 0 to |offs|
      invariant OffsetsUndone(log, SetOf(offs[..i]), obj, sh, mem, r)
    {
      hide OffsetsUndone;
      var off := offs[i];
      SetOfSnoc(offs, i);
      OneMoreOffset(log, SetOf(offs[..i]), obj, sh, mem, r, off);
      if off == CLASS_OFFSET { continue; }
      if sh.isArray && off == LENGTH_OFFSET { continue; }
      r := r[Field(obj, off) := DecodeField(log.values[off].kind, log.values[off].value)];
    }
    SetOfAll(offs, log.values.Keys);
  }

  /** `ArrayLog::Undo`. */
  method UndoArrayLog(log: ArrayLog, arr: Ref, mem: map<Loc, Val>, p: Prim) returns (r: map<Loc, Val>)
    requires forall i <- log.values :: Elem(arr, i) in mem
    ensures r.Keys == mem.Keys
    ensures forall l <- mem :: r[l] == UndoneIndex(log, log.values.Keys, arr, p, l, mem[l])
  {
    hide DecodeElem;
    r := mem;
    var idxs := KeysInOrder(log.values.Keys);
    for i := 0 to |idxs|
      invariant r.Keys == mem.Keys
      invariant forall l <- mem :: r[l] == UndoneIndex(log, SetOf(idxs[..i]), arr, p, l, mem[l])
    {
      hide SetOf;
      SetOfSnoc(idxs, i);
      assert Elem(arr, idxs[i]) in mem;
      r := r[Elem(arr, idxs[i]) := DecodeElem(p, log.values[idxs[i]])];
    }
    SetOfAll(idxs, log.values.Keys);
  }

  /** One more object: its own slots are undone, no other slot changes. */
  lemma OneMoreObject(logs: map<Ref, ObjectLog>, done: set<Ref>, h: Heap, mem: map<Loc, Val>, r: map<Loc, Val>, obj: Ref)
    requires FieldsUndone(logs, done, h, mem) && obj in logs && obj !in done && obj in h.shapes && r.Keys == mem.Keys
    requires forall l <- mem :: r[l] == UndoneOffset(logs[obj], logs[obj].values.Keys, obj, h.shapes[obj], l, mem[l])
    ensures FieldsUndone(logs, done + {obj}, h, r)
  {
    hide DecodeField, Rollbackable;
  }

  lemma OneMoreArray(logs: map<Ref, ArrayLog>, done: set<Ref>, h: Heap, mem: map<Loc, Val>, r: map<Loc, Val>, arr: Ref)
    requires ElemsUndone(logs, done, h, mem) && arr in logs && arr !in done && arr in h.shapes && h.shapes[arr].elem.Some? && r.Keys == mem.Keys
    requires forall l <- mem :: r[l] == UndoneIndex(logs[arr], logs[arr].values.Keys, arr, h.shapes[arr].elem.value, l, mem[l])
    ensures ElemsUndone(logs, done + {arr}, h, r)
  {
    hide DecodeElem;
  }

  /** What the visitor makes of a log's own references. */
  function VisitedFieldValue(moves: map<Ref, Ref>, fv: FieldValue): FieldValue {
    if fv.kind == KReference && fv.value != NULL then fv.(value := Visited(moves, fv.value)) else fv
  }

  function VisitedObjectLog(moves: map<Ref, Ref>, log: ObjectLog): ObjectLog {
    log.(values := map off <- log.values :: VisitedFieldValue(moves, log.values[off]))
  }

  function VisitedLogValues(moves: map<Ref, Ref>, logs: map<Ref, ObjectLog>): map<Ref, ObjectLog> {
    map o <- logs :: VisitedObjectLog(moves, logs[o])
  }

  function VisitedOp(moves: map<Ref, Ref>, op: InternOp): InternOp { op.(str := Visited(moves, op.str)) }

  /** No key of a log moves down onto the old address of a smaller key. */
  ghost predicate CanRekey(moves: map<Ref, Ref>, tx: Tx) {
    forall o :: !MovesDownOnto(moves, tx.objectLogs.Keys, o) && !MovesDownOnto(moves, tx.arrayLogs.Keys, o)
  }

  /** `tx'` is `tx` with every root replaced by where the visitor says it is. */
  ghost predicate VisitedTx(moves: map<Ref, Ref>, tx: Tx, tx': Tx) {
    && tx'.strict == tx.strict && tx'.aborted == tx.aborted
    && tx'.root == Visited(moves, tx.root) && tx'.lastAllocated == Visited(moves, tx.lastAllocated)
    && Rekeyed(moves, VisitedLogValues(moves, tx.objectLogs), tx'.objectLogs)
    && Rekeyed(moves, tx.arrayLogs, tx'.arrayLogs)
    && |tx'.internLogs| == |tx.internLogs|
    && forall i :: 0 <= i < |tx.internLogs| ==> tx'.internLogs[i] == VisitedOp(moves, tx.internLogs[i])
  }

  lemma NotYetUndone(ks: seq<Ref>, i: nat)
    requires Ascending(ks) && i < |ks|
    ensures ks[i] !in SetOf(ks[..i])
  {
  }

  /** Undoing the object logs and then the array logs, in key order, is the order-free undo. */
  lemma UndoneIsUndo(tx: Tx, h0: Heap, h1: Heap, h2: Heap)
    requires ShapesCover(h0.mem, h0.shapes) && h1.shapes == h0.shapes && h1.mem.Keys == h0.mem.Keys == h2.mem.Keys
    requires FieldsUndone(tx.objectLogs, tx.objectLogs.Keys, h0, h1.mem)
    requires ElemsUndone(tx.arrayLogs, tx.arrayLogs.Keys, h1, h2.mem)
    ensures h2.mem == UndoMem(tx, h0.mem, h0.shapes)
  {
    hide DecodeField, DecodeElem;
  }

  /** Some store to an object that is not new changes the log. */
  lemma SomeFieldIsLogged(tx: Tx, obj: Ref)
    requires obj != tx.lastAllocated
    ensures obj in tx.objectLogs && tx.objectLogs[obj].isNew <==>
      forall off, fv :: TransactionModel.RecordWriteField(tx, obj, off, fv) == tx
  {
    if obj in tx.objectLogs && tx.objectLogs[obj].isNew {
      assert tx.objectLogs[obj := tx.objectLogs[obj]] == tx.objectLogs;
    } else {
      var fv := FieldValue(KBoolean, 0);
      var off := UpperBound(ObjectLogOf(tx, obj).values.Keys);
      var log := TransactionModel.RecordWriteField(tx, obj, off, fv).objectLogs[obj];
      assert off in log.values && off !in ObjectLogOf(tx, obj).values;
    }
  }

  lemma SomeElementIsLogged(tx: Tx, arr: Ref)
    requires arr != tx.lastAllocated
    ensures arr in tx.arrayLogs && tx.arrayLogs[arr].isNew <==>
      forall idx, word :: TransactionModel.RecordWriteArray(tx, arr, idx, word) == tx
  {
    if arr in tx.arrayLogs && tx.arrayLogs[arr].isNew {
      assert tx.arrayLogs[arr := tx.arrayLogs[arr]] == tx.arrayLogs;
    } else {
      var idx := UpperBound(ArrayLogOf(tx, arr).values.Keys);
      var log := TransactionModel.RecordWriteArray(tx, arr, idx, 0).arrayLogs[arr];
      assert idx in log.values && idx !in ArrayLogOf(tx, arr).values;
    }
  }

  class Transaction {
    const strict: bool
    var root: Ref
    var objectLogs: map<Ref, ObjectLog>
    var arrayLogs: map<Ref, ArrayLog>
    var internLogs: seq<InternOp>
    var lastAllocated: Ref
    var aborted: bool
    var rollingBack: bool

    ghost function View(): Tx
      reads this
    {
      Tx(strict, root, objectLogs, arrayLogs, internLogs, lastAllocated, aborted)
    }

    constructor (strict: bool, root: Ref)
      ensures View() == NewTx(strict, root) && !rollingBack
    {
      this.strict, this.root := strict, root;
      objectLogs, arrayLogs, internLogs := map[], map[], [];
      lastAllocated, aborted, rollingBack := NULL, false, false;
    }

    method Abort()
      modifies `aborted
      ensures View() == old(View()).(aborted := true)
    {
      aborted := true;
    }

    method RecordNewObject(obj: Ref)
      modifies `lastAllocated, `objectLogs
      ensures View() == TransactionModel.RecordNewObject(old(View()), obj)
    {
      lastAllocated := obj;
      objectLogs := objectLogs[obj := ObjectLog(true, map[])];
    }

    method RecordNewArray(sh: Shape, arr: Ref)
      modifies `lastAllocated, `objectLogs, `arrayLogs
      ensures View() == TransactionModel.RecordNewArray(old(View()), sh, arr)
    {
      if sh.elem.None? {
        RecordNewObject(arr);
        return;
      }
      lastAllocated := arr;
      arrayLogs := arrayLogs[arr := ArrayLog(true, map[])];
    }

    /** False exactly when recording a store to `obj` changes no log, whichever store it is. */
    method ObjectNeedsTransactionRecords(obj: Ref) returns (b: bool)
      ensures !b <==> forall off, fv :: TransactionModel.RecordWriteField(View(), obj, off, fv) == View()
    {
      if obj == lastAllocated { return false; }
      b := obj !in objectLogs || !objectLogs[obj].isNew;
      SomeFieldIsLogged(View(), obj);
    }

    /** The same for primitive arrays. */
    method ArrayNeedsTransactionRecords(arr: Ref) returns (b: bool)
      ensures !b <==> forall idx, word :: TransactionModel.RecordWriteArray(View(), arr, idx, word) == View()
    {
      if arr == lastAllocated { return false; }
      b := arr !in arrayLogs || !arrayLogs[arr].isNew;
      SomeElementIsLogged(View(), arr);
    }

    method RecordWriteField(obj: Ref, off: nat, fv: FieldValue)
      modifies `objectLogs
      ensures View() == TransactionModel.RecordWriteField(old(View()), obj, off, fv)
    {
      if obj != lastAllocated {
        if obj !in objectLogs {
          objectLogs := objectLogs[obj := ObjectLog(false, map[])];
        }
        var log := objectLogs[obj];
        if log.isNew { return; }
        if off !in log.values {
          objectLogs := objectLogs[obj := log.(values := log.values[off := fv])];
        }
      }
    }

    method RecordWriteArray(arr: Ref, idx: nat, word: nat)
      modifies `arrayLogs
      ensures View() == TransactionModel.RecordWriteArray(old(View()), arr, idx, word)
    {
      if arr != lastAllocated {
        if arr !in arrayLogs {
          arrayLogs := arrayLogs[arr := ArrayLog(false, map[])];
        }
        var log := arrayLogs[arr];
        if log.isNew { return; }
        if idx !in log.values {
          arrayLogs := arrayLogs[arr := log.(values := log.values[idx := word])];
        }
      }
    }

    method LogInternedString(op: InternOp)
      modifies `internLogs
      ensures View() == LogInterned(old(View()), op)
    {
      internLogs := [op] + internLogs;
    }

    method UndoObjectModifications(heap: ManagedHeap)
      requires ShapesCover(heap.h.mem, heap.h.shapes)
      requires forall o <- objectLogs :: ValidObjectLog(heap.h, o, objectLogs[o])
      modifies heap, `objectLogs
      ensures objectLogs == map[] && heap.h == old(heap.h).(mem := heap.h.mem)
      ensures heap.h.mem.Keys == old(heap.h.mem).Keys
      ensures FieldsUndone(old(objectLogs), old(objectLogs).Keys, old(heap.h), heap.h.mem)
    {
      hide DecodeField;
      ghost var h0 := heap.h;
      var objs := KeysInOrder(objectLogs.Keys);
      for i := 0 to |objs|
        invariant heap.h == h0.(mem := heap.h.mem) && heap.h.mem.Keys == h0.mem.Keys && objectLogs == old(objectLogs)
        invariant FieldsUndone(objectLogs, SetOf(objs[..i]), h0, heap.h.mem)
      {
        hide FieldsUndone, UndoneOffset;
        var obj := objs[i];
        var log := objectLogs[obj];
        assert ValidObjectLog(h0, obj, log);
        assert forall off <- log.values :: ValidFieldEntry(h0, obj, off, log.values[off]);
        var r := UndoObjectLog(log, obj, heap.h.mem, heap.h.shapes[obj]);
        NotYetUndone(objs, i);
        SetOfSnoc(objs, i);
        OneMoreObject(objectLogs, SetOf(objs[..i]), h0, heap.h.mem, r, obj);
        heap.h := heap.h.(mem := r);
      }
      SetOfAll(objs, objectLogs.Keys);
      objectLogs := map[];
    }

    method UndoArrayModifications(heap: ManagedHeap)
      requires ShapesCover(heap.h.mem, heap.h.shapes)
      requires forall a <- arrayLogs :: ValidArrayLog(heap.h, a, arrayLogs[a])
      modifies heap, `arrayLogs
      ensures arrayLogs == map[] && heap.h == old(heap.h).(mem := heap.h.mem)
      ensures heap.h.mem.Keys == old(heap.h.mem).Keys
      ensures ElemsUndone(old(arrayLogs), old(arrayLogs).Keys, old(heap.h), heap.h.mem)
    {
      hide DecodeElem;
      ghost var h0 := heap.h;
      var arrs := KeysInOrder(arrayLogs.Keys);
      for i := 0 to |arrs|
        invariant heap.h == h0.(mem := heap.h.mem) && heap.h.mem.Keys == h0.mem.Keys && arrayLogs == old(arrayLogs)
        invariant ElemsUndone(arrayLogs, SetOf(arrs[..i]), h0, heap.h.mem)
      {
        hide ElemsUndone, UndoneIndex;
        var arr := arrs[i];
        var log := arrayLogs[arr];
        assert ValidArrayLog(h0, arr, log);
        var r := UndoArrayLog(log, arr, heap.h.mem, heap.h.shapes[arr].elem.value);
        NotYetUndone(arrs, i);
        SetOfSnoc(arrs, i);
        OneMoreArray(arrayLogs, SetOf(arrs[..i]), h0, heap.h.mem, r, arr);
        heap.h := heap.h.(mem := r);
      }
      SetOfAll(arrs, arrayLogs.Keys);
      arrayLogs := map[];
    }

    /** Fails, where the source ends the process, exactly when some string to be removed is not in
        its table. */
    method UndoInternStringTableModifications(heap: ManagedHeap) returns (ok: bool)
      modifies heap, `internLogs
      ensures ok <==> UndoFinds(old(heap.h.shapes), old(internLogs), TablesOf(old(heap.h)))
      ensures ok ==> internLogs == []
      ensures ok ==>
        var ts := UndoInterns(old(heap.h.shapes), old(internLogs), TablesOf(old(heap.h)));
        heap.h == old(heap.h).(strong := ts.0, weak := ts.1)
    {
      hide ApplyIntern, TextOf;
      ok := true;
      for i := 0 to |internLogs|
        invariant internLogs == old(internLogs)
        invariant heap.h == old(heap.h).(strong := heap.h.strong, weak := heap.h.weak)
        invariant UndoInterns(heap.h.shapes, internLogs[i..], TablesOf(heap.h)) ==
          UndoInterns(heap.h.shapes, internLogs, TablesOf(old(heap.h)))
        invariant UndoFinds(heap.h.shapes, internLogs[i..], TablesOf(heap.h)) <==>
          UndoFinds(heap.h.shapes, internLogs, TablesOf(old(heap.h)))
      {
        var op := internLogs[i];
        if op.isInsert && TextOf(heap.h.shapes, op.str) !in (if op.isStrong then heap.h.strong else heap.h.weak) {
          ok := false;
          return;
        }
        var ts := ApplyIntern(heap.h.shapes, (heap.h.strong, heap.h.weak), Inverse(internLogs[i]));
        assert internLogs[i..][1..] == internLogs[i + 1..];
        heap.h := heap.h.(strong := ts.0, weak := ts.1);
      }
      internLogs := [];
    }

    /** Undoes everything the logs hold and clears them, unless a string to be removed from an intern
        table is not there. The result is the order-free `Undo`. */
    method Rollback(heap: ManagedHeap) returns (ok: bool)
      requires ValidHeap(heap.h) && ValidTx(View(), heap.h)
      modifies heap, this
      ensures ShapesCover(old(heap.h.mem), old(heap.h.shapes))
      ensures ok <==> UndoFinds(old(heap.h.shapes), old(internLogs), TablesOf(old(heap.h)))
      ensures ok ==> heap.h == Undo(old(View()), old(heap.h))
      ensures ok ==> View() == old(View()).(objectLogs := map[], arrayLogs := map[], internLogs := []) && !rollingBack
    {
      hide UndoMem, UndoInterns, UndoFinds, FieldsUndone, ElemsUndone;
      ghost var tx, h0 := View(), heap.h;
      CoverOfValid(h0);
      rollingBack := true;
      UndoObjectModifications(heap);
      ghost var h1 := heap.h;
      forall a | a in arrayLogs ensures ValidArrayLog(h1, a, arrayLogs[a]) {
        assert ValidArrayLog(h0, a, arrayLogs[a]);
      }
      UndoArrayModifications(heap);
      UndoneIsUndo(tx, h0, h1, heap.h);
      ok := UndoInternStringTableModifications(heap);
      rollingBack := false;
    }

    /** Renames every root. Fails exactly when a log key moves down onto the old address of a
        smaller key of the same map. */
    method VisitRoots(moves: map<Ref, Ref>) returns (ok: bool)
      requires KeepsApart(moves, objectLogs.Keys) && KeepsApart(moves, arrayLogs.Keys)
      modifies this
      ensures ok <==> CanRekey(moves, old(View()))
      ensures ok ==> VisitedTx(moves, old(View()), View())
    {
      hide Rekeyed, MovesDownOnto, VisitedObjectLog;
      root := Visited(moves, root);
      lastAllocated := Visited(moves, lastAllocated);
      var values := VisitedLogValues(moves, objectLogs);
      assert values.Keys == objectLogs.Keys;
      var pairs := CollectMovingRoots(moves, values.Keys);
      ok, objectLogs := UpdateKeys(moves, pairs, values);
      if !ok { return; }
      pairs := CollectMovingRoots(moves, arrayLogs.Keys);
      ok, arrayLogs := UpdateKeys(moves, pairs, arrayLogs);
      if !ok { return; }
      var ops := internLogs;
      for i := 0 to |ops|
        invariant |ops| == |internLogs|
        invariant forall j :: 0 <= j < i ==> ops[j] == VisitedOp(moves, internLogs[j])
        invariant forall j :: i <= j < |ops| ==> ops[j] == internLogs[j]
      {
        ops := ops[i := VisitedOp(moves, ops[i])];
      }
      internLogs := ops;
    }
  }
}
