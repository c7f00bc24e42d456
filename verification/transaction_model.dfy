/** One class-initialization transaction as a value: what it logs and what undoing it does.
    The records follow `Transaction` in dex2oat; `Undo` is stated slot by slot, with no order. */
module TransactionModel {
  import opened Wrappers
  import opened HeapModel

  datatype FieldValue = FieldValue(kind: Kind, value: nat)

  datatype ObjectLog = ObjectLog(isNew: bool, values: map<nat, FieldValue>)

  datatype ArrayLog = ArrayLog(isNew: bool, values: map<nat, nat>)

  datatype InternOp = InternOp(str: Ref, isStrong: bool, isInsert: bool)

  /** `internLogs` has the newest operation first. */
  datatype Tx = Tx(
    strict: bool,
    root: Ref,
    objectLogs: map<Ref, ObjectLog>,
    arrayLogs: map<Ref, ArrayLog>,
    internLogs: seq<InternOp>,
    lastAllocated: Ref,
    aborted: bool)

  function NewTx(strict: bool, root: Ref): Tx {
    Tx(strict, root, map[], map[], [], NULL, false)
  }

  // ---- Recording ----

  function LogFieldValue(log: ObjectLog, off: nat, fv: FieldValue): ObjectLog {
    if log.isNew || off in log.values then log else log.(values := log.values[off := fv])
  }

  function LogElemValue(log: ArrayLog, idx: nat, word: nat): ArrayLog {
    if log.isNew || idx in log.values then log else log.(values := log.values[idx := word])
  }

  function ObjectLogOf(tx: Tx, obj: Ref): ObjectLog {
    if obj in tx.objectLogs then tx.objectLogs[obj] else ObjectLog(false, map[])
  }

  function ArrayLogOf(tx: Tx, arr: Ref): ArrayLog {
    if arr in tx.arrayLogs then tx.arrayLogs[arr] else ArrayLog(false, map[])
  }

  function RecordWriteField(tx: Tx, obj: Ref, off: nat, fv: FieldValue): Tx {
    if obj == tx.lastAllocated then tx
    else tx.(objectLogs := tx.objectLogs[obj := LogFieldValue(ObjectLogOf(tx, obj), off, fv)])
  }

  function RecordWriteArray(tx: Tx, arr: Ref, idx: nat, word: nat): Tx {
    if arr == tx.lastAllocated then tx
    else tx.(arrayLogs := tx.arrayLogs[arr := LogElemValue(ArrayLogOf(tx, arr), idx, word)])
  }

  /** The record that a setter makes of the value `cur` it is about to overwrite. */
  function RecordWrite(tx: Tx, sh: Shape, l: Loc, cur: Val): Tx
    requires HasSlot(sh, l) && Fits(SlotTypeOf(sh, l), cur)
  {
    var word := EncodeSlot(SlotTypeOf(sh, l), cur);
    match l
    case Field(o, off) => RecordWriteField(tx, o, off, FieldValue(RecordKind(sh.fields[off]), word))
    case Elem(a, i) => RecordWriteArray(tx, a, i, word)
  }

  /** `RecordNewObject`, and `RecordNewArray` for object arrays. */
  function RecordNewObject(tx: Tx, obj: Ref): Tx {
    tx.(lastAllocated := obj, objectLogs := tx.objectLogs[obj := ObjectLog(true, map[])])
  }

  function RecordNewArray(tx: Tx, sh: Shape, arr: Ref): Tx {
    if sh.elem.None? then RecordNewObject(tx, arr)
    else tx.(lastAllocated := arr, arrayLogs := tx.arrayLogs[arr := ArrayLog(true, map[])])
  }

  function LogInterned(tx: Tx, op: InternOp): Tx {
    tx.(internLogs := [op] + tx.internLogs)
  }

  // ---- Constraints ----

  predicate WriteConstraint(tx: Tx, sh: Shape, obj: Ref) {
    sh.inBootImage || (tx.strict && sh.isClass && obj != tx.root)
  }

  /** `bootImageSpaces` says whether there is a boot image to extend. */
  predicate WriteValueConstraint(tx: Tx, bootImageSpaces: bool, value: Option<Shape>) {
    match value
    case None => false
    case Some(sh) => !tx.strict && bootImageSpaces && !sh.referenceable
  }

  // ---- Undoing ----

  /** The collector needs class words and array lengths, so undo leaves them alone. */
  predicate Rollbackable(sh: Shape, l: Loc) {
    match l
    case Field(_, off) => off != CLASS_OFFSET && !(sh.isArray && off == LENGTH_OFFSET)
    case Elem(_, _) => true
  }

  /** The log holds an old value for the slot. */
  predicate Logs(tx: Tx, l: Loc) {
    match l
    case Field(o, off) => o in tx.objectLogs && off in tx.objectLogs[o].values
    case Elem(a, i) => a in tx.arrayLogs && i in tx.arrayLogs[a].values
  }

  predicate Undoes(tx: Tx, sh: Shape, l: Loc) {
    Logs(tx, l) && Rollbackable(sh, l) && (l.Elem? ==> sh.elem.Some?)
  }

  function LoggedVal(tx: Tx, sh: Shape, l: Loc): Val
    requires Undoes(tx, sh, l)
  {
    match l
    case Field(o, off) => var fv := tx.objectLogs[o].values[off]; DecodeField(fv.kind, fv.value)
    case Elem(a, i) => DecodeElem(sh.elem.value, tx.arrayLogs[a].values[i])
  }

  /** The slot's value after undoing `tx` when it holds `cur`. */
  function UndoVal(tx: Tx, sh: Shape, l: Loc, cur: Val): Val {
    if Undoes(tx, sh, l) then LoggedVal(tx, sh, l) else cur
  }

  predicate ShapesCover(mem: map<Loc, Val>, shapes: map<Ref, Shape>) {
    forall l <- mem :: ObjOf(l) in shapes
  }

  function UndoMem(tx: Tx, mem: map<Loc, Val>, shapes: map<Ref, Shape>): map<Loc, Val>
    requires ShapesCover(mem, shapes)
  {
    map l <- mem :: UndoVal(tx, shapes[ObjOf(l)], l, mem[l])
  }

  function TextOf(shapes: map<Ref, Shape>, r: Ref): string {
    if r in shapes then shapes[r].text else ""
  }

  function TableInsert(shapes: map<Ref, Shape>, t: InternTable, s: Ref): InternTable {
    t[TextOf(shapes, s) := s]
  }

  function TableRemove(shapes: map<Ref, Shape>, t: InternTable, s: Ref): InternTable {
    t - {TextOf(shapes, s)}
  }

  /** Both intern tables, strong first. */
  type Tables = (InternTable, InternTable)

  function TableApply(shapes: map<Ref, Shape>, t: InternTable, op: InternOp): InternTable {
    if op.isInsert then TableInsert(shapes, t, op.str) else TableRemove(shapes, t, op.str)
  }

  function ApplyIntern(shapes: map<Ref, Shape>, ts: Tables, op: InternOp): Tables {
    if op.isStrong then (TableApply(shapes, ts.0, op), ts.1) else (ts.0, TableApply(shapes, ts.1, op))
  }

  function Inverse(op: InternOp): InternOp {
    op.(isInsert := !op.isInsert)
  }

  /** `UndoInternStringTableModifications`: newest first, each operation inverted. */
  function UndoInterns(shapes: map<Ref, Shape>, ops: seq<InternOp>, ts: Tables): Tables {
    if ops == [] then ts
    else UndoInterns(shapes, ops[1..], ApplyIntern(shapes, ts, Inverse(ops[0])))
  }

  function TableOf(ts: Tables, op: InternOp): InternTable { if op.isStrong then ts.0 else ts.1 }

  /** Undoing the operations finds every string it removes; `Table::Remove` ends the process when it
      does not find one. */
  predicate UndoFinds(shapes: map<Ref, Shape>, ops: seq<InternOp>, ts: Tables) {
    ops == [] ||
    ((ops[0].isInsert ==> TextOf(shapes, ops[0].str) in TableOf(ts, ops[0])) &&
     UndoFinds(shapes, ops[1..], ApplyIntern(shapes, ts, Inverse(ops[0]))))
  }

  function Undo(tx: Tx, h: Heap): Heap
    requires ShapesCover(h.mem, h.shapes)
  {
    var ts := UndoInterns(h.shapes, tx.internLogs, (h.strong, h.weak));
    Heap(UndoMem(tx, h.mem, h.shapes), h.shapes, ts.0, ts.1)
  }

  // ---- Well-formed heaps and logs ----

  predicate LiveOrNull(shapes: map<Ref, Shape>, r: Ref) {
    r == NULL || r in shapes
  }

  predicate ValidSlot(shapes: map<Ref, Shape>, l: Loc, v: Val) {
    && ObjOf(l) in shapes
    && HasSlot(shapes[ObjOf(l)], l)
    && Fits(SlotTypeOf(shapes[ObjOf(l)], l), v)
    && (v.Pointer? ==> LiveOrNull(shapes, v.r))
  }

  ghost predicate ValidTable(shapes: map<Ref, Shape>, t: InternTable) {
    forall s <- t :: t[s] in shapes && shapes[t[s]].text == s
  }

  /** Every slot is typed, no reference dangles, and intern tables are keyed by content. */
  ghost predicate ValidHeap(h: Heap) {
    && NULL !in h.shapes
    && (forall l <- h.mem :: ValidSlot(h.shapes, l, h.mem[l]))
    && ValidTable(h.shapes, h.strong)
    && ValidTable(h.shapes, h.weak)
  }

  predicate ValidFieldEntry(h: Heap, o: Ref, off: nat, fv: FieldValue) {
    && Field(o, off) in h.mem
    && o in h.shapes && off in h.shapes[o].fields
    && fv.kind == RecordKind(h.shapes[o].fields[off])
    && (fv.kind == KReference ==> LiveOrNull(h.shapes, fv.value))
  }

  ghost predicate ValidObjectLog(h: Heap, o: Ref, log: ObjectLog) {
    && o in h.shapes
    && (log.isNew ==> log.values == map[] && h.shapes[o].elem.None?)
    && forall off <- log.values :: ValidFieldEntry(h, o, off, log.values[off])
  }

  ghost predicate ValidArrayLog(h: Heap, a: Ref, log: ArrayLog) {
    && a in h.shapes && h.shapes[a].elem.Some?
    && (log.isNew ==> log.values == map[])
    && forall i <- log.values :: Elem(a, i) in h.mem
  }

  /** Flagged as new in the log that owns the object's kind. */
  predicate FlaggedNew(tx: Tx, shapes: map<Ref, Shape>, r: Ref) {
    r in shapes &&
    if shapes[r].elem.Some? then r in tx.arrayLogs && tx.arrayLogs[r].isNew
    else r in tx.objectLogs && tx.objectLogs[r].isNew
  }

  /** The log mentions only live objects and slots, and the allocation cache agrees with the flags. */
  ghost predicate ValidTx(tx: Tx, h: Heap) {
    && LiveOrNull(h.shapes, tx.root)
    && (tx.lastAllocated != NULL ==> FlaggedNew(tx, h.shapes, tx.lastAllocated))
    && (forall o <- tx.objectLogs :: ValidObjectLog(h, o, tx.objectLogs[o]))
    && (forall a <- tx.arrayLogs :: ValidArrayLog(h, a, tx.arrayLogs[a]))
    && (forall op <- tx.internLogs :: op.str in h.shapes)
  }

  // ---- Facts about undoing one transaction ----

  lemma {:induction false} UndoInternsKeepsTables(shapes: map<Ref, Shape>, ops: seq<InternOp>, ts: Tables)
    requires ValidTable(shapes, ts.0) && ValidTable(shapes, ts.1)
    requires forall op <- ops :: op.str in shapes
    ensures var r := UndoInterns(shapes, ops, ts); ValidTable(shapes, r.0) && ValidTable(shapes, r.1)
  {
    if ops != [] {
      UndoInternsKeepsTables(shapes, ops[1..], ApplyIntern(shapes, ts, Inverse(ops[0])));
    }
  }

  /** An undone slot gets a value of its own type that points at a live object: undo never
      leaves a dangling reference, because the log's references are live. */
  lemma UndoKeepsHeapValid(tx: Tx, h: Heap)
    requires ValidHeap(h) && ValidTx(tx, h)
    ensures ValidHeap(Undo(tx, h))
  {
    forall l | l in h.mem
      ensures ValidSlot(h.shapes, l, UndoVal(tx, h.shapes[ObjOf(l)], l, h.mem[l]))
    {
      assert ValidSlot(h.shapes, l, h.mem[l]);
      if Undoes(tx, h.shapes[ObjOf(l)], l) {
        match l {
          case Field(o, off) =>
            assert ValidObjectLog(h, o, tx.objectLogs[o]);
            assert ValidFieldEntry(h, o, off, tx.objectLogs[o].values[off]);
          case Elem(a, i) =>
        }
      }
    }
    UndoInternsKeepsTables(h.shapes, tx.internLogs, (h.strong, h.weak));
  }

  /** An intern operation the table allows: inserting an absent string, removing a present one. */
  predicate InternAllowed(shapes: map<Ref, Shape>, ts: Tables, op: InternOp) {
    var t := if op.isStrong then ts.0 else ts.1;
    op.str in shapes &&
    if op.isInsert then shapes[op.str].text !in t
    else shapes[op.str].text in t && t[shapes[op.str].text] == op.str
  }

  lemma InverseUndoesIntern(shapes: map<Ref, Shape>, ts: Tables, op: InternOp)
    requires InternAllowed(shapes, ts, op)
    ensures ApplyIntern(shapes, ApplyIntern(shapes, ts, op), Inverse(op)) == ts
  {
    var t := if op.isStrong then ts.0 else ts.1;
    var s := shapes[op.str].text;
    if op.isInsert {
      assert t[s := op.str] - {s} == t;
    } else {
      assert (t - {s})[s := op.str] == t;
    }
  }

  ghost predicate InternsAllowed(shapes: map<Ref, Shape>, ts: Tables, ops: seq<InternOp>)
    decreases |ops|
  {
    ops == [] || (InternAllowed(shapes, ts, ops[0]) && InternsAllowed(shapes, ApplyIntern(shapes, ts, ops[0]), ops[1..]))
  }

  function ApplyInterns(shapes: map<Ref, Shape>, ts: Tables, ops: seq<InternOp>): Tables
    decreases |ops|
  {
    if ops == [] then ts else ApplyInterns(shapes, ApplyIntern(shapes, ts, ops[0]), ops[1..])
  }

  function Reversed(ops: seq<InternOp>): seq<InternOp> {
    if ops == [] then [] else Reversed(ops[1..]) + [ops[0]]
  }

  lemma {:induction false} UndoInternsConcat(shapes: map<Ref, Shape>, a: seq<InternOp>, b: seq<InternOp>, ts: Tables)
    ensures UndoInterns(shapes, a + b, ts) == UndoInterns(shapes, b, UndoInterns(shapes, a, ts))
  {
    if a == [] {
      assert a + b == b;
    } else {
      assert (a + b)[1..] == a[1..] + b;
      UndoInternsConcat(shapes, a[1..], b, ApplyIntern(shapes, ts, Inverse(a[0])));
    }
  }

  /** Undoing any sequence of allowed intern-table operations, newest first, restores both
      tables, with the same string inserted and removed any number of times. */
  lemma {:induction false} UndoInternsRestores(shapes: map<Ref, Shape>, ts: Tables, ops: seq<InternOp>)
    requires InternsAllowed(shapes, ts, ops)
    ensures UndoInterns(shapes, Reversed(ops), ApplyInterns(shapes, ts, ops)) == ts
    decreases |ops|
  {
    if ops != [] {
      var ts1 := ApplyIntern(shapes, ts, ops[0]);
      UndoInternsRestores(shapes, ts1, ops[1..]);
      UndoInternsConcat(shapes, Reversed(ops[1..]), [ops[0]], ApplyInterns(shapes, ts, ops));
      InverseUndoesIntern(shapes, ts, ops[0]);
      assert UndoInterns(shapes, [ops[0]], ts1) == UndoInterns(shapes, [], ts);
    }
  }

  /** Recording a store to one slot leaves the entries of every other slot as they are. */
  lemma RecordFramesOtherSlots(tx: Tx, sh: Shape, l: Loc, cur: Val, k: Loc, shk: Shape, v: Val)
    requires HasSlot(sh, l) && Fits(SlotTypeOf(sh, l), cur) && k != l
    ensures var tx' := RecordWrite(tx, sh, l, cur);
      && (Logs(tx', k) <==> Logs(tx, k))
      && UndoVal(tx', shk, k, v) == UndoVal(tx, shk, k, v)
  {
  }

  /** First write wins: an entry is never replaced. */
  lemma RecordKeepsEntry(tx: Tx, sh: Shape, l: Loc, cur: Val)
    requires HasSlot(sh, l) && Fits(SlotTypeOf(sh, l), cur) && Undoes(tx, sh, l)
    ensures var tx' := RecordWrite(tx, sh, l, cur);
      Undoes(tx', sh, l) && LoggedVal(tx', sh, l) == LoggedVal(tx, sh, l)
  {
  }

  /** A slot without an entry gets the encoding of the overwritten value, unless the object is
      the cached one or its log is flagged. */
  lemma RecordStoresWord(tx: Tx, sh: Shape, l: Loc, cur: Val)
    requires HasSlot(sh, l) && Fits(SlotTypeOf(sh, l), cur)
    requires !Undoes(tx, sh, l) && Rollbackable(sh, l)
    ensures var tx' := RecordWrite(tx, sh, l, cur);
      if Undoes(tx', sh, l) then LoggedVal(tx', sh, l) == DecodeSlot(SlotTypeOf(sh, l), EncodeSlot(SlotTypeOf(sh, l), cur))
      else ObjOf(l) == tx.lastAllocated || if l.Field? then ObjectLogOf(tx, l.obj).isNew else ArrayLogOf(tx, l.arr).isNew
  {
  }

  /** A slot without an entry gets one that reproduces a recoverable value, unless its object
      was allocated by this transaction. */
  lemma RecordAddsEntry(tx: Tx, h: Heap, l: Loc)
    requires ValidHeap(h) && ValidTx(tx, h) && l in h.mem
    requires !Undoes(tx, h.shapes[ObjOf(l)], l) && Rollbackable(h.shapes[ObjOf(l)], l)
    ensures var sh := h.shapes[ObjOf(l)];
      HasSlot(sh, l) && Fits(SlotTypeOf(sh, l), h.mem[l]) &&
      var tx' := RecordWrite(tx, sh, l, h.mem[l]);
      if Undoes(tx', sh, l) then Recoverable(h.mem[l]) ==> LoggedVal(tx', sh, l) == h.mem[l]
      else FlaggedNew(tx, h.shapes, ObjOf(l))
  {
    assert ValidSlot(h.shapes, l, h.mem[l]);
    var sh := h.shapes[ObjOf(l)];
    SlotRoundTrip(SlotTypeOf(sh, l), h.mem[l]);
    RecordStoresWord(tx, sh, l, h.mem[l]);
    if !Undoes(RecordWrite(tx, sh, l, h.mem[l]), sh, l) && ObjOf(l) != tx.lastAllocated {
      match l {
        case Field(o, off) =>
          assert ValidObjectLog(h, o, tx.objectLogs[o]);
        case Elem(a, i) =>
          assert ValidArrayLog(h, a, tx.arrayLogs[a]);
      }
    }
  }
}
