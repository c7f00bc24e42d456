/** The root visit that the transaction object performs is the renaming that the moving-collection
    results are about. */
module VisitRefines {
  import opened HeapModel
  import opened TransactionModel
  import opened TransactionRuns
  import opened MovingGc
  import opened RootVisit
  import opened TransactionImpl

  function RTxAll(ws: seq<Exchange>, tx: Tx): Tx {
    if ws == [] then tx else RTx(ws[|ws| - 1], RTxAll(ws[..|ws| - 1], tx))
  }

  function RFieldValueAll(ws: seq<Exchange>, fv: FieldValue): FieldValue {
    if fv.kind == KReference then fv.(value := ToAll(ws, fv.value)) else fv
  }

  function RObjectLogAll(ws: seq<Exchange>, log: ObjectLog): ObjectLog {
    log.(values := map off <- log.values :: RFieldValueAll(ws, log.values[off]))
  }

  function RRefsAll(ws: seq<Exchange>, rs: set<Ref>): set<Ref> {
    if ws == [] then rs else RRefs(ws[|ws| - 1], RRefsAll(ws[..|ws| - 1], rs))
  }

  function FromAll(ws: seq<Exchange>, k: Ref): Ref {
    if ws == [] then k else FromAll(ws[..|ws| - 1], To(ws[|ws| - 1], k))
  }

  lemma {:induction false} RenamedMember(ws: seq<Exchange>, rs: set<Ref>, k: Ref)
    ensures k in RRefsAll(ws, rs) <==> FromAll(ws, k) in rs
    ensures ToAll(ws, FromAll(ws, k)) == k
  {
    hide RRefs;
    if ws != [] {
      RenamedMember(ws[..|ws| - 1], rs, To(ws[|ws| - 1], k));
    }
  }

  /** `t` has the entries of `d` under renamed keys and nothing else. */
  ghost predicate RenamedLogs(ws: seq<Exchange>, d: map<Ref, ObjectLog>, t: map<Ref, ObjectLog>) {
    && t.Keys == RRefsAll(ws, d.Keys)
    && (forall x <- d :: ToAll(ws, x) in t && t[ToAll(ws, x)] == RObjectLogAll(ws, d[x]))
  }

  ghost predicate RenamedKeys<V(!new)>(ws: seq<Exchange>, d: map<Ref, V>, t: map<Ref, V>) {
    && t.Keys == RRefsAll(ws, d.Keys)
    && (forall x <- d :: ToAll(ws, x) in t && t[ToAll(ws, x)] == d[x])
  }

  lemma ObjectLogStep(ws: seq<Exchange>, log: ObjectLog)
    requires ws != []
    ensures RObjectLog(ws[|ws| - 1], RObjectLogAll(ws[..|ws| - 1], log)) == RObjectLogAll(ws, log)
  {
    assert RObjectLog(ws[|ws| - 1], RObjectLogAll(ws[..|ws| - 1], log)).values == RObjectLogAll(ws, log).values;
  }

  lemma LogsStep(ws: seq<Exchange>, d: map<Ref, ObjectLog>, t: map<Ref, ObjectLog>)
    requires ws != [] && RenamedLogs(ws[..|ws| - 1], d, t)
    ensures RenamedLogs(ws, d, RLogs(ws[|ws| - 1], t))
  {
    hide RLogs, RObjectLog, RObjectLogAll, RRefs;
    var w, ws' := ws[|ws| - 1], ws[..|ws| - 1];
    assert RLogs(w, t).Keys == RRefs(w, t.Keys);
    forall x | x in d ensures ToAll(ws, x) in RLogs(w, t) && RLogs(w, t)[ToAll(ws, x)] == RObjectLogAll(ws, d[x]) {
      ToTwice(w, ToAll(ws', x));
      ObjectLogStep(ws, d[x]);
    }
  }

  lemma KeysStep<V(!new)>(ws: seq<Exchange>, d: map<Ref, V>, t: map<Ref, V>)
    requires ws != [] && RenamedKeys(ws[..|ws| - 1], d, t)
    ensures RenamedKeys(ws, d, RKeys(ws[|ws| - 1], t))
  {
    hide RKeys, RRefs;
    var w, ws' := ws[|ws| - 1], ws[..|ws| - 1];
    assert RKeys(w, t).Keys == RRefs(w, t.Keys);
    forall x | x in d ensures ToAll(ws, x) in RKeys(w, t) && RKeys(w, t)[ToAll(ws, x)] == d[x] {
      ToTwice(w, ToAll(ws', x));
    }
  }

  lemma LogsBase(d: map<Ref, ObjectLog>)
    ensures RenamedLogs([], d, d)
  {
    forall x | x in d ensures RObjectLogAll([], d[x]) == d[x] {
      assert RObjectLogAll([], d[x]).values == d[x].values;
    }
  }

  lemma KeysBase<V(!new)>(d: map<Ref, V>)
    ensures RenamedKeys([], d, d)
  {
  }

  lemma {:induction false} RenamedTx(ws: seq<Exchange>, tx: Tx)
    ensures var t := RTxAll(ws, tx);
      && t.strict == tx.strict && t.aborted == tx.aborted
      && t.root == ToAll(ws, tx.root) && t.lastAllocated == ToAll(ws, tx.lastAllocated)
      && RenamedLogs(ws, tx.objectLogs, t.objectLogs)
      && RenamedKeys(ws, tx.arrayLogs, t.arrayLogs)
      && |t.internLogs| == |tx.internLogs|
      && forall i :: 0 <= i < |tx.internLogs| ==> t.internLogs[i] == tx.internLogs[i].(str := ToAll(ws, tx.internLogs[i].str))
  {
    hide RLogs, RKeys, RenamedLogs, RenamedKeys;
    if ws == [] {
      LogsBase(tx.objectLogs);
      KeysBase(tx.arrayLogs);
    } else {
      RenamedTx(ws[..|ws| - 1], tx);
      LogsStep(ws, tx.objectLogs, RTxAll(ws[..|ws| - 1], tx).objectLogs);
      KeysStep(ws, tx.arrayLogs, RTxAll(ws[..|ws| - 1], tx).arrayLogs);
    }
  }

  /** The exchanges send every live object where the collection put it. */
  ghost predicate Realizes(ws: seq<Exchange>, moves: map<Ref, Ref>, shapes: map<Ref, Shape>) {
    NULL !in moves && forall x <- shapes :: ToAll(ws, x) == Visited(moves, x)
  }

  lemma VisitedLogIsRenamed(ws: seq<Exchange>, moves: map<Ref, Ref>, h: Heap, o: Ref, log: ObjectLog)
    requires Realizes(ws, moves, h.shapes) && ValidObjectLog(h, o, log)
    ensures VisitedObjectLog(moves, log) == RObjectLogAll(ws, log)
  {
    hide ToAll;
    forall off | off in log.values ensures VisitedFieldValue(moves, log.values[off]) == RFieldValueAll(ws, log.values[off]) {
      assert ValidFieldEntry(h, o, off, log.values[off]);
      ToAllInjective(ws, NULL, NULL);
    }
    assert VisitedObjectLog(moves, log).values == RObjectLogAll(ws, log).values;
  }

  lemma LiveKey(h: Heap, o: Ref, log: ObjectLog)
    requires ValidObjectLog(h, o, log)
    ensures o in h.shapes
  {
  }

  lemma VisitedLogsAreRenamed(ws: seq<Exchange>, moves: map<Ref, Ref>, h: Heap, d: map<Ref, ObjectLog>, a: map<Ref, ObjectLog>, b: map<Ref, ObjectLog>)
    requires Realizes(ws, moves, h.shapes) && forall o <- d :: ValidObjectLog(h, o, d[o])
    requires Rekeyed(moves, VisitedLogValues(moves, d), a) && RenamedLogs(ws, d, b)
    ensures a == b
  {
    hide ToAll, FromAll, RRefsAll, VisitedObjectLog, RObjectLogAll, ValidObjectLog;
    var v := VisitedLogValues(moves, d);
    forall o | o in d ensures o in h.shapes && v[o] == RObjectLogAll(ws, d[o]) {
      LiveKey(h, o, d[o]);
      VisitedLogIsRenamed(ws, moves, h, o, d[o]);
    }
    forall k | k in a ensures k in b && a[k] == b[k] {
      var x :| x in v && Visited(moves, x) == k;
      assert x in d;
    }
    forall k | k in b ensures k in a {
      RenamedMember(ws, d.Keys, k);
      assert FromAll(ws, k) in v;
    }
  }

  lemma VisitedArraysAreRenamed(ws: seq<Exchange>, moves: map<Ref, Ref>, h: Heap, d: map<Ref, ArrayLog>, a: map<Ref, ArrayLog>, b: map<Ref, ArrayLog>)
    requires Realizes(ws, moves, h.shapes) && forall o <- d :: ValidArrayLog(h, o, d[o])
    requires Rekeyed(moves, d, a) && RenamedKeys(ws, d, b)
    ensures a == b
  {
    hide ToAll, FromAll, RRefsAll;
    forall k | k in a ensures k in b && a[k] == b[k] {
      var x :| x in d && Visited(moves, x) == k;
      assert ValidArrayLog(h, x, d[x]);
    }
    forall k | k in b ensures k in a {
      RenamedMember(ws, d.Keys, k);
      assert ValidArrayLog(h, FromAll(ws, k), d[FromAll(ws, k)]);
    }
  }

  /** When the visit succeeds, the transaction it leaves is the renamed transaction, for every
      sequence of exchanges that agrees with the collection's moves on live objects. */
  lemma VisitRootsRenames(ws: seq<Exchange>, moves: map<Ref, Ref>, h: Heap, tx: Tx, tx': Tx)
    requires Realizes(ws, moves, h.shapes) && ValidTx(tx, h) && VisitedTx(moves, tx, tx')
    ensures tx' == RTxAll(ws, tx)
  {
    hide ToAll, Rekeyed, RenamedLogs, RenamedKeys, RTxAll;
    RenamedTx(ws, tx);
    var t := RTxAll(ws, tx);
    ToAllInjective(ws, NULL, NULL);
    VisitedLogsAreRenamed(ws, moves, h, tx.objectLogs, tx'.objectLogs, t.objectLogs);
    VisitedArraysAreRenamed(ws, moves, h, tx.arrayLogs, tx'.arrayLogs, t.arrayLogs);
    forall i | 0 <= i < |tx.internLogs| ensures tx'.internLogs[i] == t.internLogs[i] {
      assert tx.internLogs[i] in tx.internLogs;
    }
    assert tx'.internLogs == t.internLogs;
    assert tx.lastAllocated != NULL ==> FlaggedNew(tx, h.shapes, tx.lastAllocated);
  }

  lemma {:induction false} StackRenamed(ws: seq<Exchange>, s: Sys)
    ensures var t := RSysAll(ws, s);
      && t.heap == RHeapAll(ws, s.heap) && t.bootImageSpaces == s.bootImageSpaces
      && |t.stack| == |s.stack| && forall i :: 0 <= i < |s.stack| ==> t.stack[i] == RTxAll(ws, s.stack[i])
  {
    hide RTx, RHeap;
    if ws != [] {
      StackRenamed(ws[..|ws| - 1], s);
    }
  }

  /** A successful visit of every open transaction, with the heap moved, is the relocation of the
      whole state. */
  lemma VisitedStateIsRelocated(ws: seq<Exchange>, moves: map<Ref, Ref>, s: Sys, stack: seq<Tx>)
    requires Realizes(ws, moves, s.heap.shapes) && AllValid(s.stack, s.heap) && |stack| == |s.stack|
    requires forall i :: 0 <= i < |stack| ==> VisitedTx(moves, s.stack[i], stack[i])
    ensures Sys(RHeapAll(ws, s.heap), stack, s.bootImageSpaces) == RSysAll(ws, s)
  {
    hide RTxAll, RHeapAll, VisitedTx, ValidTx, Realizes, RSysAll;
    StackRenamed(ws, s);
    forall i | 0 <= i < |stack| ensures stack[i] == RSysAll(ws, s).stack[i] {
      VisitRootsRenames(ws, moves, s.heap, s.stack[i], stack[i]);
    }
  }

  /** A collection that moves no two live objects to one address, and none to null, is a sequence
      of exchanges. */
  lemma MovesAreRealized(moves: map<Ref, Ref>, shapes: map<Ref, Shape>) returns (ws: seq<Exchange>)
    requires NULL !in moves && NULL !in shapes && KeepsApart(moves, shapes.Keys) && forall x <- shapes :: Visited(moves, x) != NULL
    ensures Realizes(ws, moves, shapes)
  {
    ws := EveryMoveIsExchanges(map x <- shapes :: Visited(moves, x));
  }

  /** Logs are keyed by live objects, so such a collection keeps their keys apart. */
  lemma LogKeysApart(ws: seq<Exchange>, moves: map<Ref, Ref>, h: Heap, tx: Tx)
    requires Realizes(ws, moves, h.shapes) && ValidTx(tx, h)
    ensures KeepsApart(moves, tx.objectLogs.Keys) && KeepsApart(moves, tx.arrayLogs.Keys)
  {
    hide ToAll;
    forall o | o in tx.objectLogs ensures o in h.shapes { assert ValidObjectLog(h, o, tx.objectLogs[o]); }
    forall a | a in tx.arrayLogs ensures a in h.shapes { assert ValidArrayLog(h, a, tx.arrayLogs[a]); }
    forall x, y | x in h.shapes && y in h.shapes && x != y ensures Visited(moves, x) != Visited(moves, y) {
      ToAllInjective(ws, x, y);
    }
  }
}
