/** Undoing intern-table operations: when undo finds every string it removes. */
module InternLogs {
  import opened HeapModel
  import opened TransactionModel

  // ---- Logs in sequence ----

  lemma {:induction false} UndoFindsConcat(shapes: map<Ref, Shape>, a: seq<InternOp>, b: seq<InternOp>, ts: Tables)
    ensures UndoFinds(shapes, a + b, ts) <==> UndoFinds(shapes, a, ts) && UndoFinds(shapes, b, UndoInterns(shapes, a, ts))
  {
    if a == [] {
      assert a + b == b;
    } else {
      assert (a + b)[1..] == a[1..] + b;
      UndoFindsConcat(shapes, a[1..], b, ApplyIntern(shapes, ts, Inverse(a[0])));
    }
  }

  // ---- What a log and the tables say about it ----

  predicate SameEntry(shapes: map<Ref, Shape>, a: InternOp, b: InternOp) {
    a.isStrong == b.isStrong && TextOf(shapes, a.str) == TextOf(shapes, b.str)
  }

  /** The last operation before position `j` on the entry that `op` is about, or -1. */
  function LastOn(shapes: map<Ref, Shape>, ops: seq<InternOp>, j: nat, op: InternOp): (i: int)
    requires j <= |ops|
    ensures -1 <= i < j && (i >= 0 ==> SameEntry(shapes, ops[i], op))
    ensures forall k :: i < k < j ==> !SameEntry(shapes, ops[k], op)
  {
    if j == 0 then -1 else if SameEntry(shapes, ops[j - 1], op) then j - 1 else LastOn(shapes, ops, j - 1, op)
  }

  /** Newest first: an insertion comes right after a removal of the same entry, or is the newest
      operation on an entry that is there now. */
  ghost predicate FindableAt(shapes: map<Ref, Shape>, ops: seq<InternOp>, ts: Tables, i: nat)
    requires i < |ops|
  {
    ops[i].isInsert ==>
      var j := LastOn(shapes, ops, i, ops[i]);
      if j >= 0 then !ops[j].isInsert else TextOf(shapes, ops[i].str) in TableOf(ts, ops[i])
  }

  lemma LastOnTail(shapes: map<Ref, Shape>, ops: seq<InternOp>, i: nat)
    requires 0 < i < |ops|
    ensures var j, k := LastOn(shapes, ops, i, ops[i]), LastOn(shapes, ops[1..], i - 1, ops[i]);
      j == if k >= 0 then k + 1 else if SameEntry(shapes, ops[0], ops[i]) then 0 else -1
  {
    hide LastOn;
    var j, k := LastOn(shapes, ops, i, ops[i]), LastOn(shapes, ops[1..], i - 1, ops[i]);
    assert k >= 0 ==> ops[1..][k] == ops[k + 1];
    assert j > 0 ==> ops[1..][j - 1] == ops[j];
    assert forall m :: 0 < m < i ==> ops[m] == ops[1..][m - 1];
  }

  lemma AppliedAt(shapes: map<Ref, Shape>, ts: Tables, a: InternOp, b: InternOp)
    ensures var ts' := ApplyIntern(shapes, ts, a); var x := TextOf(shapes, b.str);
      x in TableOf(ts', b) <==> if SameEntry(shapes, a, b) then a.isInsert else x in TableOf(ts, b)
  {
  }

  lemma FindableTail(shapes: map<Ref, Shape>, ops: seq<InternOp>, ts: Tables, i: nat)
    requires 0 < i < |ops|
    ensures FindableAt(shapes, ops, ts, i) <==> FindableAt(shapes, ops[1..], ApplyIntern(shapes, ts, Inverse(ops[0])), i - 1)
  {
    hide LastOn, ApplyIntern, TextOf, TableOf;
    LastOnTail(shapes, ops, i);
    AppliedAt(shapes, ts, Inverse(ops[0]), ops[i]);
  }

  lemma FirstFindable(shapes: map<Ref, Shape>, ops: seq<InternOp>, ts: Tables)
    requires ops != []
    ensures FindableAt(shapes, ops, ts, 0) <==> (ops[0].isInsert ==> TextOf(shapes, ops[0].str) in TableOf(ts, ops[0]))
  {
  }

  /** Undo finds every string it removes exactly when every logged insertion can be found: a
      condition on the order of the logged operations and on the tables as they are now. */
  lemma {:induction false} UndoFindsExactly(shapes: map<Ref, Shape>, ops: seq<InternOp>, ts: Tables)
    ensures UndoFinds(shapes, ops, ts) <==> forall i :: 0 <= i < |ops| ==> FindableAt(shapes, ops, ts, i)
  {
    hide ApplyIntern, TextOf, TableOf, FindableAt;
    if ops != [] {
      var ts' := ApplyIntern(shapes, ts, Inverse(ops[0]));
      UndoFindsExactly(shapes, ops[1..], ts');
      FirstFindable(shapes, ops, ts);
      forall i | 0 < i < |ops| ensures FindableAt(shapes, ops, ts, i) <==> FindableAt(shapes, ops[1..], ts', i - 1) {
        FindableTail(shapes, ops, ts, i);
      }
      if forall i :: 0 <= i < |ops| ==> FindableAt(shapes, ops, ts, i) {
        forall i | 0 <= i < |ops[1..]| ensures FindableAt(shapes, ops[1..], ts', i) {
          assert FindableAt(shapes, ops, ts, i + 1);
        }
      }
    }
  }

  /** Every entry whose newest operation is an insertion is in its table. */
  ghost predicate NewestAreThere(shapes: map<Ref, Shape>, ops: seq<InternOp>, ts: Tables) {
    forall i :: 0 <= i < |ops| && ops[i].isInsert && LastOn(shapes, ops, i, ops[i]) == -1 ==> TextOf(shapes, ops[i].str) in TableOf(ts, ops[i])
  }

  lemma LastOnSuffix(shapes: map<Ref, Shape>, dropped: seq<InternOp>, rest: seq<InternOp>, i: nat)
    requires i < |rest| && LastOn(shapes, rest, i, rest[i]) >= 0
    ensures LastOn(shapes, dropped + rest, |dropped| + i, rest[i]) == |dropped| + LastOn(shapes, rest, i, rest[i])
  {
    hide LastOn;
    var all, j := dropped + rest, LastOn(shapes, rest, i, rest[i]);
    assert all[|dropped| + j] == rest[j];
    assert forall k :: 0 <= k < |rest| ==> all[|dropped| + k] == rest[k];
    var m := LastOn(shapes, all, |dropped| + i, rest[i]);
    assert m >= |dropped| ==> all[m] == rest[m - |dropped|];
  }

  /** Dropping the newest operations, as a commit does: undoing the rest still finds everything
      exactly when each entry whose newest remaining operation is an insertion is there now. */
  lemma DroppingExactly(shapes: map<Ref, Shape>, dropped: seq<InternOp>, rest: seq<InternOp>, ts: Tables)
    requires UndoFinds(shapes, dropped + rest, ts)
    ensures UndoFinds(shapes, rest, ts) <==> NewestAreThere(shapes, rest, ts)
  {
    hide UndoFinds, TextOf, TableOf, LastOn;
    UndoFindsExactly(shapes, dropped + rest, ts);
    UndoFindsExactly(shapes, rest, ts);
    forall i | 0 <= i < |rest| && LastOn(shapes, rest, i, rest[i]) >= 0 ensures FindableAt(shapes, rest, ts, i) {
      LastOnSuffix(shapes, dropped, rest, i);
      assert FindableAt(shapes, dropped + rest, ts, |dropped| + i);
    }
    if forall i :: 0 <= i < |rest| ==> FindableAt(shapes, rest, ts, i) {
      forall i | 0 <= i < |rest| && rest[i].isInsert && LastOn(shapes, rest, i, rest[i]) == -1
        ensures TextOf(shapes, rest[i].str) in TableOf(ts, rest[i]) {
        assert FindableAt(shapes, rest, ts, i);
      }
    }
  }

  // ---- An invariant of runs ----

  predicate HasEntry(shapes: map<Ref, Shape>, ts: Tables, op: InternOp) {
    TextOf(shapes, op.str) in TableOf(ts, op) && TableOf(ts, op)[TextOf(shapes, op.str)] == op.str
  }

  /** At each removal the entry is there for the very string that was inserted. */
  predicate UndoOwns(shapes: map<Ref, Shape>, ops: seq<InternOp>, ts: Tables) {
    ops == [] ||
    ((ops[0].isInsert ==> HasEntry(shapes, ts, ops[0])) && UndoOwns(shapes, ops[1..], ApplyIntern(shapes, ts, Inverse(ops[0]))))
  }

  lemma {:induction false} OwnsFinds(shapes: map<Ref, Shape>, ops: seq<InternOp>, ts: Tables)
    requires UndoOwns(shapes, ops, ts)
    ensures UndoFinds(shapes, ops, ts)
  {
    if ops != [] {
      OwnsFinds(shapes, ops[1..], ApplyIntern(shapes, ts, Inverse(ops[0])));
    }
  }

  lemma {:induction false} UndoOwnsConcat(shapes: map<Ref, Shape>, a: seq<InternOp>, b: seq<InternOp>, ts: Tables)
    ensures UndoOwns(shapes, a + b, ts) <==> UndoOwns(shapes, a, ts) && UndoOwns(shapes, b, UndoInterns(shapes, a, ts))
  {
    if a == [] {
      assert a + b == b;
    } else {
      assert (a + b)[1..] == a[1..] + b;
      UndoOwnsConcat(shapes, a[1..], b, ApplyIntern(shapes, ts, Inverse(a[0])));
    }
  }

  lemma {:induction false} UndoOwnsAgree(shapes: map<Ref, Shape>, shapes': map<Ref, Shape>, ops: seq<InternOp>, ts: Tables)
    requires forall op <- ops :: TextOf(shapes, op.str) == TextOf(shapes', op.str)
    ensures UndoOwns(shapes, ops, ts) <==> UndoOwns(shapes', ops, ts)
  {
    if ops != [] {
      UndoOwnsAgree(shapes, shapes', ops[1..], ApplyIntern(shapes, ts, Inverse(ops[0])));
    }
  }

  /** `SweepWeaks`: entries for freed strings are erased, and nothing is recorded about it. */
  function Swept(t: InternTable, dead: set<Ref>): InternTable {
    map x <- t | t[x] !in dead :: t[x]
  }

  lemma SweptApply(shapes: map<Ref, Shape>, ts: Tables, op: InternOp, dead: set<Ref>)
    requires op.str !in dead
    ensures var r := ApplyIntern(shapes, ts, op); ApplyIntern(shapes, (ts.0, Swept(ts.1, dead)), op) == (r.0, Swept(r.1, dead))
  {
    assert Swept(TableInsert(shapes, ts.1, op.str), dead) == TableInsert(shapes, Swept(ts.1, dead), op.str);
    assert Swept(TableRemove(shapes, ts.1, op.str), dead) == TableRemove(shapes, Swept(ts.1, dead), op.str);
  }

  /** Sweeping the weak table commutes with undoing operations on strings that survive. */
  lemma {:induction false} UndoInternsSwept(shapes: map<Ref, Shape>, ops: seq<InternOp>, ts: Tables, dead: set<Ref>)
    requires forall op <- ops :: op.str !in dead
    ensures var r := UndoInterns(shapes, ops, ts); UndoInterns(shapes, ops, (ts.0, Swept(ts.1, dead))) == (r.0, Swept(r.1, dead))
  {
    hide Swept, ApplyIntern;
    if ops != [] {
      SweptApply(shapes, ts, Inverse(ops[0]), dead);
      UndoInternsSwept(shapes, ops[1..], ApplyIntern(shapes, ts, Inverse(ops[0])), dead);
    }
  }

  lemma {:induction false} UndoOwnsSwept(shapes: map<Ref, Shape>, ops: seq<InternOp>, ts: Tables, dead: set<Ref>)
    requires (forall op <- ops :: op.str !in dead) && UndoOwns(shapes, ops, ts)
    ensures UndoOwns(shapes, ops, (ts.0, Swept(ts.1, dead)))
  {
    hide ApplyIntern;
    if ops != [] {
      SweptApply(shapes, ts, Inverse(ops[0]), dead);
      UndoOwnsSwept(shapes, ops[1..], ApplyIntern(shapes, ts, Inverse(ops[0])), dead);
    }
  }

  lemma OwnsNewest(shapes: map<Ref, Shape>, ops: seq<InternOp>, ts: Tables, op: InternOp)
    requires InternAllowed(shapes, ts, op) && UndoOwns(shapes, ops, ts)
    ensures UndoOwns(shapes, [op] + ops, ApplyIntern(shapes, ts, op))
  {
    InverseUndoesIntern(shapes, ts, op);
    assert ([op] + ops)[1..] == ops;
  }

  // ---- Commits ----

  /** No removal in `dropped` is of an entry that `rest` inserts. */
  ghost predicate Harmless(shapes: map<Ref, Shape>, dropped: seq<InternOp>, rest: seq<InternOp>) {
    forall a <- dropped, b <- rest :: !a.isInsert && b.isInsert ==> !SameEntry(shapes, a, b)
  }

  predicate SameAt(t: InternTable, t': InternTable, x: string)
    requires x in t
  {
    x in t' && t'[x] == t[x]
  }

  /** Where `ts` has an entry that `rest` inserts, `ts'` has the same. */
  ghost predicate Covers(shapes: map<Ref, Shape>, ts: Tables, ts': Tables, rest: seq<InternOp>) {
    forall op <- rest | op.isInsert :: TextOf(shapes, op.str) in TableOf(ts, op) ==> SameAt(TableOf(ts, op), TableOf(ts', op), TextOf(shapes, op.str))
  }

  lemma {:induction false} HarmlessCovers(shapes: map<Ref, Shape>, dropped: seq<InternOp>, rest: seq<InternOp>, ts: Tables)
    requires Harmless(shapes, dropped, rest)
    ensures Covers(shapes, UndoInterns(shapes, dropped, ts), ts, rest)
  {
    if dropped != [] {
      var ts' := ApplyIntern(shapes, ts, Inverse(dropped[0]));
      assert dropped[0] in dropped;
      HarmlessCovers(shapes, dropped[1..], rest, ts');
      assert Covers(shapes, ts', ts, rest);
    }
  }

  lemma {:induction false} OwnsWithMore(shapes: map<Ref, Shape>, ops: seq<InternOp>, ts: Tables, ts': Tables)
    requires UndoOwns(shapes, ops, ts) && Covers(shapes, ts, ts', ops)
    ensures UndoOwns(shapes, ops, ts')
  {
    if ops != [] {
      var op := Inverse(ops[0]);
      assert ops[0] in ops;
      assert Covers(shapes, ApplyIntern(shapes, ts, op), ApplyIntern(shapes, ts', op), ops[1..]);
      OwnsWithMore(shapes, ops[1..], ApplyIntern(shapes, ts, op), ApplyIntern(shapes, ts', op));
    }
  }

  /** A commit that drops no removal of an entry an enclosing log inserted leaves undo able to find
      everything. */
  lemma HarmlessDrop(shapes: map<Ref, Shape>, dropped: seq<InternOp>, rest: seq<InternOp>, ts: Tables)
    requires UndoOwns(shapes, dropped + rest, ts) && Harmless(shapes, dropped, rest)
    ensures UndoOwns(shapes, rest, ts)
  {
    UndoOwnsConcat(shapes, dropped, rest, ts);
    HarmlessCovers(shapes, dropped, rest, ts);
    OwnsWithMore(shapes, rest, UndoInterns(shapes, dropped, ts), ts);
  }
}
