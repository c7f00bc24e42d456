/** Which guarded stores go through and which abort the transaction, and what each event of a run
    does to the heap. */
module GuardedStores {
  import opened HeapModel
  import opened TransactionModel
  import opened TransactionRuns

  lemma SlotIsValid(h: Heap, l: Loc)
    requires ValidHeap(h) && l in h.mem
    ensures ValidSlot(h.shapes, l, h.mem[l])
  {
  }

  /** A guarded store in a transaction either puts the value in the slot and leaves the aborted flag
      as it was, or changes nothing but that flag. It goes through exactly when its object is not in
      the boot image, is no other class than the one that a strict transaction initializes, and, in
      a transaction of a boot image extension, the value is no reference to an object that the
      extension may not refer to. */
  lemma GuardedStoreExactly(s: Sys, l: Loc, v: Val)
    requires ValidHeap(s.heap) && Enabled(s, Write(l, v, true)) && s.stack != []
    ensures var t, tx, shapes := Step(s, Write(l, v, true)), s.stack[0], s.heap.shapes;
      && ObjOf(l) in shapes && |t.stack| == |s.stack| && t.stack[1..] == s.stack[1..]
      && t.stack[0].strict == tx.strict && t.stack[0].root == tx.root
      && if shapes[ObjOf(l)].inBootImage || (tx.strict && shapes[ObjOf(l)].isClass && ObjOf(l) != tx.root) ||
            (!tx.strict && s.bootImageSpaces && v.Pointer? && v.r in shapes && !shapes[v.r].referenceable)
         then t.heap == s.heap && t.stack[0] == tx.(aborted := true)
         else t.heap == s.heap.(mem := s.heap.mem[l := v]) && t.stack[0].aborted == tx.aborted
  {
    hide ValidHeap, EncodeSlot;
    assert ValidSlot(s.heap.shapes, l, s.heap.mem[l]) by { SlotIsValid(s.heap, l); }
  }

  /** In strict mode a class initializer can set the static fields of its own class, and every
      object outside the boot image that is no class, to any value. */
  lemma OwnStaticsAreWritable(s: Sys, l: Loc, v: Val)
    requires ValidHeap(s.heap) && Enabled(s, Write(l, v, true)) && s.stack != [] && s.stack[0].strict
    requires ObjOf(l) in s.heap.shapes && !s.heap.shapes[ObjOf(l)].inBootImage
    requires ObjOf(l) == s.stack[0].root || !s.heap.shapes[ObjOf(l)].isClass
    ensures var t := Step(s, Write(l, v, true));
      l in t.heap.mem && t.heap.mem[l] == v && t.stack != [] && t.stack[0].aborted == s.stack[0].aborted
  {
    hide Step;
    GuardedStoreExactly(s, l, v);
  }

  /** Storing null, storing in strict mode and storing without a boot image to extend are never
      refused on account of the value. */
  lemma ValueIsNoReason(s: Sys, l: Loc, v: Val, v': Val)
    requires ValidHeap(s.heap) && Enabled(s, Write(l, v, true)) && Enabled(s, Write(l, v', true)) && s.stack != []
    requires v == Pointer(0) || !v.Pointer? || s.stack[0].strict || !s.bootImageSpaces
    ensures Step(s, Write(l, v, true)).heap == s.heap && s.heap.mem[l] != v ==> Step(s, Write(l, v', true)).heap == s.heap
  {
    hide Step;
    GuardedStoreExactly(s, l, v);
    GuardedStoreExactly(s, l, v');
    assert 0 !in s.heap.shapes;
    if s.heap.mem[l] != v {
      assert s.heap.mem[l := v][l] == v;
    }
  }

  // ---- Runs in which nothing is refused ----

  /** A guarded store to what may be stored to. */
  predicate Permitted(s: Sys, e: Event) {
    e.Write? && e.guarded && s.stack != [] && ObjOf(e.loc) in s.heap.shapes ==>
      var sh, tx := s.heap.shapes[ObjOf(e.loc)], s.stack[0];
      && !sh.inBootImage
      && (tx.strict ==> sh.isClass ==> ObjOf(e.loc) == tx.root)
      && (!tx.strict && s.bootImageSpaces && e.val.Pointer? && e.val.r in s.heap.shapes ==> s.heap.shapes[e.val.r].referenceable)
  }

  ghost predicate AllPermitted(s: Sys, es: seq<Event>)
    requires Runs(s, es)
    decreases |es|
  {
    es == [] || (Permitted(s, es[0]) && AllPermitted(Step(s, es[0]), es[1..]))
  }

  predicate Unaborted(stack: seq<Tx>) {
    forall i :: 0 <= i < |stack| ==> !stack[i].aborted
  }

  lemma RecordKeepsAborted(tx: Tx, sh: Shape, l: Loc, cur: Val)
    requires HasSlot(sh, l) && Fits(SlotTypeOf(sh, l), cur)
    ensures RecordWrite(tx, sh, l, cur).aborted == tx.aborted
  {
  }

  lemma RefusedExactly(s: Sys, e: Event)
    requires e.Write? && e.guarded && s.stack != [] && ObjOf(e.loc) in s.heap.shapes
    ensures var tx, shapes, l, v := s.stack[0], s.heap.shapes, e.loc, e.val;
      !Permitted(s, e) <==>
        shapes[ObjOf(l)].inBootImage || (tx.strict && shapes[ObjOf(l)].isClass && ObjOf(l) != tx.root) ||
        (!tx.strict && s.bootImageSpaces && v.Pointer? && v.r in shapes && !shapes[v.r].referenceable)
  {
  }

  /** An event aborts a transaction exactly when it is a guarded store that is not permitted. */
  lemma AbortsExactly(s: Sys, e: Event)
    requires ValidHeap(s.heap) && Enabled(s, e) && Unaborted(s.stack)
    ensures Unaborted(Step(s, e).stack) <==> Permitted(s, e)
  {
    hide ValidHeap, RecordWrite, ApplyIntern, Undo;
    match e {
      case Write(l, v, guarded) =>
        SlotIsValid(s.heap, l);
        if s.stack != [] {
          RecordKeepsAborted(s.stack[0], s.heap.shapes[ObjOf(l)], l, s.heap.mem[l]);
          if guarded {
            hide Step, Enabled, Permitted;
            GuardedStoreExactly(s, l, v);
            RefusedExactly(s, e);
          }
        }
      case _ =>
    }
  }

  /** A run whose guarded stores are all permitted aborts nothing, from the first to the last state. */
  lemma {:induction false} PermittedRunsAreNotAborted(s: Sys, hist: seq<Snapshot>, es: seq<Event>)
    requires Inv(s, hist) && Runs(s, es) && Unaborted(s.stack) && AllPermitted(s, es)
    ensures Unaborted(Run(s, es).stack)
    decreases |es|
  {
    hide Step, StepHistory, AllRestore, NewerThan, AllValid, ValidHeap, Unaborted, Permitted;
    if es != [] {
      AbortsExactly(s, es[0]);
      StepKeeps(s, hist, es[0]);
      PermittedRunsAreNotAborted(Step(s, es[0]), StepHistory(hist, s, es[0]), es[1..]);
    }
  }

  // ---- What the other events do ----

  /** A transaction that is entered has nothing logged and is not aborted, and commits leave the heap
      alone. */
  lemma EnterAndExitKeepHeap(s: Sys, strict: bool, root: Ref)
    requires ValidHeap(s.heap) && Enabled(s, Enter(strict, root))
    ensures var t := Step(s, Enter(strict, root));
      && t.heap == s.heap && |t.stack| == |s.stack| + 1 && t.stack[1..] == s.stack
      && t.stack[0] == Tx(strict, root, map[], map[], [], 0, false)
      && Enabled(t, Exit) && Step(t, Exit) == s
  {
    hide ValidHeap;
  }

  /** An allocation adds the object with the slots it is given and changes no other. */
  lemma AllocationAdds(s: Sys, e: Event)
    requires ValidHeap(s.heap) && e.Allocate? && Enabled(s, e)
    ensures var t := Step(s, e);
      && e.r !in s.heap.shapes && t.heap.shapes == s.heap.shapes[e.r := e.shape]
      && (forall l <- e.init :: ObjOf(l) == e.r && l in t.heap.mem && t.heap.mem[l] == e.init[l])
      && (forall l <- s.heap.mem :: ObjOf(l) != e.r && l in t.heap.mem && t.heap.mem[l] == s.heap.mem[l])
      && t.heap.mem.Keys == s.heap.mem.Keys + e.init.Keys && t.heap.strong == s.heap.strong && t.heap.weak == s.heap.weak
  {
    forall l | l in s.heap.mem ensures ObjOf(l) != e.r {
      assert ValidSlot(s.heap.shapes, l, s.heap.mem[l]);
    }
  }

  /** An allocation that is reported becomes the last one of the innermost transaction, flagged as new in
      the log of its kind; one that is not leaves all logs alone. */
  lemma AllocationIsFlagged(s: Sys, e: Event)
    requires ValidHeap(s.heap) && e.Allocate? && Enabled(s, e)
    ensures var t := Step(s, e);
      && (!e.recorded ==> t.stack == s.stack) && |t.stack| == |s.stack|
      && (e.recorded && s.stack != [] ==> t.stack[1..] == s.stack[1..] && t.stack[0].lastAllocated == e.r)
      && (e.recorded && s.stack != [] ==>
            if e.shape.elem.Some? then e.r in t.stack[0].arrayLogs && t.stack[0].arrayLogs[e.r] == ArrayLog(true, map[])
            else e.r in t.stack[0].objectLogs && t.stack[0].objectLogs[e.r] == ObjectLog(true, map[]))
  {
    hide ValidHeap, ValidSlot;
  }

  /** A collection takes exactly the freed objects away, with their slots and weak entries. */
  lemma CollectionTakes(s: Sys, dead: set<Ref>)
    requires ValidHeap(s.heap) && Enabled(s, Collect(dead))
    ensures var t := Step(s, Collect(dead));
      && (forall x :: x in t.heap.shapes <==> x in s.heap.shapes && x !in dead)
      && (forall x <- t.heap.shapes :: t.heap.shapes[x] == s.heap.shapes[x])
      && (forall l :: l in t.heap.mem <==> l in s.heap.mem && ObjOf(l) !in dead)
      && (forall l <- t.heap.mem :: t.heap.mem[l] == s.heap.mem[l])
      && (forall x :: x in t.heap.weak <==> x in s.heap.weak && s.heap.weak[x] !in dead)
      && (forall x <- t.heap.weak :: t.heap.weak[x] == s.heap.weak[x])
      && t.heap.strong == s.heap.strong && t.stack == s.stack
  {
    hide ValidHeap, Collectable;
  }

  // ---- Which events are possible ----

  /** Every value of a field's type can be stored in it, in any transaction or none. */
  lemma FieldStoresArePossible(s: Sys, o: Ref, off: nat, v: Val, guarded: bool)
    requires ValidHeap(s.heap) && Field(o, off) in s.heap.mem
    ensures o in s.heap.shapes && off in s.heap.shapes[o].fields
    ensures var f := s.heap.shapes[o].fields[off];
      Enabled(s, Write(Field(o, off), v, guarded)) <==>
        if f == FReference then v.Pointer? && (v.r == 0 || v.r in s.heap.shapes)
        else v.Bits? && v.n < (if f == FBoolean || f == FByte then 256 else if f == FChar || f == FShort then 65536
                               else if f == FInt then 4294967296 else 18446744073709551616)
  {
    assert ValidSlot(s.heap.shapes, Field(o, off), s.heap.mem[Field(o, off)]);
  }

  /** The same for elements of primitive arrays. */
  lemma ElementStoresArePossible(s: Sys, a: Ref, i: nat, v: Val, guarded: bool)
    requires ValidHeap(s.heap) && Elem(a, i) in s.heap.mem
    ensures a in s.heap.shapes && s.heap.shapes[a].elem.Some?
    ensures var p := s.heap.shapes[a].elem.value;
      Enabled(s, Write(Elem(a, i), v, guarded)) <==>
        if p == PFloat || p == PDouble then v.Fp?
        else v.Bits? && v.n < (if p == PBoolean || p == PByte then 256 else if p == PChar || p == PShort then 65536
                               else if p == PInt then 4294967296 else 18446744073709551616)
  {
    assert ValidSlot(s.heap.shapes, Elem(a, i), s.heap.mem[Elem(a, i)]);
  }

  /** A transaction can be entered for any class or none, and committed whenever one is open; an
      object can be put at any free address, a class only outside transactions. */
  lemma OtherEventsArePossible(s: Sys, strict: bool, root: Ref, r: Ref, sh: Shape, recorded: bool)
    ensures Enabled(s, Enter(strict, root)) <==> root == 0 || root in s.heap.shapes
    ensures Enabled(s, Exit) <==> |s.stack| > 0
    ensures Enabled(s, Allocate(r, sh, map[], recorded)) <==>
      r != 0 && r !in s.heap.shapes && (sh.isClass ==> |s.stack| == 0) && (sh.elem.Some? ==> sh.isArray)
  {
  }

  // ---- What the log keeps ----

  lemma FlaggedIsNotLogged(tx: Tx, sh: Shape, l: Loc, cur: Val)
    requires HasSlot(sh, l) && Fits(SlotTypeOf(sh, l), cur)
    requires if l.Field? then l.obj in tx.objectLogs && tx.objectLogs[l.obj].isNew else l.arr in tx.arrayLogs && tx.arrayLogs[l.arr].isNew
    ensures RecordWrite(tx, sh, l, cur) == tx
  {
    hide EncodeSlot;
    if l.Field? {
      assert tx.objectLogs[l.obj := tx.objectLogs[l.obj]] == tx.objectLogs;
    } else {
      assert tx.arrayLogs[l.arr := tx.arrayLogs[l.arr]] == tx.arrayLogs;
    }
  }

  /** Stores to an object that the transaction itself has allocated, the last one or an earlier one,
      are not logged. */
  lemma NewObjectsAreNotLogged(tx: Tx, sh: Shape, r: Ref, sh': Shape, r': Ref, l: Loc, cur: Val)
    requires ObjOf(l) == r && HasSlot(sh, l) && Fits(SlotTypeOf(sh, l), cur) && (l.Elem? <==> sh.elem.Some?)
    requires (sh.elem.Some? ==> sh.isArray) && (sh'.elem.Some? ==> sh'.isArray) && r' != r
    ensures var tx1 := RecordAllocation(tx, sh, r);
      var tx2 := RecordAllocation(tx1, sh', r');
      RecordWrite(tx1, sh, l, cur) == tx1 && RecordWrite(tx2, sh, l, cur) == tx2
  {
    hide RecordWrite;
    var tx1 := RecordAllocation(tx, sh, r);
    FlaggedIsNotLogged(tx1, sh, l, cur);
    FlaggedIsNotLogged(RecordAllocation(tx1, sh', r'), sh, l, cur);
  }

  /** The words that the log keeps: a byte field and the signed elements with their sign, everything
      else, short fields included, without. */
  lemma LoggedWords()
    ensures EncodeSlot(FieldSlot(FByte), Bits(255)) == 18446744073709551615
    ensures EncodeSlot(FieldSlot(FShort), Bits(65535)) == 65535 && EncodeSlot(FieldSlot(FChar), Bits(65535)) == 65535
    ensures EncodeSlot(FieldSlot(FInt), Bits(4294967295)) == 4294967295 && EncodeSlot(FieldSlot(FBoolean), Bits(1)) == 1
    ensures EncodeSlot(ElemSlot(PByte), Bits(255)) == 18446744073709551615
    ensures EncodeSlot(ElemSlot(PShort), Bits(65535)) == 18446744073709551615
    ensures EncodeSlot(ElemSlot(PInt), Bits(4294967295)) == 18446744073709551615
    ensures EncodeSlot(ElemSlot(PChar), Bits(65535)) == 65535 && EncodeSlot(ElemSlot(PDouble), Fp(2.5)) == 2
  {
  }

  lemma {:induction false} LoggedIsListed(stack: seq<Tx>, i: nat, op: InternOp)
    requires i < |stack| && op in stack[i].internLogs
    ensures op in AllOps(stack)
  {
    if i > 0 {
      LoggedIsListed(stack[1..], i - 1, op);
    }
  }

  /** A commit is harmless exactly when no string that the innermost transaction removed from a table
      has the text of one that an enclosing transaction inserted into the same table. */
  lemma HarmlessExactly(s: Sys)
    requires s.stack != []
    ensures HarmlessExit(s) <==>
      forall a, i, b :: a in s.stack[0].internLogs && 0 < i < |s.stack| && b in s.stack[i].internLogs && !a.isInsert && b.isInsert ==>
        a.isStrong != b.isStrong || TextOf(s.heap.shapes, a.str) != TextOf(s.heap.shapes, b.str)
  {
    var rest := s.stack[1..];
    assert forall i :: 0 < i < |s.stack| ==> s.stack[i] == rest[i - 1];
    forall b ensures b in AllOps(rest) <==> exists i :: 0 < i < |s.stack| && b in s.stack[i].internLogs {
      if b in AllOps(rest) {
        LoggedBySome(rest, b);
        var i :| 0 <= i < |rest| && b in rest[i].internLogs;
        assert b in s.stack[i + 1].internLogs;
      }
      if i :| 0 < i < |s.stack| && b in s.stack[i].internLogs {
        LoggedIsListed(rest, i - 1, b);
      }
    }
  }
}
