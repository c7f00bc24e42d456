/** Strict mode with a moving collector: the isolation results for runs in which objects move. */
module StrictMoving {
  import opened HeapModel
  import opened TransactionModel
  import opened InternLogs
  import opened TransactionRuns
  import opened StrictIsolation
  import opened MovingGc
  import opened VisitRefines

  ghost predicate GcStrictRun(s: Sys, gs: seq<GcEvent>)
    requires GcRuns(s, gs)
    decreases |gs|
  {
    gs == [] ||
    match gs[0]
    case Mutate(e) => StrictEvent(s, e) && GcStrictRun(Step(s, e), gs[1..])
    case Relocate(w) => GcStrictRun(RSys(w, s), gs[1..])
  }

  /** No event starts initializing the class at `k` again or frees it, wherever it moves. */
  predicate GcLeavesAlone(gs: seq<GcEvent>, k: Ref) {
    gs == [] ||
    match gs[0]
    case Mutate(e) => LeavesAlone(e, k) && GcLeavesAlone(gs[1..], k)
    case Relocate(w) => GcLeavesAlone(gs[1..], To(w, k))
  }

  // ---- The run without its moves is strict, too ----

  lemma {:induction false} OriginalParts(ws: seq<Exchange>, e: Event)
    ensures var o := OriginalEvent(ws, e);
      && (o.Enter? <==> e.Enter?) && (o.Write? <==> e.Write?) && (o.Collect? <==> e.Collect?)
      && (e.Enter? ==> o.strict == e.strict && o.root == FromAll(ws, e.root))
      && (e.Write? ==> o.guarded == e.guarded)
      && (e.Collect? ==> forall x :: x in o.dead <==> ToAll(ws, x) in e.dead)
  {
    hide RMem, RRefs;
    if ws != [] {
      OriginalParts(ws[..|ws| - 1], REvent(ws[|ws| - 1], e));
    }
  }

  lemma OriginalStrict(ws: seq<Exchange>, s: Sys, e: Event)
    ensures StrictEvent(RSysAll(ws, s), e) <==> StrictEvent(s, OriginalEvent(ws, e))
  {
    hide RSysAll, OriginalEvent, FromAll, ToAll;
    OriginalParts(ws, e);
    StackRenamed(ws, s);
  }

  lemma OriginalLeavesAlone(ws: seq<Exchange>, e: Event, k: Ref)
    requires LeavesAlone(e, ToAll(ws, k))
    ensures LeavesAlone(OriginalEvent(ws, e), k)
  {
    hide OriginalEvent, FromAll, ToAll;
    OriginalParts(ws, e);
    if e.Enter? {
      RenamedMember(ws, {}, e.root);
    }
  }

  lemma {:induction false} StrictWithoutMoves(ws: seq<Exchange>, s: Sys, gs: seq<GcEvent>)
    requires GcRuns(RSysAll(ws, s), gs) && GcStrictRun(RSysAll(ws, s), gs)
    ensures Runs(s, WithoutMoves(ws, gs)) && StrictRun(s, WithoutMoves(ws, gs))
    decreases |gs|
  {
    hide RSys, RSysAll, Step, Enabled, ValidHeap, Run, OriginalEvent, StrictEvent;
    MovesOnlyRename(ws, s, gs);
    if gs != [] {
      match gs[0] {
        case Mutate(e) =>
          StepCommutesAll(ws, s, e);
          OriginalStrict(ws, s, e);
          StrictWithoutMoves(ws, Step(s, OriginalEvent(ws, e)), gs[1..]);
          assert WithoutMoves(ws, gs)[1..] == WithoutMoves(ws, gs[1..]);
        case Relocate(w) =>
          ExchangeLast(ws, w, s);
          StrictWithoutMoves(ws + [w], s, gs[1..]);
      }
    }
  }

  /** Every commit of the run, objects moving in between, is harmless. */
  ghost predicate GcHarmless(s: Sys, gs: seq<GcEvent>)
    requires GcRuns(s, gs)
    decreases |gs|
  {
    gs == [] ||
    match gs[0]
    case Mutate(e) => (e.Exit? ==> HarmlessExit(s)) && GcHarmless(Step(s, e), gs[1..])
    case Relocate(w) => GcHarmless(RSys(w, s), gs[1..])
  }

  lemma HarmlessCommutes(w: Exchange, shapes: map<Ref, Shape>, dropped: seq<InternOp>, rest: seq<InternOp>)
    requires Harmless(RKeys(w, shapes), ROps(w, dropped), ROps(w, rest))
    ensures Harmless(shapes, dropped, rest)
  {
    hide RKeys, TextOf;
    forall a, b | a in dropped && b in rest && !a.isInsert && b.isInsert ensures !SameEntry(shapes, a, b) {
      var i :| 0 <= i < |dropped| && dropped[i] == a;
      var j :| 0 <= j < |rest| && rest[j] == b;
      assert ROps(w, dropped)[i] in ROps(w, dropped) && ROps(w, rest)[j] in ROps(w, rest);
      TextCommutes(w, shapes, a.str);
      TextCommutes(w, shapes, b.str);
    }
  }

  lemma HarmlessExitCommutes(w: Exchange, s: Sys)
    requires s.stack != [] && HarmlessExit(RSys(w, s))
    ensures HarmlessExit(s)
  {
    hide RKeys, RTable, RMem, RLogs, Harmless, AllOps;
    assert RStack(w, s.stack)[1..] == RStack(w, s.stack[1..]);
    AllOpsCommute(w, s.stack[1..]);
    HarmlessCommutes(w, s.heap.shapes, s.stack[0].internLogs, AllOps(s.stack[1..]));
  }

  lemma {:induction false} HarmlessExitOriginally(ws: seq<Exchange>, s: Sys)
    requires s.stack != [] && RSysAll(ws, s).stack != [] && HarmlessExit(RSysAll(ws, s))
    ensures HarmlessExit(s)
  {
    hide RSys, HarmlessExit;
    if ws != [] {
      StackRenamed(ws[..|ws| - 1], s);
      HarmlessExitCommutes(ws[|ws| - 1], RSysAll(ws[..|ws| - 1], s));
      HarmlessExitOriginally(ws[..|ws| - 1], s);
    }
  }

  lemma {:induction false} HarmlessWithoutMoves(ws: seq<Exchange>, s: Sys, gs: seq<GcEvent>)
    requires GcRuns(RSysAll(ws, s), gs) && GcHarmless(RSysAll(ws, s), gs)
    ensures Runs(s, WithoutMoves(ws, gs)) && HarmlessRun(s, WithoutMoves(ws, gs))
    decreases |gs|
  {
    hide RSys, RSysAll, Step, ValidHeap, Run, OriginalEvent, HarmlessExit;
    MovesOnlyRename(ws, s, gs);
    if gs != [] {
      match gs[0] {
        case Mutate(e) =>
          StepCommutesAll(ws, s, e);
          OriginalKind(ws, e);
          if e.Exit? {
            StackRenamed(ws, s);
            HarmlessExitOriginally(ws, s);
          }
          HarmlessWithoutMoves(ws, Step(s, OriginalEvent(ws, e)), gs[1..]);
          assert WithoutMoves(ws, gs)[1..] == WithoutMoves(ws, gs[1..]);
        case Relocate(w) =>
          ExchangeLast(ws, w, s);
          HarmlessWithoutMoves(ws + [w], s, gs[1..]);
      }
    }
  }

  lemma ToAllLast(ws: seq<Exchange>, w: Exchange, x: Ref)
    ensures ToAll(ws + [w], x) == To(w, ToAll(ws, x))
  {
    assert (ws + [w])[..|ws|] == ws;
  }

  lemma {:induction false} LeftAloneWithoutMoves(ws: seq<Exchange>, gs: seq<GcEvent>, k: Ref)
    requires GcLeavesAlone(gs, ToAll(ws, k))
    ensures forall e <- WithoutMoves(ws, gs) :: LeavesAlone(e, k)
    decreases |gs|
  {
    hide ToAll, OriginalEvent, LeavesAlone;
    if gs != [] {
      match gs[0] {
        case Mutate(e) =>
          OriginalLeavesAlone(ws, e, k);
          LeftAloneWithoutMoves(ws, gs[1..], k);
        case Relocate(w) =>
          ToAllLast(ws, w, k);
          LeftAloneWithoutMoves(ws + [w], gs[1..], k);
      }
    }
  }

  // ---- Following a class through moves ----

  lemma SettledBefore(w: Exchange, s: Sys, k: Ref, off: nat)
    requires Settled(RSys(w, s), k, off)
    ensures Settled(s, To(w, k), off)
  {
    hide RMem, RKeys, RLogs;
    assert k in RKeys(w, s.heap.shapes) && Field(k, off) in RMem(w, s.heap.mem);
    forall i | 0 <= i < |s.stack| ensures s.stack[i].root != To(w, k) {
      assert RSys(w, s).stack[i].root == To(w, s.stack[i].root);
      ToTwice(w, k);
    }
  }

  lemma {:induction false} SettledOriginally(ws: seq<Exchange>, s: Sys, k: Ref, off: nat)
    requires Settled(RSysAll(ws, s), k, off)
    ensures Settled(s, FromAll(ws, k), off)
  {
    hide RSys, Settled;
    if ws != [] {
      SettledBefore(ws[|ws| - 1], RSysAll(ws[..|ws| - 1], s), k, off);
      SettledOriginally(ws[..|ws| - 1], s, To(ws[|ws| - 1], k), off);
    }
  }

  lemma {:induction false} ToAllConcat(a: seq<Exchange>, b: seq<Exchange>, x: Ref)
    ensures ToAll(a + b, x) == ToAll(b, ToAll(a, x))
  {
    if b == [] {
      assert a + b == a;
    } else {
      ToAllConcat(a, b[..|b| - 1], x);
      assert (a + b)[..|a + b| - 1] == a + b[..|b| - 1];
    }
  }

  /** A slot of the heap before the moves, after `a` and after `a` and `b`. */
  lemma SlotAfterMoves(a: seq<Exchange>, b: seq<Exchange>, h: Heap, k: Ref, off: nat)
    requires Field(FromAll(a, k), off) in h.mem
    ensures var v, l := h.mem[Field(FromAll(a, k), off)], Field(ToAll(b, k), off);
      && Field(k, off) in RHeapAll(a, h).mem && RHeapAll(a, h).mem[Field(k, off)] == RValAll(a, v)
      && l in RHeapAll(a + b, h).mem && RHeapAll(a + b, h).mem[l] == RValAll(b, RValAll(a, v))
  {
    hide RHeapAll, ToAll, FromAll;
    var k0 := FromAll(a, k);
    RenamedMember(a, {}, k);
    RenamedSlot(a, h, Field(k0, off));
    RenamedSlot(a + b, h, Field(k0, off));
    ToAllConcat(a, b, k0);
    if h.mem[Field(k0, off)].Pointer? {
      ToAllConcat(a, b, h.mem[Field(k0, off)].r);
    }
  }

  // ---- Results ----

  lemma NoMoves(s: Sys)
    ensures RSysAll([], s) == s
  {
  }

  lemma OwnClass(s: Sys, i: nat, o: Ref)
    requires Isolated(s) && i < |s.stack| && o in s.stack[i].objectLogs && o in s.heap.shapes && s.heap.shapes[o].isClass
    ensures o == s.stack[i].root
  {
    assert OnlyOwnClass(s.stack[i], s.heap.shapes);
  }

  lemma IsolatedAfterMove(w: Exchange, s: Sys)
    requires Isolated(s)
    ensures Isolated(RSys(w, s))
  {
    hide RMem, RKeys, RLogs;
    forall i | 0 <= i < |s.stack| ensures OnlyOwnClass(RSys(w, s).stack[i], RSys(w, s).heap.shapes) {
      assert OnlyOwnClass(s.stack[i], s.heap.shapes);
      forall o | o in RLogs(w, s.stack[i].objectLogs) && o in RKeys(w, s.heap.shapes) && RKeys(w, s.heap.shapes)[o].isClass
        ensures o == To(w, s.stack[i].root) {
        ToTwice(w, o);
      }
    }
  }

  lemma {:induction false} IsolatedAfterMoves(ws: seq<Exchange>, s: Sys)
    requires Isolated(s)
    ensures Isolated(RSysAll(ws, s))
  {
    hide RSys, Isolated;
    if ws != [] {
      IsolatedAfterMoves(ws[..|ws| - 1], s);
      IsolatedAfterMove(ws[|ws| - 1], RSysAll(ws[..|ws| - 1], s));
    }
  }

  /** In every state of every strict run, objects moving in between, no open transaction's log
      mentions a class object other than its root. */
  lemma MovingLogsMentionOnlyRoot(s: Sys, gs: seq<GcEvent>, i: nat, o: Ref)
    requires ValidHeap(s.heap) && s.stack == [] && GcRuns(s, gs) && GcStrictRun(s, gs)
    requires var t := GcRun(s, gs); i < |t.stack| && o in t.stack[i].objectLogs && o in t.heap.shapes && t.heap.shapes[o].isClass
    ensures o == GcRun(s, gs).stack[i].root
  {
    hide GcRun, Run, RSysAll, OnlyOwnClass;
    assert RSysAll([], s) == s by { NoMoves(s); }
    MovesOnlyRename([], s, gs);
    StrictWithoutMoves([], s, gs);
    var u := Run(s, WithoutMoves([], gs));
    assert [] + Exchanges(gs) == Exchanges(gs);
    RunKeepsIsolation(s, [], WithoutMoves([], gs));
    IsolatedAfterMoves(Exchanges(gs), u);
    OwnClass(GcRun(s, gs), i, o);
  }

  lemma SettledSlot(s: Sys, k: Ref, off: nat)
    requires Settled(s, k, off)
    ensures Field(k, off) in s.heap.mem
  {
  }

  /** What a nested initializer has committed stays, wherever objects move: after any strict run
      with moves, the static fields of the class, at its new address, have the values they had,
      references renamed, also when everything is rolled back. */
  lemma MovingCommitSurvives(s: Sys, before: seq<GcEvent>, after: seq<GcEvent>, k: Ref, off: nat)
    requires ValidHeap(s.heap) && s.stack == [] && GcRuns(s, before) && GcStrictRun(s, before)
    requires GcRuns(GcRun(s, before), after) && GcStrictRun(GcRun(s, before), after)
    requires Settled(GcRun(s, before), k, off) && GcLeavesAlone(after, k)
    ensures var u, t, ws := GcRun(s, before), GcRun(GcRun(s, before), after), Exchanges(after);
      var l := Field(ToAll(ws, k), off);
      && Field(k, off) in u.heap.mem && l in t.heap.mem && ShapesCover(t.heap.mem, t.heap.shapes)
      && RollbackAll(t.stack, t.heap).mem[l] == t.heap.mem[l] == RValAll(ws, u.heap.mem[Field(k, off)])
      && (GcHarmless(s, before) && GcHarmless(u, after) ==> RollsBack(t))
  {
    hide HarmlessRun, GcHarmless, RollsBack, GcRun, Run, RunHistory, RSysAll, RHeapAll, RollbackAll, StrictRun, Settled, ToAll, FromAll, ValidHeap;
    var es, a, b := WithoutMoves([], before), Exchanges(before), Exchanges(after);
    NoMoves(s);
    MovesOnlyRename([], s, before);
    StrictWithoutMoves([], s, before);
    assert [] + a == a;
    var u0, k0 := Run(s, es), FromAll(a, k);
    SettledOriginally(a, u0, k, off);
    RenamedMember(a, {}, k);
    MovesOnlyRename(a, u0, after);
    StrictWithoutMoves(a, u0, after);
    LeftAloneWithoutMoves(a, after, k0);
    var es' := WithoutMoves(a, after);
    NestedCommitSurvives(s, es, es', k0, off);
    if GcHarmless(s, before) && GcHarmless(GcRun(s, before), after) {
      HarmlessWithoutMoves([], s, before);
      HarmlessWithoutMoves(a, u0, after);
    }
    var t0 := Run(u0, es');
    StackRenamed(a, u0);
    StackRenamed(a + b, t0);
    RollbackCommutesAll(a + b, t0);
    assert Field(k0, off) in u0.heap.mem by { SettledSlot(u0, k0, off); }
    RollsBackAfterMoves(a + b, t0);
    SlotAfterMoves(a, b, u0.heap, k, off);
    SlotAfterMoves(a, b, t0.heap, k, off);
    SlotAfterMoves(a, b, RollbackAll(t0.stack, t0.heap), k, off);
  }

  lemma {:induction false} ValidAfterMoves(ws: seq<Exchange>, h: Heap)
    requires ValidHeap(h)
    ensures ValidHeap(RHeapAll(ws, h))
  {
    hide ValidHeap, RHeap;
    if ws != [] {
      ValidAfterMoves(ws[..|ws| - 1], h);
      ValidHeapCommutes(ws[|ws| - 1], RHeapAll(ws[..|ws| - 1], h));
    }
  }

  /** Rolling back everything after any run with moves leaves no reference dangling. */
  lemma MovingRollbackNeverDangles(s: Sys, gs: seq<GcEvent>)
    requires ValidHeap(s.heap) && s.stack == [] && GcRuns(s, gs)
    ensures var t := GcRun(s, gs); ShapesCover(t.heap.mem, t.heap.shapes) && ValidHeap(RollbackAll(t.stack, t.heap))
    ensures GcHarmless(s, gs) ==> RollsBack(GcRun(s, gs))
  {
    hide GcRun, Run, RollbackAll, RHeapAll, ValidHeap, RollsBack, HarmlessRun, GcHarmless;
    RollbackCommutesWithMoving(s, gs);
    NoMoves(s);
    if GcHarmless(s, gs) {
      HarmlessWithoutMoves([], s, gs);
    }
    RollbackNeverDangles(s, WithoutMoves([], gs));
    var t := Run(s, WithoutMoves([], gs));
    ValidAfterMoves(Exchanges(gs), RollbackAll(t.stack, t.heap));
  }
}
