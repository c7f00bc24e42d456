/** The edges of the control flow graph: fall-through, taken and exception edges. A block whose
    handler sets only grow gets one set of exception edges for the whole block; any other block is
    walked again and gets exception edges per instruction. */
module DexdumpEdges {
  import opened Sets
  import opened Wrappers
  import opened DexdumpCfg

  /** `port` is the instruction the edge leaves; an edge without one leaves the block as a whole. */
  datatype Edge = Edge(from: nat, port: Option<nat>, to: nat, toPc: nat)

  // ---- What each kind of edge is ----

  function Handlers(code: Code, i: nat): set<nat>
    requires i < |code|
  {
    SetOf(code[i].handlers)
  }

  /** Control falls from the last instruction of a block into instruction `i`. */
  ghost predicate RegularEdge(code: Code, i: nat, e: Edge)
    requires ValidCode(code) && i < |code|
  {
    && i > 0 && StartsBlock(code, i) && !NoFallThrough(code[i - 1].op)
    && e == Edge(NodeOf(code, i - 1), Some(Pc(code, i - 1)), NodeOf(code, i), Pc(code, i))
  }

  /** Instruction `i` jumps to an instruction of the method. */
  ghost predicate TakenEdge(code: Code, i: nat, e: Edge)
    requires ValidCode(code) && i < |code|
  {
    exists k :: 0 <= k < |code| && JumpsTo(code, i, Pc(code, k))
      && e == Edge(NodeOf(code, i), Some(Pc(code, i)), NodeOf(code, k), Pc(code, k))
  }

  /** An edge from `node` to a handler of `hs` that is an instruction of the method. */
  ghost predicate HandledBy(code: Code, node: nat, port: Option<nat>, hs: set<nat>, e: Edge)
    requires ValidCode(code)
  {
    exists k :: 0 <= k < |code| && Pc(code, k) in hs && e == Edge(node, port, NodeOf(code, k), Pc(code, k))
  }

  /** The common handlers of a block up to and including instruction `i`. */
  ghost function Common(code: Code, i: nat): set<nat>
    requires ValidCode(code) && i < |code|
  {
    if StartsBlock(code, i) || Common(code, i - 1) <= Handlers(code, i) then Handlers(code, i) else {}
  }

  /** The common set of the block does not fit instruction `i`. */
  ghost predicate Misfit(code: Code, i: nat)
    requires ValidCode(code) && i < |code|
  {
    !StartsBlock(code, i) && !(Common(code, i - 1) <= Handlers(code, i))
  }

  ghost predicate EndsBlock(code: Code, i: nat)
    requires ValidCode(code) && i < |code|
  {
    i + 1 == |code| || StartsBlock(code, i + 1)
  }

  /** An edge drawn for the whole block that ends with instruction `i`. */
  ghost predicate CommonEdge(code: Code, i: nat, e: Edge)
    requires ValidCode(code) && i < |code|
  {
    EndsBlock(code, i) && HandledBy(code, NodeOf(code, i), None, Common(code, i), e)
  }

  /** Block `b` is walked again, instruction by instruction. */
  ghost predicate Detailed(code: Code, b: nat)
    requires ValidCode(code)
  {
    exists i :: 0 <= i < |code| && Misfit(code, i) && BlockStart(code, i) == b
  }

  ghost predicate DetailedEdge(code: Code, i: nat, e: Edge)
    requires ValidCode(code) && i < |code|
  {
    Detailed(code, BlockStart(code, i)) && HandledBy(code, NodeOf(code, i), Some(Pc(code, i)), Handlers(code, i), e)
  }

  ghost predicate IsExceptionEdge(code: Code, e: Edge)
    requires ValidCode(code)
  {
    exists i :: 0 <= i < |code| && (CommonEdge(code, i, e) || DetailedEdge(code, i, e))
  }

  // ---- The exception edges say which handlers a block can reach ----

  /** The common set is that of the last instruction, unless that one did not fit. */
  lemma CommonIs(code: Code, i: nat)
    requires ValidCode(code) && i < |code|
    ensures Common(code, i) == if Misfit(code, i) then {} else Handlers(code, i)
  {
  }

  /** A block is drawn in detail exactly when some instruction lacks a handler of its predecessor. */
  lemma DetailedExactly(code: Code, b: nat)
    requires ValidCode(code) && b < |code| && StartsBlock(code, b)
    ensures Detailed(code, b) <==>
      exists i :: b < i < |code| && BlockStart(code, i) == b && !(Handlers(code, i - 1) <= Handlers(code, i))
  {
    if Detailed(code, b) {
      var i :| 0 <= i < |code| && Misfit(code, i) && BlockStart(code, i) == b;
      CommonIs(code, i - 1);
      assert b < i && !(Handlers(code, i - 1) <= Handlers(code, i));
    }
    if i :| b < i < |code| && BlockStart(code, i) == b && !(Handlers(code, i - 1) <= Handlers(code, i)) {
      CommonIs(code, i - 1);
      if Misfit(code, i - 1) {
        assert BlockStart(code, i - 1) == b;
      } else {
        assert Misfit(code, i);
      }
    }
  }

  /** In a block that is not drawn in detail, the handler sets grow up to the last instruction. */
  lemma {:induction false} GrowsToLast(code: Code, i: nat, j: nat)
    requires ValidCode(code) && i <= j < |code| && BlockStart(code, i) == BlockStart(code, j)
    requires !Detailed(code, BlockStart(code, i))
    ensures Handlers(code, i) <= Common(code, j)
  {
    CommonIs(code, j);
    if i < j {
      SameBlockStart(code, i, j);
      SameBlockStart(code, i, j - 1);
      GrowsToLast(code, i, j - 1);
    }
  }

  /** The last instruction of the block that contains `i`. */
  lemma BlockEnd(code: Code, i: nat) returns (j: nat)
    requires ValidCode(code) && i < |code|
    ensures i <= j < |code| && EndsBlock(code, j)
    ensures BlockStart(code, i) == BlockStart(code, j) && NodeOf(code, i) == NodeOf(code, j)
  {
    j := i;
    while !EndsBlock(code, j)
      invariant i <= j < |code| && BlockStart(code, i) == BlockStart(code, j)
      decreases |code| - j
    {
      j := j + 1;
    }
    NodesPartition(code, i, j);
  }

  /** Complete: whichever way its block is drawn, a covered instruction has its edge. */
  lemma ExceptionEdgesComplete(code: Code, i: nat, k: nat)
    requires ValidCode(code) && i < |code| && k < |code| && Pc(code, k) in Handlers(code, i)
    ensures
      || IsExceptionEdge(code, Edge(NodeOf(code, i), None, NodeOf(code, k), Pc(code, k)))
      || IsExceptionEdge(code, Edge(NodeOf(code, i), Some(Pc(code, i)), NodeOf(code, k), Pc(code, k)))
  {
    hide Common, NodeOf, Pc, Handlers, BlockStart, StartsBlock;
    if Detailed(code, BlockStart(code, i)) {
      assert DetailedEdge(code, i, Edge(NodeOf(code, i), Some(Pc(code, i)), NodeOf(code, k), Pc(code, k)));
    } else {
      var j := BlockEnd(code, i);
      GrowsToLast(code, i, j);
      assert CommonEdge(code, j, Edge(NodeOf(code, i), None, NodeOf(code, k), Pc(code, k)));
    }
  }

  /** Sound: an edge leads from a node to a handler of one of its instructions, of the instruction
      it names if it names one. */
  lemma ExceptionEdgesSound(code: Code, e: Edge) returns (i: nat, k: nat)
    requires ValidCode(code) && IsExceptionEdge(code, e)
    ensures i < |code| && k < |code| && Pc(code, k) in Handlers(code, i)
    ensures e.from == NodeOf(code, i) && e.to == NodeOf(code, k) && e.toPc == Pc(code, k)
    ensures e.port.Some? ==> e.port == Some(Pc(code, i)) && Detailed(code, BlockStart(code, i))
  {
    i :| 0 <= i < |code| && (CommonEdge(code, i, e) || DetailedEdge(code, i, e));
    CommonIs(code, i);
    k :| 0 <= k < |code| && Pc(code, k) in Handlers(code, i) && e == Edge(NodeOf(code, i), e.port, NodeOf(code, k), Pc(code, k));
  }

  // ---- Pass three: edges ----

  ghost predicate RegularBefore(code: Code, n: nat, e: Edge)
    requires ValidCode(code) && n <= |code|
  {
    exists i :: 0 <= i < n && RegularEdge(code, i, e)
  }

  ghost predicate TakenBefore(code: Code, n: nat, e: Edge)
    requires ValidCode(code) && n <= |code|
  {
    exists i :: 0 <= i < n && TakenEdge(code, i, e)
  }

  ghost predicate CommonBefore(code: Code, n: nat, e: Edge)
    requires ValidCode(code) && n <= |code|
  {
    exists i :: 0 <= i < n && CommonEdge(code, i, e)
  }

  ghost predicate MisfitBefore(code: Code, n: nat, p: nat)
    requires ValidCode(code) && n <= |code|
  {
    exists i :: 0 <= i < n && Misfit(code, i) && Pc(code, BlockStart(code, i)) == p
  }

  lemma BeforeNext(code: Code, n: nat, m: nat)
    requires ValidCode(code) && m == n + 1 && m <= |code|
    ensures forall e :: RegularBefore(code, m, e) <==> RegularBefore(code, n, e) || RegularEdge(code, n, e)
    ensures forall e :: TakenBefore(code, m, e) <==> TakenBefore(code, n, e) || TakenEdge(code, n, e)
    ensures forall e :: CommonBefore(code, m, e) <==> CommonBefore(code, n, e) || CommonEdge(code, n, e)
  {
    hide RegularEdge, TakenEdge, CommonEdge;
  }

  lemma MisfitNext(code: Code, n: nat, m: nat)
    requires ValidCode(code) && m == n + 1 && m <= |code|
    ensures forall p :: MisfitBefore(code, m, p) <==> MisfitBefore(code, n, p) || (Misfit(code, n) && Pc(code, BlockStart(code, n)) == p)
  {
    hide Misfit, Pc, BlockStart;
  }

  lemma HandledByUnion(code: Code, node: nat, port: Option<nat>, a: set<nat>, b: set<nat>, e: Edge)
    requires ValidCode(code)
    ensures HandledBy(code, node, port, a + b, e) <==> HandledBy(code, node, port, a, e) || HandledBy(code, node, port, b, e)
  {
    hide Pc, NodeOf;
  }

  lemma HandledByOne(code: Code, node: nat, port: Option<nat>, h: nat, inclId: map<nat, nat>, e: Edge)
    requires ValidCode(code) && InclMap(code, |code|, inclId)
    ensures HandledBy(code, node, port, {h}, e) <==> h in inclId && e == Edge(node, port, inclId[h], h)
  {
    hide Pc, NodeOf;
  }

  /** What a block of handler edges is: the handlers that are instructions. */
  method CommonEdges(ghost code: Code, node: nat, handlers: set<nat>, inclId: map<nat, nat>) returns (out: seq<Edge>)
    requires ValidCode(code) && InclMap(code, |code|, inclId)
    ensures forall e :: e in out <==> HandledBy(code, node, None, handlers, e)
  {
    out := [];
    var rest := handlers;
    while rest != {}
      invariant rest <= handlers
      invariant forall e :: e in out <==> HandledBy(code, node, None, handlers - rest, e)
    {
      var h :| h in rest;
      forall e ensures HandledBy(code, node, None, handlers - (rest - {h}), e) <==>
        HandledBy(code, node, None, handlers - rest, e) || HandledBy(code, node, None, {h}, e) {
        HandledByUnion(code, node, None, handlers - rest, {h}, e);
        assert handlers - (rest - {h}) == handlers - rest + {h};
      }
      forall e { HandledByOne(code, node, None, h, inclId, e); }
      if h in inclId {
        out := out + [Edge(node, None, inclId[h], h)];
      }
      rest := rest - {h};
    }
    assert handlers - rest == handlers;
  }

  ghost predicate JumpEdge(code: Code, i: nat, offset: int, e: Edge)
    requires ValidCode(code) && i < |code|
  {
    exists k :: 0 <= k < |code| && Pc(code, k) == U32(Pc(code, i) + offset)
      && e == Edge(NodeOf(code, i), Some(Pc(code, i)), NodeOf(code, k), Pc(code, k))
  }

  /** Every jump target inside the method starts a block, so looking it up loses no edge. */
  lemma TargetsAreNodes(code: Code, i: nat, offset: int, nodeId: map<nat, nat>)
    requires ValidCode(code) && i < |code| && NodeMap(code, |code|, nodeId) && offset in Offsets(code[i].op)
    ensures var p := U32(Pc(code, i) + offset);
      forall e :: JumpEdge(code, i, offset, e) <==> p in nodeId && e == Edge(NodeOf(code, i), Some(Pc(code, i)), nodeId[p], p)
  {
    hide Pc, NodeOf, Offsets, U32;
    var p := U32(Pc(code, i) + offset);
    assert JumpsTo(code, i, p);
    assert IsTarget(code, p);
  }

  lemma TakenByOffset(code: Code, i: nat, e: Edge)
    requires ValidCode(code) && i < |code|
    ensures TakenEdge(code, i, e) <==> exists m :: 0 <= m < |Offsets(code[i].op)| && JumpEdge(code, i, Offsets(code[i].op)[m], e)
  {
    hide Pc, NodeOf, Offsets, U32;
    if TakenEdge(code, i, e) {
      var k :| 0 <= k < |code| && JumpsTo(code, i, Pc(code, k)) && e == Edge(NodeOf(code, i), Some(Pc(code, i)), NodeOf(code, k), Pc(code, k));
      var m :| 0 <= m < |Offsets(code[i].op)| && U32(Pc(code, i) + Offsets(code[i].op)[m]) == Pc(code, k);
      assert JumpEdge(code, i, Offsets(code[i].op)[m], e);
    }
    if m :| 0 <= m < |Offsets(code[i].op)| && JumpEdge(code, i, Offsets(code[i].op)[m], e) {
      var k :| 0 <= k < |code| && Pc(code, k) == U32(Pc(code, i) + Offsets(code[i].op)[m])
        && e == Edge(NodeOf(code, i), Some(Pc(code, i)), NodeOf(code, k), Pc(code, k));
      assert JumpsTo(code, i, Pc(code, k));
    }
  }

  method TakenEdges(code: Code, i: nat, pc: nat, node: nat, nodeId: map<nat, nat>) returns (out: seq<Edge>)
    requires ValidCode(code) && i < |code| && pc == Pc(code, i) && node == NodeOf(code, i) && NodeMap(code, |code|, nodeId)
    ensures forall e :: e in out <==> TakenEdge(code, i, e)
  {
    hide Pc, NodeOf, Offsets, U32, NodeMap;
    out := [];
    var offs := Offsets(code[i].op);
    for m := 0 to |offs|
      invariant forall e :: e in out <==> exists m' :: 0 <= m' < m && JumpEdge(code, i, offs[m'], e)
    {
      var p := U32(pc + offs[m]);
      TargetsAreNodes(code, i, offs[m], nodeId);
      if p in nodeId {
        out := out + [Edge(node, Some(pc), nodeId[p], p)];
      }
    }
    forall e ensures e in out <==> TakenEdge(code, i, e) { TakenByOffset(code, i, e); }
  }

  /** The node control may fall out of before instruction `i`. */
  ghost function LastNode(code: Code, i: nat): Option<nat>
    requires ValidCode(code) && i <= |code|
  {
    if i == 0 || NoFallThrough(code[i - 1].op) then None else Some(NodeOf(code, i - 1))
  }

  lemma AtInstruction(code: Code, i: nat, nodeId: map<nat, nat>)
    requires ValidCode(code) && i < |code| && NodeMap(code, |code|, nodeId)
    ensures Pc(code, i) in nodeId <==> StartsBlock(code, i)
    ensures StartsBlock(code, i) ==> nodeId[Pc(code, i)] == NodeOf(code, i) && BlockStart(code, i) == i
    ensures !StartsBlock(code, i) ==> i > 0 && LastNode(code, i) == Some(NodeOf(code, i)) && BlockStart(code, i) == BlockStart(code, i - 1)
    ensures Pc(code, BlockStart(code, i)) == Pc(code, i) <==> StartsBlock(code, i)
    ensures Pc(code, BlockStart(code, i)) in nodeId && nodeId[Pc(code, BlockStart(code, i))] == NodeOf(code, i)
  {
    hide Pc;
    forall k | 0 <= k < |code| ensures Pc(code, k) == Pc(code, i) <==> k == i { PcInjective(code, k, i); }
    NodesPartition(code, BlockStart(code, i), i);
  }

  lemma NothingBefore(code: Code)
    requires ValidCode(code)
    ensures forall e :: !RegularBefore(code, 0, e)
    ensures forall e :: !TakenBefore(code, 0, e)
    ensures forall e :: !CommonBefore(code, 0, e)
    ensures forall p :: !MisfitBefore(code, 0, p)
  {
  }

  lemma NoHandlers(code: Code, node: nat, port: Option<nat>)
    requires ValidCode(code)
    ensures forall e :: !HandledBy(code, node, port, {}, e)
  {
  }

  lemma NoJump(code: Code, i: nat)
    requires ValidCode(code) && i < |code| && !code[i].op.Branch? && !code[i].op.Switch?
    ensures forall e :: !TakenEdge(code, i, e)
  {
  }

  method MakeEdges(code: Code, nodeId: map<nat, nat>, inclId: map<nat, nat>)
    returns (regular: seq<Edge>, taken: seq<Edge>, common: seq<Edge>, detailed: set<nat>)
    requires ValidCode(code) && NodeMap(code, |code|, nodeId) && InclMap(code, |code|, inclId)
    ensures forall e :: e in regular <==> RegularBefore(code, |code|, e)
    ensures forall e :: e in taken <==> TakenBefore(code, |code|, e)
    ensures forall e :: e in common <==> CommonBefore(code, |code|, e)
    ensures forall p :: p in detailed <==> MisfitBefore(code, |code|, p)
  {
    hide Pc, NodeOf, NodeMap, InclMap, Offsets, BlockStart, StartsBlock, HandledBy, TakenEdge;
    hide RegularBefore, TakenBefore, CommonBefore, MisfitBefore;
    regular, taken, common, detailed := [], [], [], {};
    var lastNode: Option<nat>, blockStart: Option<nat>, targets: set<nat> := None, None, {};
    var pc, oldPc := 0, 0;
    PcZero(code);
    NothingBefore(code);
    for i := 0 to |code|
      invariant pc == Pc(code, i) && lastNode == LastNode(code, i)
      invariant i > 0 ==> oldPc == Pc(code, i - 1) && blockStart == Some(Pc(code, BlockStart(code, i - 1)))
      invariant targets == if i == 0 then {} else Common(code, i - 1)
      invariant forall e :: e in regular <==> RegularBefore(code, i, e)
      invariant forall e :: e in taken <==> TakenBefore(code, i, e)
      invariant forall e :: e in common <==> CommonBefore(code, if i == 0 then 0 else i - 1, e)
      invariant forall p :: p in detailed <==> MisfitBefore(code, i, p)
    {
      AtInstruction(code, i, nodeId);
      if i > 0 {
        AtInstruction(code, i - 1, nodeId);
        BeforeNext(code, i - 1, i);
      }
      BeforeNext(code, i, i + 1);
      MisfitNext(code, i, i + 1);
      if pc in nodeId {
        if targets != {} {
          var out := CommonEdges(code, nodeId[blockStart.value], targets, inclId);
          common := common + out;
          targets := {};
        } else if i > 0 {
          NoHandlers(code, NodeOf(code, i - 1), None);
        }
        blockStart := Some(pc);
        if lastNode.Some? {
          regular := regular + [Edge(lastNode.value, Some(oldPc), nodeId[pc], pc)];
        }
        lastNode := Some(nodeId[pc]);
      }
      targets := targets + Handlers(code, i);
      if code[i].op.Branch? || code[i].op.Switch? {
        var out := TakenEdges(code, i, pc, lastNode.value, nodeId);
        taken := taken + out;
      } else {
        NoJump(code, i);
      }
      if blockStart != Some(pc) && Handlers(code, i) != targets {
        targets := {};
        detailed := detailed + {blockStart.value};
      }
      if code[i].op.Return? || code[i].op.Throw? || (code[i].op.Branch? && code[i].op.unconditional) {
        lastNode := None;
      }
      oldPc := pc;
      PcNext(code, i);
      pc := pc + code[i].size;
    }
    if |code| > 0 {
      AtInstruction(code, |code| - 1, nodeId);
      BeforeNext(code, |code| - 1, |code|);
      NoHandlers(code, NodeOf(code, |code| - 1), None);
    }
    if targets != {} {
      var out := CommonEdges(code, nodeId[blockStart.value], targets, inclId);
      common := common + out;
    }
  }

  // ---- The second pass over blocks that need detail ----

  /** The exception edges of one instruction, each handler once. */
  method InstructionEdges(ghost code: Code, node: nat, pc: nat, handlers: seq<nat>, inclId: map<nat, nat>) returns (out: seq<Edge>)
    requires ValidCode(code) && InclMap(code, |code|, inclId)
    ensures forall e :: e in out <==> HandledBy(code, node, Some(pc), SetOf(handlers), e)
    ensures forall a, b :: 0 <= a < b < |out| ==> out[a] != out[b]
  {
    hide HandledBy, InclMap;
    out := [];
    var handled: set<nat> := {};
    NoHandlers(code, node, Some(pc));
    for m := 0 to |handlers|
      invariant handled == SetOf(handlers[..m])
      invariant forall e :: e in out <==> HandledBy(code, node, Some(pc), handled, e)
      invariant forall e <- out :: e.toPc in handled
      invariant forall a, b :: 0 <= a < b < |out| ==> out[a] != out[b]
    {
      var h := handlers[m];
      assert handlers[..m + 1] == handlers[..m] + [h];
      forall e { HandledByUnion(code, node, Some(pc), handled, {h}, e); }
      forall e { HandledByOne(code, node, Some(pc), h, inclId, e); }
      if h !in handled {
        if h in inclId {
          out := out + [Edge(node, Some(pc), inclId[h], h)];
        }
        handled := handled + {h};
      } else {
        assert handled + {h} == handled;
      }
    }
    assert handlers[..|handlers|] == handlers;
  }

  /** The instruction at an address. */
  method InstructionAt(code: Code, pc: nat) returns (i: nat)
    requires ValidCode(code) && IsPc(code, pc)
    ensures i < |code| && Pc(code, i) == pc
  {
    hide Pc;
    i := 0;
    var at := 0;
    PcZero(code);
    ghost var k :| 0 <= k < |code| && Pc(code, k) == pc;
    while at != pc
      invariant i <= k && at == Pc(code, i)
      decreases k - i
    {
      PcNext(code, i);
      at := at + code[i].size;
      i := i + 1;
    }
  }

  ghost predicate PortEdge(code: Code, i: nat, e: Edge)
    requires ValidCode(code) && i < |code|
  {
    HandledBy(code, NodeOf(code, i), Some(Pc(code, i)), Handlers(code, i), e)
  }

  ghost predicate PortBetween(code: Code, b: nat, n: nat, e: Edge)
    requires ValidCode(code) && n <= |code|
  {
    exists i :: b <= i < n && PortEdge(code, i, e)
  }

  lemma PortNext(code: Code, b: nat, n: nat, m: nat)
    requires ValidCode(code) && b <= n && m == n + 1 && m <= |code|
    ensures forall e :: PortBetween(code, b, m, e) <==> PortBetween(code, b, n, e) || PortEdge(code, n, e)
    ensures forall e :: !PortBetween(code, b, b, e)
  {
    hide PortEdge;
  }

  ghost predicate PortOfBlock(code: Code, b: nat, e: Edge)
    requires ValidCode(code)
  {
    exists i :: 0 <= i < |code| && BlockStart(code, i) == b && PortEdge(code, i, e)
  }

  lemma WholeBlock(code: Code, start: nat, i: nat, m: nat)
    requires ValidCode(code) && start <= i < |code| && m == i + 1 && BlockStart(code, i) == start && EndsBlock(code, i)
    ensures forall e :: PortOfBlock(code, start, e) <==> PortBetween(code, start, m, e)
  {
    hide PortEdge, Pc, StartsBlock, BlockStart;
    forall j | 0 <= j < |code| ensures BlockStart(code, j) == start <==> start <= j <= i {
      if j <= i {
        SameBlockStart(code, j, i);
      } else {
        SameBlockStart(code, i, j);
      }
    }
  }

  /** Walks the block that starts at `start`. */
  method BlockEdges(code: Code, start: nat, nodeId: map<nat, nat>, inclId: map<nat, nat>) returns (out: seq<Edge>)
    requires ValidCode(code) && NodeMap(code, |code|, nodeId) && InclMap(code, |code|, inclId)
    requires start < |code| && StartsBlock(code, start)
    ensures forall e :: e in out <==> PortOfBlock(code, start, e)
  {
    hide Pc, NodeOf, NodeMap, HandledBy, PortBetween, PortOfBlock, BlockStart, IsTarget;
    out := [];
    var i, pc := start, Pc(code, start);
    AtInstruction(code, start, nodeId);
    var node := inclId[pc];
    PortNext(code, start, start, start + 1);
    while true
      invariant start <= i < |code| && pc == Pc(code, i) && BlockStart(code, i) == start && NodeOf(code, i) == node
      invariant forall e :: e in out <==> PortBetween(code, start, i, e)
      decreases |code| - i
    {
      var more := InstructionEdges(code, node, pc, code[i].handlers, inclId);
      PortNext(code, start, i, i + 1);
      out := out + more;
      if i + 1 < |code| {
        AtInstruction(code, i + 1, nodeId);
      }
      if IsBasicBlockEnd(code[i].op) {
        break;
      }
      PcNext(code, i);
      pc := pc + code[i].size;
      if i + 1 == |code| || pc in nodeId {
        break;
      }
      i := i + 1;
    }
    WholeBlock(code, start, i, i + 1);
  }

  /** An edge of an instruction whose block starts at one of the addresses `starts`. */
  ghost predicate PortOfAny(code: Code, starts: set<nat>, e: Edge)
    requires ValidCode(code)
  {
    exists i :: 0 <= i < |code| && Pc(code, BlockStart(code, i)) in starts && PortEdge(code, i, e)
  }

  lemma PortOfUnion(code: Code, a: set<nat>, b: set<nat>)
    requires ValidCode(code)
    ensures forall e :: PortOfAny(code, a + b, e) <==> PortOfAny(code, a, e) || PortOfAny(code, b, e)
    ensures forall e :: !PortOfAny(code, {}, e)
  {
    hide Pc, BlockStart, PortEdge;
  }

  lemma PortOfOne(code: Code, b: nat, p: nat)
    requires ValidCode(code) && b < |code| && p == Pc(code, b)
    ensures forall e :: PortOfAny(code, {p}, e) <==> PortOfBlock(code, b, e)
  {
    hide Pc, BlockStart, PortEdge;
    forall i | 0 <= i < |code| ensures Pc(code, BlockStart(code, i)) == p <==> BlockStart(code, i) == b {
      PcInjective(code, BlockStart(code, i), b);
    }
  }

  method DetailedEdges(code: Code, detailed: set<nat>, nodeId: map<nat, nat>, inclId: map<nat, nat>) returns (out: seq<Edge>)
    requires ValidCode(code) && NodeMap(code, |code|, nodeId) && InclMap(code, |code|, inclId)
    requires forall p <- detailed :: p in nodeId
    ensures forall e :: e in out <==> PortOfAny(code, detailed, e)
  {
    hide Pc, PortOfAny, PortOfBlock, InclMap, StartsBlock;
    out := [];
    var rest := detailed;
    PortOfUnion(code, {}, {});
    assert detailed - rest == {};
    while rest != {}
      invariant rest <= detailed
      invariant forall e :: e in out <==> PortOfAny(code, detailed - rest, e)
    {
      var p :| p in rest;
      var start := InstructionAt(code, p);
      AtInstruction(code, start, nodeId);
      var more := BlockEdges(code, start, nodeId, inclId);
      PortOfOne(code, start, p);
      PortOfUnion(code, detailed - rest, {p});
      assert detailed - (rest - {p}) == detailed - rest + {p};
      out := out + more;
      rest := rest - {p};
    }
    assert detailed - rest == detailed;
  }

  lemma DetailedBlocks(code: Code, detailed: set<nat>, nodeId: map<nat, nat>)
    requires ValidCode(code) && NodeMap(code, |code|, nodeId) && forall p :: p in detailed <==> MisfitBefore(code, |code|, p)
    ensures forall p <- detailed :: p in nodeId
    ensures forall i :: 0 <= i < |code| ==> (Pc(code, BlockStart(code, i)) in detailed <==> Detailed(code, BlockStart(code, i)))
  {
    hide Pc, Misfit, NodeOf, BlockStart;
    forall i, j | 0 <= i < |code| && 0 <= j < |code|
      ensures Pc(code, BlockStart(code, i)) == Pc(code, BlockStart(code, j)) <==> BlockStart(code, i) == BlockStart(code, j) {
      PcInjective(code, BlockStart(code, i), BlockStart(code, j));
    }
  }

  /** Control can fall from instruction `i` into the next one, which is in another block. */
  ghost predicate IsRegularEdge(code: Code, e: Edge)
    requires ValidCode(code)
  {
    exists i :: 0 <= i < |code| && RegularEdge(code, i, e)
  }

  ghost predicate IsTakenEdge(code: Code, e: Edge)
    requires ValidCode(code)
  {
    exists i :: 0 <= i < |code| && TakenEdge(code, i, e)
  }

  lemma ExceptionEdgeSplit(code: Code, detailed: set<nat>)
    requires ValidCode(code)
    requires forall i :: 0 <= i < |code| ==> (Pc(code, BlockStart(code, i)) in detailed <==> Detailed(code, BlockStart(code, i)))
    ensures forall e :: IsExceptionEdge(code, e) <==> CommonBefore(code, |code|, e) || PortOfAny(code, detailed, e)
  {
    hide Pc, BlockStart, Detailed, CommonEdge, HandledBy, NodeOf;
    forall i, e | 0 <= i < |code|
      ensures DetailedEdge(code, i, e) <==> Pc(code, BlockStart(code, i)) in detailed && PortEdge(code, i, e) {
    }
  }

  /** The whole graph of a method. */
  method DumpMethodCfg(code: Code)
    returns (nodeId: map<nat, nat>, inclId: map<nat, nat>, regular: seq<Edge>, taken: seq<Edge>, exceptions: seq<Edge>)
    requires ValidCode(code)
    ensures NodeMap(code, |code|, nodeId) && |nodeId| == Starts(code, |code|) && InclMap(code, |code|, inclId)
    ensures forall e :: e in regular <==> IsRegularEdge(code, e)
    ensures forall e :: e in taken <==> IsTakenEdge(code, e)
    ensures forall e :: e in exceptions <==> IsExceptionEdge(code, e)
  {
    hide IsTarget, NodeMap, InclMap, Starts, RegularEdge, TakenEdge, CommonBefore, IsExceptionEdge, MisfitBefore, PortOfAny;
    var targets := FindTargets(code);
    nodeId, inclId := MakeNodes(code, targets);
    var common, detailed;
    regular, taken, common, detailed := MakeEdges(code, nodeId, inclId);
    DetailedBlocks(code, detailed, nodeId);
    var more := DetailedEdges(code, detailed, nodeId, inclId);
    ExceptionEdgeSplit(code, detailed);
    exceptions := common + more;
  }

  /** Every jump to an instruction of the method has an edge, from the node that holds the jump to
      the node that starts at its target. */
  lemma TakenEdgesComplete(code: Code, i: nat, k: nat)
    requires ValidCode(code) && i < |code| && k < |code| && JumpsTo(code, i, Pc(code, k))
    ensures StartsBlock(code, k) && BlockStart(code, k) == k
    ensures IsTakenEdge(code, Edge(NodeOf(code, i), Some(Pc(code, i)), NodeOf(code, k), Pc(code, k)))
  {
    hide Pc, NodeOf, JumpsTo;
    assert TakenEdge(code, i, Edge(NodeOf(code, i), Some(Pc(code, i)), NodeOf(code, k), Pc(code, k)));
  }

  /** From an instruction that is followed by a new block there is a regular edge to that block for
      a plain instruction, a switch and a conditional branch, and none for a return, a throw and an
      unconditional branch. */
  lemma RegularEdgesExactly(code: Code, i: nat)
    requires ValidCode(code) && i + 1 < |code| && StartsBlock(code, i + 1)
    ensures IsRegularEdge(code, Edge(NodeOf(code, i), Some(Pc(code, i)), NodeOf(code, i + 1), Pc(code, i + 1))) <==>
      match code[i].op
      case Plain => true
      case Branch(unconditional, _) => !unconditional
      case Switch(_, _) => true
      case Return => false
      case Throw => false
    ensures forall e :: IsRegularEdge(code, e) && e.port == Some(Pc(code, i)) ==>
      e == Edge(NodeOf(code, i), Some(Pc(code, i)), NodeOf(code, i + 1), Pc(code, i + 1))
  {
    hide Pc, NodeOf, StartsBlock;
    var e := Edge(NodeOf(code, i), Some(Pc(code, i)), NodeOf(code, i + 1), Pc(code, i + 1));
    assert !NoFallThrough(code[i].op) ==> RegularEdge(code, i + 1, e);
    forall e' | IsRegularEdge(code, e') && e'.port == Some(Pc(code, i)) ensures e' == e && !NoFallThrough(code[i].op) {
      var j :| 0 <= j < |code| && RegularEdge(code, j, e');
      PcInjective(code, j - 1, i);
    }
  }

  /** Control can move from instruction `i` to instruction `k`: to a handler, by falling through, or
      by jumping. */
  ghost predicate Moves(code: Code, i: nat, k: nat)
    requires ValidCode(code) && i < |code| && k < |code|
  {
    || Pc(code, k) in code[i].handlers
    || match code[i].op
       case Plain => k == i + 1
       case Branch(unconditional, offset) => (k == i + 1 && !unconditional) || Pc(code, k) == (Pc(code, i) + offset) % 4294967296
       case Switch(packed, payload) => k == i + 1 ||
         exists n :: 0 <= n < |SwitchOffsets(packed, payload)| && Pc(code, k) == (Pc(code, i) + SwitchOffsets(packed, payload)[n]) % 4294967296
       case Return => false
       case Throw => false
  }

  lemma MovesAre(code: Code, i: nat, k: nat)
    requires ValidCode(code) && i < |code| && k < |code|
    ensures Moves(code, i, k) <==>
      (k == i + 1 && !NoFallThrough(code[i].op)) || JumpsTo(code, i, Pc(code, k)) || Pc(code, k) in Handlers(code, i)
  {
    hide Pc, SwitchOffsets, JumpsTo;
    JumpsExactly(code, i, Pc(code, k));
  }

  ghost predicate InGraph(code: Code, e: Edge)
    requires ValidCode(code)
  {
    IsRegularEdge(code, e) || IsTakenEdge(code, e) || IsExceptionEdge(code, e)
  }

  lemma MovesFollowEdges(code: Code, i: nat, k: nat)
    requires ValidCode(code) && i < |code| && k < |code| && Moves(code, i, k)
    ensures NodeOf(code, k) == NodeOf(code, i) || exists e :: InGraph(code, e) && e.from == NodeOf(code, i) && e.to == NodeOf(code, k)
  {
    hide Pc, JumpsTo, IsTakenEdge, IsExceptionEdge, IsTarget, Handlers, Moves;
    MovesAre(code, i, k);
    var e := Edge(NodeOf(code, i), Some(Pc(code, i)), NodeOf(code, k), Pc(code, k));
    if JumpsTo(code, i, Pc(code, k)) {
      TakenEdgesComplete(code, i, k);
      assert InGraph(code, e);
    } else if Pc(code, k) in Handlers(code, i) {
      ExceptionEdgesComplete(code, i, k);
      assert InGraph(code, e) || InGraph(code, e.(port := None));
    } else if StartsBlock(code, k) {
      assert RegularEdge(code, k, e);
      assert InGraph(code, e);
    }
  }

  /** Every edge is a move of control: from an instruction of its node, the one it names if it names
      one, to the instruction it points to. */
  lemma EdgesAreMoves(code: Code, e: Edge) returns (i: nat, k: nat)
    requires ValidCode(code) && InGraph(code, e)
    ensures i < |code| && k < |code| && Moves(code, i, k)
    ensures e.from == NodeOf(code, i) && e.to == NodeOf(code, k) && e.toPc == Pc(code, k)
    ensures e.port.Some? ==> e.port == Some(Pc(code, i))
  {
    hide Pc, NodeOf, JumpsTo, StartsBlock, Moves, Handlers, IsExceptionEdge;
    if IsRegularEdge(code, e) {
      k :| 0 <= k < |code| && RegularEdge(code, k, e);
      i := k - 1;
    } else if IsTakenEdge(code, e) {
      i :| 0 <= i < |code| && TakenEdge(code, i, e);
      k :| 0 <= k < |code| && JumpsTo(code, i, Pc(code, k)) && e == Edge(NodeOf(code, i), Some(Pc(code, i)), NodeOf(code, k), Pc(code, k));
    } else {
      i, k := ExceptionEdgesSound(code, e);
    }
    MovesAre(code, i, k);
  }

  ghost predicate IsRun(code: Code, run: seq<nat>)
    requires ValidCode(code)
  {
    && |run| > 0
    && (forall t :: 0 <= t < |run| ==> run[t] < |code|)
    && forall t :: 0 < t < |run| ==> Moves(code, run[t - 1], run[t])
  }

  /** `path` leads from node `a` to node `b`. */
  ghost predicate IsPath(code: Code, a: nat, path: seq<Edge>, b: nat)
    requires ValidCode(code)
  {
    if path == [] then a == b
    else InGraph(code, path[|path| - 1]) && path[|path| - 1].to == b && IsPath(code, a, path[..|path| - 1], path[|path| - 1].from)
  }

  /** Every run of the method is a path of the graph: what a run can reach, the drawn graph can. */
  lemma {:induction false} RunsArePaths(code: Code, run: seq<nat>) returns (path: seq<Edge>)
    requires ValidCode(code) && IsRun(code, run)
    ensures IsPath(code, NodeOf(code, run[0]), path, NodeOf(code, run[|run| - 1]))
    ensures |path| < |run|
  {
    hide Moves, InGraph, NodeOf, ValidCode;
    if |run| == 1 {
      path := [];
    } else {
      var n := |run| - 1;
      path := RunsArePaths(code, run[..n]);
      MovesFollowEdges(code, run[n - 1], run[n]);
      if NodeOf(code, run[n]) != NodeOf(code, run[n - 1]) {
        var e :| InGraph(code, e) && e.from == NodeOf(code, run[n - 1]) && e.to == NodeOf(code, run[n]);
        assert (path + [e])[..|path|] == path;
        path := path + [e];
      }
    }
  }
}
