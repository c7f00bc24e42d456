/** The control flow graph that dexdump draws for a method: basic blocks, branch edges and
    exception edges, built in several passes over the instruction list. */
module DexdumpCfg {
  import opened Words

  /** The payload of a switch is given by its code units. */
  datatype Op =
    | Plain
    | Branch(unconditional: bool, offset: int)
    | Switch(packed: bool, payload: seq<nat>)
    | Return
    | Throw

  /** `handlers` are the addresses of the catch handlers of the try block around the instruction. */
  datatype Inst = Inst(op: Op, size: nat, handlers: seq<nat>)

  type Code = seq<Inst>

  // ---- Instructions ----

  /** Two code units as a signed 32-bit offset. */
  function Signed32(lo: nat, hi: nat): int {
    var u := lo + hi * TWO_16;
    if u < TWO_31 then u else u - TWO_32
  }

  /** Packed: signature, count, two units of first key. Sparse: signature, count, keys. */
  function TargetsStart(packed: bool, count: nat): nat {
    if packed then 4 else 2 + 2 * count
  }

  predicate ValidPayload(packed: bool, payload: seq<nat>) {
    && |payload| >= 2 && TargetsStart(packed, payload[1]) + 2 * payload[1] <= |payload|
    && forall u <- payload :: u < TWO_16
  }

  /** The offsets in a switch's payload. */
  function SwitchOffsets(packed: bool, payload: seq<nat>): seq<int>
    requires ValidPayload(packed, payload)
  {
    var start := TargetsStart(packed, payload[1]);
    seq(payload[1], k requires 0 <= k < payload[1] => Signed32(payload[start + k * 2], payload[start + k * 2 + 1]))
  }

  // ---- Payloads as a compiler lays them out ----

  /** A signed 32-bit number as two code units, the low one first. */
  function Units(x: int): (us: seq<nat>)
    ensures |us| == 2 && forall u <- us :: u < TWO_16
  {
    var u := x % TWO_32;
    [u % TWO_16, u / TWO_16]
  }

  function AllUnits(xs: seq<int>): (us: seq<nat>)
    ensures |us| == 2 * |xs| && (forall u <- us :: u < TWO_16)
    ensures forall k :: 0 <= k < |xs| ==> us[2 * k] == Units(xs[k])[0] && us[2 * k + 1] == Units(xs[k])[1]
  {
    if xs == [] then [] else AllUnits(xs[..|xs| - 1]) + Units(xs[|xs| - 1])
  }

  predicate IsInt32(x: int) { 0 <= x + TWO_31 < TWO_32 }

  function PackedPayload(signature: nat, firstKey: int, offsets: seq<int>): seq<nat> {
    [signature, |offsets|] + Units(firstKey) + AllUnits(offsets)
  }

  function SparsePayload(signature: nat, keys: seq<int>, offsets: seq<int>): seq<nat> {
    [signature, |offsets|] + AllUnits(keys) + AllUnits(offsets)
  }

  lemma UnitsRoundTrip(x: int)
    requires IsInt32(x)
    ensures Signed32(Units(x)[0], Units(x)[1]) == x
  {
    var u := x % TWO_32;
    assert u == u % TWO_16 + u / TWO_16 * TWO_16;
  }

  lemma PackedRoundTrip(signature: nat, firstKey: int, offsets: seq<int>)
    requires signature < TWO_16 && |offsets| < TWO_16 && forall x <- offsets :: IsInt32(x)
    ensures var payload := PackedPayload(signature, firstKey, offsets);
      ValidPayload(true, payload) && SwitchOffsets(true, payload) == offsets
  {
    hide Units, AllUnits, Signed32;
    var payload := PackedPayload(signature, firstKey, offsets);
    forall k | 0 <= k < |offsets| ensures SwitchOffsets(true, payload)[k] == offsets[k] {
      UnitsRoundTrip(offsets[k]);
      assert payload[4 + k * 2] == AllUnits(offsets)[2 * k] && payload[4 + k * 2 + 1] == AllUnits(offsets)[2 * k + 1];
    }
  }

  lemma SparseRoundTrip(signature: nat, keys: seq<int>, offsets: seq<int>)
    requires signature < TWO_16 && |keys| == |offsets| < TWO_16 && forall x <- offsets :: IsInt32(x)
    ensures var payload := SparsePayload(signature, keys, offsets);
      ValidPayload(false, payload) && SwitchOffsets(false, payload) == offsets
  {
    hide Units, AllUnits, Signed32;
    var payload, n := SparsePayload(signature, keys, offsets), |offsets|;
    forall k | 0 <= k < n ensures SwitchOffsets(false, payload)[k] == offsets[k] {
      UnitsRoundTrip(offsets[k]);
      assert payload[2 + 2 * n + k * 2] == AllUnits(offsets)[2 * k] && payload[2 + 2 * n + k * 2 + 1] == AllUnits(offsets)[2 * k + 1];
    }
  }

  predicate ValidOp(op: Op) {
    op.Switch? ==> ValidPayload(op.packed, op.payload)
  }

  function Offsets(op: Op): seq<int>
    requires ValidOp(op)
  {
    match op
    case Branch(_, offset) => [offset]
    case Switch(packed, payload) => SwitchOffsets(packed, payload)
    case _ => []
  }

  predicate IsBasicBlockEnd(op: Op) { op.Branch? || op.Return? || op.Throw? }

  /** Control cannot reach the next instruction. */
  predicate NoFallThrough(op: Op) { op.Return? || op.Throw? || (op.Branch? && op.unconditional) }

  function U32(x: int): nat { x % TWO_32 }

  function Pc(code: Code, i: nat): nat
    requires i <= |code|
  {
    if i == 0 then 0 else Pc(code, i - 1) + code[i - 1].size
  }

  ghost predicate ValidCode(code: Code) {
    && (forall i :: 0 <= i < |code| ==> code[i].size > 0 && ValidOp(code[i].op))
    && Pc(code, |code|) < TWO_32
  }

  lemma {:induction false} PcIncreases(code: Code, i: nat, j: nat)
    requires ValidCode(code) && i < j <= |code|
    ensures Pc(code, i) < Pc(code, j)
  {
    if i < j - 1 {
      PcIncreases(code, i, j - 1);
    }
  }

  lemma PcInjective(code: Code, i: nat, j: nat)
    requires ValidCode(code) && i <= |code| && j <= |code|
    ensures Pc(code, i) == Pc(code, j) <==> i == j
    ensures Pc(code, i) < Pc(code, j) <==> i < j
  {
    if i < j {
      PcIncreases(code, i, j);
    } else if j < i {
      PcIncreases(code, j, i);
    }
  }

  /** Some instruction starts at `p`. */
  ghost predicate IsPc(code: Code, p: nat) {
    exists k :: 0 <= k < |code| && Pc(code, k) == p
  }

  // ---- What the graph should be ----

  ghost predicate JumpsTo(code: Code, i: nat, p: nat)
    requires i < |code| && ValidOp(code[i].op)
  {
    exists k :: 0 <= k < |Offsets(code[i].op)| && U32(Pc(code, i) + Offsets(code[i].op)[k]) == p
  }

  ghost predicate IsTarget(code: Code, p: nat)
    requires ValidCode(code)
  {
    exists i :: 0 <= i < |code| && JumpsTo(code, i, p)
  }

  /** A block starts at the first instruction, at a branch target, and after an instruction that
      ends one. */
  ghost predicate StartsBlock(code: Code, i: nat)
    requires ValidCode(code) && i < |code|
  {
    i == 0 || IsTarget(code, Pc(code, i)) || code[i - 1].op.Switch? || IsBasicBlockEnd(code[i - 1].op)
  }

  /** Where an instruction jumps to: a branch by its offset, a switch by each entry of its table, the
      address taken as 32 bits, and nothing else jumps. */
  lemma JumpsExactly(code: Code, i: nat, p: nat)
    requires ValidCode(code) && i < |code|
    ensures JumpsTo(code, i, p) <==>
      match code[i].op
      case Branch(_, offset) => p == (Pc(code, i) + offset) % 4294967296
      case Switch(packed, payload) =>
        exists k :: 0 <= k < |SwitchOffsets(packed, payload)| && p == (Pc(code, i) + SwitchOffsets(packed, payload)[k]) % 4294967296
      case _ => false
  {
    hide Pc, SwitchOffsets;
    match code[i].op {
      case Branch(_, offset) =>
        assert Offsets(code[i].op)[0] == offset;
      case Switch(packed, payload) =>
        var offs := SwitchOffsets(packed, payload);
        assert Offsets(code[i].op) == offs;
        assert JumpsTo(code, i, p) <==> exists k :: 0 <= k < |offs| && p == U32(Pc(code, i) + offs[k]);
      case _ =>
    }
  }

  lemma EndsExactly(op: Op)
    ensures op.Switch? || IsBasicBlockEnd(op) <==> !op.Plain?
  {
  }

  /** A block starts at the first instruction, after every instruction that is not a plain one, and
      where some instruction jumps to, and nowhere else. */
  lemma BlocksStartExactly(code: Code, i: nat)
    requires ValidCode(code) && i < |code|
    ensures StartsBlock(code, i) <==> i == 0 || !code[i - 1].op.Plain? || IsTarget(code, Pc(code, i))
    ensures IsTarget(code, Pc(code, i)) <==> exists j :: 0 <= j < |code| && JumpsTo(code, j, Pc(code, i))
  {
    hide JumpsTo, Pc, IsBasicBlockEnd;
    if i > 0 {
      EndsExactly(code[i - 1].op);
    }
  }

  /** Number of blocks that start before instruction `i`. */
  ghost function Starts(code: Code, i: nat): (n: nat)
    requires ValidCode(code) && i <= |code|
    ensures i > 0 ==> n > 0
  {
    if i == 0 then 0 else Starts(code, i - 1) + if StartsBlock(code, i - 1) then 1 else 0
  }

  /** The node that contains instruction `i`. */
  ghost function NodeOf(code: Code, i: nat): nat
    requires ValidCode(code) && i < |code|
  {
    Starts(code, i + 1) - 1
  }

  lemma FirstStarts(code: Code)
    requires ValidCode(code)
    ensures |code| > 0 ==> StartsBlock(code, 0)
  {
  }

  /** The last of the instructions up to `i` that starts a block. */
  ghost function LastStart(code: Code, i: nat): nat
    requires ValidCode(code) && i < |code|
  {
    if StartsBlock(code, i) || i == 0 then i else LastStart(code, i - 1)
  }

  lemma {:induction false} LastStartStarts(code: Code, i: nat)
    requires ValidCode(code) && i < |code|
    ensures var b := LastStart(code, i); b <= i && StartsBlock(code, b) && forall j :: b < j <= i ==> !StartsBlock(code, j)
  {
    hide StartsBlock;
    FirstStarts(code);
    if !StartsBlock(code, i) {
      LastStartStarts(code, i - 1);
    }
  }

  /** Index of the first instruction of the block that contains instruction `i`. */
  ghost function BlockStart(code: Code, i: nat): (b: nat)
    requires ValidCode(code) && i < |code|
    ensures b <= i && StartsBlock(code, b)
    ensures forall j :: b < j <= i ==> !StartsBlock(code, j)
  {
    LastStartStarts(code, i);
    LastStart(code, i)
  }

  lemma {:induction false} StartsMonotone(code: Code, i: nat, j: nat)
    requires ValidCode(code) && i <= j <= |code|
    ensures Starts(code, i) <= Starts(code, j)
    ensures Starts(code, i) == Starts(code, j) <==> forall k :: i <= k < j ==> !StartsBlock(code, k)
  {
    if i < j {
      StartsMonotone(code, i, j - 1);
    }
  }

  lemma {:induction false} SameBlockStart(code: Code, i: nat, j: nat)
    requires ValidCode(code) && i <= j < |code|
    ensures BlockStart(code, i) == BlockStart(code, j) <==> forall k :: i < k <= j ==> !StartsBlock(code, k)
  {
    if i < j {
      SameBlockStart(code, i, j - 1);
    }
  }

  /** Blocks partition the instructions into runs: two instructions share a node exactly when no
      block starts after the first and up to the second, and later nodes have larger ids. */
  lemma NodesPartition(code: Code, i: nat, j: nat)
    requires ValidCode(code) && i <= j < |code|
    ensures NodeOf(code, i) <= NodeOf(code, j) < Starts(code, |code|)
    ensures NodeOf(code, i) == NodeOf(code, j) <==> forall k :: i < k <= j ==> !StartsBlock(code, k)
    ensures NodeOf(code, i) == NodeOf(code, j) <==> BlockStart(code, i) == BlockStart(code, j)
  {
    hide StartsBlock, BlockStart, Starts;
    StartsMonotone(code, i + 1, j + 1);
    StartsMonotone(code, j + 1, |code|);
    SameBlockStart(code, i, j);
  }

  /** Every node id below the number of blocks is some block's. */
  lemma {:induction false} NodeIdsDense(code: Code, n: nat) returns (i: nat)
    requires ValidCode(code) && n < Starts(code, |code|)
    ensures i < |code| && StartsBlock(code, i) && NodeOf(code, i) == n
  {
    i := |code| - 1;
    while !(StartsBlock(code, i) && Starts(code, i) == n)
      invariant i < |code| && n < Starts(code, i + 1)
      decreases i
    {
      i := i - 1;
    }
  }

  // ---- Pass one: branch targets ----

  ghost predicate TargetBefore(code: Code, i: nat, p: nat)
    requires ValidCode(code) && i <= |code|
  {
    exists j :: 0 <= j < i && JumpsTo(code, j, p)
  }

  lemma TargetBeforeNext(code: Code, i: nat, offs: seq<int>, p: nat)
    requires ValidCode(code) && i < |code| && offs == Offsets(code[i].op)
    ensures TargetBefore(code, i + 1, p) <==> TargetBefore(code, i, p) || exists m :: 0 <= m < |offs| && U32(Pc(code, i) + offs[m]) == p
  {
    hide Offsets, Pc, U32;
    if TargetBefore(code, i, p) {
      var j :| 0 <= j < i && JumpsTo(code, j, p);
      assert j < i + 1;
    }
    if exists m :: 0 <= m < |offs| && U32(Pc(code, i) + offs[m]) == p {
      assert JumpsTo(code, i, p);
    }
  }

  lemma NoTargetBefore(code: Code, p: nat)
    requires ValidCode(code)
    ensures !TargetBefore(code, 0, p)
  {
  }

  lemma TargetBeforeEnd(code: Code, p: nat)
    requires ValidCode(code)
    ensures TargetBefore(code, |code|, p) <==> IsTarget(code, p)
  {
  }

  lemma PcZero(code: Code)
    ensures Pc(code, 0) == 0
  {
  }

  lemma PcNext(code: Code, i: nat)
    requires i < |code|
    ensures Pc(code, i + 1) == Pc(code, i) + code[i].size
  {
  }

  method FindTargets(code: Code) returns (targets: set<nat>)
    requires ValidCode(code)
    ensures forall p :: p in targets <==> IsTarget(code, p)
  {
    hide Offsets, Pc, TargetBefore, U32;
    targets := {};
    var pc := 0;
    PcZero(code);
    assert forall p :: !TargetBefore(code, 0, p) by { forall p ensures !TargetBefore(code, 0, p) { NoTargetBefore(code, p); } }
    for i := 0 to |code|
      invariant pc == Pc(code, i)
      invariant forall p :: p in targets <==> TargetBefore(code, i, p)
    {
      var offs := Offsets(code[i].op);
      ghost var before := targets;
      for k := 0 to |offs|
        invariant forall p :: p in targets <==> p in before || exists m :: 0 <= m < k && U32(pc + offs[m]) == p
      {
        targets := targets + {U32(pc + offs[k])};
      }
      forall p ensures p in targets <==> TargetBefore(code, i + 1, p) { TargetBeforeNext(code, i, offs, p); }
      PcNext(code, i);
      pc := pc + code[i].size;
    }
    forall p ensures p in targets <==> IsTarget(code, p) { TargetBeforeEnd(code, p); }
  }

  // ---- Pass two: nodes ----

  /** `nodeId` has exactly the block starts among the first `n` instructions, numbered in order. */
  ghost predicate NodeMap(code: Code, n: nat, nodeId: map<nat, nat>)
    requires ValidCode(code) && n <= |code|
  {
    && (forall k :: 0 <= k < n && StartsBlock(code, k) ==> Pc(code, k) in nodeId && nodeId[Pc(code, k)] == NodeOf(code, k))
    && (forall p <- nodeId :: exists k :: 0 <= k < n && StartsBlock(code, k) && Pc(code, k) == p)
  }

  /** `inclId` has exactly the first `n` instructions, each with the node that contains it. */
  ghost predicate InclMap(code: Code, n: nat, inclId: map<nat, nat>)
    requires ValidCode(code) && n <= |code|
  {
    && (forall k :: 0 <= k < n ==> Pc(code, k) in inclId && inclId[Pc(code, k)] == NodeOf(code, k))
    && (forall p <- inclId :: exists k :: 0 <= k < n && Pc(code, k) == p)
  }

  lemma PcInjectiveBelow(code: Code, i: nat)
    requires ValidCode(code) && i < |code|
    ensures forall k :: 0 <= k < i ==> Pc(code, k) != Pc(code, i)
    ensures Pc(code, i) == 0 <==> i == 0
  {
    forall k | 0 <= k < i ensures Pc(code, k) != Pc(code, i) { PcInjective(code, k, i); }
    PcInjective(code, 0, i);
  }

  lemma NodeStep(code: Code, i: nat, nodeId: map<nat, nat>)
    requires ValidCode(code) && i < |code| && NodeMap(code, i, nodeId) && |nodeId| == Starts(code, i)
    ensures var nodeId' := if StartsBlock(code, i) then nodeId[Pc(code, i) := |nodeId|] else nodeId;
      NodeMap(code, i + 1, nodeId') && |nodeId'| == Starts(code, i + 1)
  {
    hide Pc, StartsBlock;
    PcInjectiveBelow(code, i);
    var nodeId' := if StartsBlock(code, i) then nodeId[Pc(code, i) := |nodeId|] else nodeId;
    assert Pc(code, i) !in nodeId;
    forall p | p in nodeId' ensures exists k :: 0 <= k < i + 1 && StartsBlock(code, k) && Pc(code, k) == p {
      if p in nodeId {
        var k :| 0 <= k < i && StartsBlock(code, k) && Pc(code, k) == p;
        assert k < i + 1;
      } else {
        assert p == Pc(code, i);
      }
    }
  }

  lemma InclStep(code: Code, i: nat, inclId: map<nat, nat>)
    requires ValidCode(code) && i < |code| && InclMap(code, i, inclId)
    ensures InclMap(code, i + 1, inclId[Pc(code, i) := NodeOf(code, i)])
  {
    hide Pc, NodeOf;
    PcInjectiveBelow(code, i);
    var inclId' := inclId[Pc(code, i) := NodeOf(code, i)];
    forall p | p in inclId' ensures exists k :: 0 <= k < i + 1 && Pc(code, k) == p {
      if p in inclId {
        var k :| 0 <= k < i && Pc(code, k) == p;
        assert k < i + 1;
      } else {
        assert p == Pc(code, i);
      }
    }
  }

  /** The test that starts a node. */
  lemma StartsExactly(code: Code, i: nat)
    requires ValidCode(code) && i < |code|
    ensures StartsBlock(code, i) <==>
      Pc(code, i) == 0 || IsTarget(code, Pc(code, i)) || (i > 0 && (code[i - 1].op.Switch? || IsBasicBlockEnd(code[i - 1].op)))
    ensures NodeOf(code, i) == Starts(code, i + 1) - 1
  {
    hide Pc, IsTarget, Starts;
    PcInjectiveBelow(code, i);
  }

  lemma NoNodes(code: Code)
    requires ValidCode(code)
    ensures NodeMap(code, 0, map[]) && InclMap(code, 0, map[]) && Starts(code, 0) == 0
  {
  }

  method MakeNodes(code: Code, targets: set<nat>) returns (nodeId: map<nat, nat>, inclId: map<nat, nat>)
    requires ValidCode(code) && forall p :: p in targets <==> IsTarget(code, p)
    ensures NodeMap(code, |code|, nodeId) && InclMap(code, |code|, inclId) && |nodeId| == Starts(code, |code|)
  {
    hide Pc, IsTarget, NodeMap, InclMap, Starts, StartsBlock;
    nodeId, inclId := map[], map[];
    var pc, forceNew := 0, false;
    PcZero(code);
    NoNodes(code);
    for i := 0 to |code|
      invariant pc == Pc(code, i) && NodeMap(code, i, nodeId) && InclMap(code, i, inclId) && |nodeId| == Starts(code, i)
      invariant forceNew == (i > 0 && (code[i - 1].op.Switch? || IsBasicBlockEnd(code[i - 1].op)))
    {
      StartsExactly(code, i);
      NodeStep(code, i, nodeId);
      if pc == 0 || pc in targets || forceNew {
        nodeId := nodeId[pc := |nodeId|];
      }
      InclStep(code, i, inclId);
      inclId := inclId[pc := |nodeId| - 1];
      forceNew := code[i].op.Switch? || IsBasicBlockEnd(code[i].op);
      PcNext(code, i);
      pc := pc + code[i].size;
    }
  }
}
