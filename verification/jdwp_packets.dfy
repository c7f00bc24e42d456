/** JDWP packets and the DDM chunks inside them: the framing of the Java Debug Wire Protocol. */
module JdwpPackets {
  import opened Words
  import opened Wrappers

  newtype byte = x: int | 0 <= x < 256

  /** "JDWP-Handshake". */
  const HANDSHAKE: seq<byte> := [74, 68, 87, 80, 45, 72, 97, 110, 100, 115, 104, 97, 107, 101]
  const HEADER_LEN: nat := 11
  const DDM_HEADER_LEN: nat := 19
  const DDM_COMMAND_SET: byte := 199
  const DDM_COMMAND: byte := 1

  // ---- Words in network order ----

  function Net32(n: nat): (b: seq<byte>)
    ensures |b| == 4
  {
    var m := n % TWO_32;
    [(m / 0x100_0000) as byte, (m / 0x1_0000 % 0x100) as byte, (m / 0x100 % 0x100) as byte, (m % 0x100) as byte]
  }

  function Read32(b: seq<byte>, off: nat): (n: nat)
    requires off + 4 <= |b|
    ensures n < TWO_32
  {
    b[off] as int * 0x100_0000 + b[off + 1] as int * 0x1_0000 + b[off + 2] as int * 0x100 + b[off + 3] as int
  }

  lemma WordSplits(m: nat)
    requires m < TWO_32
    ensures m == m / 0x100_0000 * 0x100_0000 + m / 0x1_0000 % 0x100 * 0x1_0000 + m / 0x100 % 0x100 * 0x100 + m % 0x100
  {
    var q := m / 0x100;
    var r := q / 0x100;
    assert m == q * 0x100 + m % 0x100;
    assert q == r * 0x100 + q % 0x100;
    assert r == r / 0x100 * 0x100 + r % 0x100;
    assert r == m / 0x1_0000 && r / 0x100 == m / 0x100_0000;
  }

  lemma WordRoundTrip(n: nat, a: seq<byte>, c: seq<byte>)
    ensures Read32(a + Net32(n) + c, |a|) == n % TWO_32
  {
    var w, b := Net32(n), a + Net32(n) + c;
    assert b[|a|] == w[0] && b[|a| + 1] == w[1] && b[|a| + 2] == w[2] && b[|a| + 3] == w[3];
    WordSplits(n % TWO_32);
  }

  // ---- Packets ----

  /** A packet starts with its own length. */
  predicate IsPacket(p: seq<byte>) {
    |p| >= HEADER_LEN && Read32(p, 0) == |p|
  }

  predicate IsDdm(p: seq<byte>) {
    |p| >= HEADER_LEN && p[9] == DDM_COMMAND_SET && p[10] == DDM_COMMAND
  }

  function Concat(ps: seq<seq<byte>>): seq<byte> {
    if ps == [] then [] else ps[0] + Concat(ps[1..])
  }

  lemma {:induction false} ConcatAppend(ps: seq<seq<byte>>, qs: seq<seq<byte>>)
    ensures Concat(ps + qs) == Concat(ps) + Concat(qs)
  {
    if ps == [] {
      assert ps + qs == qs;
    } else {
      ConcatAppend(ps[1..], qs);
      assert (ps + qs)[1..] == ps[1..] + qs && (ps + qs)[0] == ps[0];
      assert ps[0] + (Concat(ps[1..]) + Concat(qs)) == Concat(ps) + Concat(qs);
    }
  }

  /** Packets delimit themselves: if a row of packets is how another one begins, even with the last
      packet cut short, the two agree packet by packet. */
  lemma {:induction false} PacketsAreUnique(ps: seq<seq<byte>>, tail: seq<byte>, qs: seq<seq<byte>>)
    requires (forall p <- ps :: IsPacket(p)) && (forall q <- qs :: IsPacket(q))
    requires Concat(ps) + tail <= Concat(qs)
    ensures ps <= qs && tail <= Concat(qs[|ps|..])
  {
    if ps == [] {
      assert Concat(ps) + tail == tail;
    } else {
      var s := Concat(qs);
      assert (Concat(ps) + tail)[..|ps[0]|] == ps[0];
      assert s[..|ps[0]|] == ps[0];
      assert qs != [] && IsPacket(ps[0]) && IsPacket(qs[0]);
      assert Read32(s, 0) == Read32(ps[0], 0) == Read32(qs[0], 0);
      assert s[..|ps[0]|] == qs[0];
      assert (Concat(ps) + tail)[|ps[0]|..] == Concat(ps[1..]) + tail;
      assert s[|ps[0]|..] == Concat(qs[1..]);
      PacketsAreUnique(ps[1..], tail, qs[1..]);
      assert qs[1..][|ps| - 1..] == qs[|ps|..];
    }
  }

  // ---- DDM packets ----

  datatype Kind = Cmd | Reply

  datatype Chunk = Chunk(id: nat, ddmType: nat, data: seq<byte>)

  /** What goes out for a DDM chunk; both length fields are cut to 32 bits. */
  function Encode(kind: Kind, c: Chunk): seq<byte> {
    Net32(DDM_HEADER_LEN + |c.data|) + Net32(c.id)
      + (if kind.Cmd? then [0, DDM_COMMAND_SET, DDM_COMMAND] else [0x80, 0, 0])
      + Net32(c.ddmType) + Net32(|c.data|) + c.data
  }

  /** What is read from a packet, unless the chunk does not fit in it. */
  function Decode(p: seq<byte>): Option<Chunk>
    requires |p| >= HEADER_LEN
  {
    if |p| < DDM_HEADER_LEN || Read32(p, 15) > |p| - DDM_HEADER_LEN then None
    else Some(Chunk(Read32(p, 4), Read32(p, 11), p[19..19 + Read32(p, 15)]))
  }

  predicate ValidChunk(c: Chunk) { c.id < TWO_32 && c.ddmType < TWO_32 }

  lemma EncodedFields(kind: Kind, c: Chunk)
    ensures var p := Encode(kind, c);
      && |p| == DDM_HEADER_LEN + |c.data| && p[19..] == c.data
      && Read32(p, 0) == |p| % TWO_32 && Read32(p, 4) == c.id % TWO_32
      && Read32(p, 11) == c.ddmType % TWO_32 && Read32(p, 15) == |c.data| % TWO_32
      && p[8] == (if kind.Cmd? then 0 else 0x80)
      && p[9] == (if kind.Cmd? then DDM_COMMAND_SET else 0) && p[10] == (if kind.Cmd? then DDM_COMMAND else 0)
  {
    hide Net32, Read32;
    var head: seq<byte> := if kind.Cmd? then [0, DDM_COMMAND_SET, DDM_COMMAND] else [0x80, 0, 0];
    var a, b, t, l := Net32(DDM_HEADER_LEN + |c.data|), Net32(c.id), Net32(c.ddmType), Net32(|c.data|);
    var p := Encode(kind, c);
    assert p == [] + a + (b + head + t + l + c.data) by { assert a + b + head + t + l + c.data == a + (b + head + t + l + c.data); }
    WordRoundTrip(DDM_HEADER_LEN + |c.data|, [], b + head + t + l + c.data);
    assert p == a + b + (head + t + l + c.data);
    WordRoundTrip(c.id, a, head + t + l + c.data);
    assert p == (a + b + head) + t + (l + c.data);
    WordRoundTrip(c.ddmType, a + b + head, l + c.data);
    assert p == (a + b + head + t) + l + c.data;
    WordRoundTrip(|c.data|, a + b + head + t, c.data);
  }

  /** A chunk that is sent is a packet that decodes to the same chunk, exactly when the length of
      the packet fits 32 bits. */
  lemma ChunkRoundTrip(kind: Kind, c: Chunk)
    requires ValidChunk(c)
    ensures IsPacket(Encode(kind, c)) <==> DDM_HEADER_LEN + |c.data| < TWO_32
    ensures DDM_HEADER_LEN + |c.data| < TWO_32 ==> Decode(Encode(kind, c)) == Some(c)
    ensures IsDdm(Encode(kind, c)) <==> kind.Cmd?
  {
    hide Encode, Read32;
    EncodedFields(kind, c);
    assert Encode(kind, c)[19..19 + |c.data|] == Encode(kind, c)[19..];
  }

  /** The layout on the wire: the most significant byte of a word comes first; a command carries
      the command set 0xC7 and the command 1, and a reply the flag 0x80 and error code 0. */
  lemma WireFormat(kind: Kind, c: Chunk)
    ensures Net32(0x0102_0304) == [1, 2, 3, 4] && Read32([1, 2, 3, 4], 0) == 0x0102_0304
    ensures |HANDSHAKE| == 14 && forall i :: 0 <= i < 14 ==> HANDSHAKE[i] as int == "JDWP-Handshake"[i] as int
    ensures var p := Encode(kind, c);
      && |p| == 19 + |c.data| && p[8] == (if kind.Cmd? then 0 else 0x80)
      && p[9] == (if kind.Cmd? then 0xC7 else 0) && p[10] == (if kind.Cmd? then 1 else 0)
  {
    EncodedFields(kind, c);
  }

  lemma ReadInFront(a: seq<byte>, b: seq<byte>)
    requires |a| == 11
    ensures Read32(a + b, 4) == Read32(a, 4)
  {
  }

  /** What a packet says, whoever built it: after any header of 11 bytes come the type, the length
      and the data. The chunk is the first bytes of the data, and bytes after it are ignored; there is
      none if the data is shorter than the length, or type and length are not there. */
  lemma DecodeExactly(header: seq<byte>, ddmType: nat, len: nat, data: seq<byte>, short: seq<byte>)
    requires |header| == 11 && ddmType < 0x1_0000_0000 && len < 0x1_0000_0000 && |short| < 8
    ensures Decode(header + short) == None
    ensures Decode(header + Net32(ddmType) + Net32(len) + data) ==
      if len <= |data| then Some(Chunk(Read32(header, 4), ddmType, data[..len])) else None
  {
    hide Net32, Read32;
    var t, l := Net32(ddmType), Net32(len);
    var p := header + t + l + data;
    assert p == header + t + (l + data);
    WordRoundTrip(ddmType, header, l + data);
    WordRoundTrip(len, header + t, data);
    ReadInFront(header, t + l + data);
    assert p == header + (t + l + data);
    assert p[19..] == data;
    if len <= |data| {
      assert p[19..19 + len] == data[..len];
    }
  }

  /** The number of a published packet: a counter with the sign bit set. */
  function DdmId(counter: nat): (id: nat)
    ensures TWO_31 <= id < TWO_32
  {
    var n := counter % TWO_32;
    if n < TWO_31 then n + TWO_31 else n
  }

  /** Numbers repeat only after 2^31 packets. */
  lemma DdmIdsDistinct(i: nat, j: nat)
    requires i < j
    ensures DdmId(i) == DdmId(j) <==> (j - i) % TWO_31 == 0
  {
    assert DdmId(i) == TWO_31 + i % TWO_31;
    assert DdmId(j) == TWO_31 + j % TWO_31;
  }
}
