/** The debugger connection before the JDWP agent is loaded: the handshake, the DDM packets that
    are handled without the agent, and the hand-over of the stream to the agent. */
module AdbConnection {
  import opened Words
  import opened Wrappers
  import opened JdwpPackets

  /** What the system calls, the agent loader and the chunk handler answer during one call. */
  datatype Env = Env(
    peekFails: bool,
    sizeFails: bool,
    readFails: bool,
    sendFails: bool,
    agentLoads: bool,
    reply: Option<(nat, seq<byte>)>)

  datatype Verdict = Close | Attach | Take(n: nat)

  /** What to do with the bytes that wait in the socket once the handshake is done. */
  function Decide(unread: seq<byte>, env: Env): Verdict {
    if env.peekFails || unread == [] then Close
    else if |unread| < HEADER_LEN then Attach
    else if !IsDdm(unread) || Read32(unread, 0) < HEADER_LEN then Attach
    else if env.sizeFails then Close
    else if |unread| < Read32(unread, 0) then Attach
    else if env.readFails then Close
    else Take(Read32(unread, 0))
  }

  predicate HandshakeSucceeds(unread: seq<byte>, env: Env) {
    && !env.sizeFails && !env.readFails && !env.sendFails
    && |unread| >= |HANDSHAKE| && unread[..|HANDSHAKE|] == HANDSHAKE
  }

  /** The reply to a packet: nothing if its chunk does not fit or the handler has no answer. */
  function ReplyTo(p: seq<byte>, env: Env): seq<byte>
    requires |p| >= HEADER_LEN
  {
    match (Decode(p), env.reply)
    case (Some(c), Some(r)) => Encode(Reply, Chunk(c.id, r.0, r.1))
    case _ => []
  }

  // ---- The connection ----

  lemma PacketAtFront(unread: seq<byte>)
    requires |unread| >= HEADER_LEN && HEADER_LEN <= Read32(unread, 0) <= |unread| && IsDdm(unread)
    ensures IsPacket(unread[..Read32(unread, 0)]) && IsDdm(unread[..Read32(unread, 0)])
  {
  }

  lemma TakingKeepsStream(packets: seq<seq<byte>>, unread: seq<byte>, n: nat)
    requires n <= |unread|
    ensures HANDSHAKE + Concat(packets) + unread == HANDSHAKE + Concat(packets + [unread[..n]]) + unread[n..]
  {
    ConcatAppend(packets, [unread[..n]]);
    assert Concat([unread[..n]]) == unread[..n] + Concat([]);
    assert unread == unread[..n] + unread[n..];
  }

  class AdbConnectionState {
    var open: bool
    var performedHandshake: bool
    var agentLoaded: bool
    var notifiedDdmActive: bool
    var nextDdmId: nat
    /** Bytes that wait in the socket, and bytes written to it. */
    var unread: seq<byte>
    var written: seq<byte>
    /** All bytes the debugger has sent on this connection, and the packets taken from it. */
    ghost var received: seq<byte>
    ghost var packets: seq<seq<byte>>

    ghost function Consumed(): seq<byte>
      reads this
    {
      if performedHandshake then HANDSHAKE + Concat(packets) else []
    }

    /** What has been read is one handshake and whole DDM packets, and the rest is still there. */
    ghost predicate Valid()
      reads this
    {
      && received == Consumed() + unread
      && (forall p <- packets :: IsPacket(p) && IsDdm(p))
      && (!performedHandshake ==> packets == [])
      && (!open ==> !performedHandshake && unread == [])
      && (!open && !agentLoaded ==> !notifiedDdmActive)
    }

    constructor ()
      ensures Valid() && !open && !agentLoaded && nextDdmId == 1 && written == []
    {
      open, performedHandshake, agentLoaded, notifiedDdmActive := false, false, false, false;
      nextDdmId, unread, written, received, packets := 1, [], [], [], [];
    }

    method NotifyDdms(active: bool)
      requires notifiedDdmActive != active
      modifies this`notifiedDdmActive
      ensures notifiedDdmActive == active
    {
      notifiedDdmActive := active;
    }

    method CloseFds()
      requires Valid()
      modifies this
      ensures Valid() && !open && packets == []
      ensures agentLoaded == old(agentLoaded) && nextDdmId == old(nextDdmId) && written == old(written)
      ensures notifiedDdmActive == (old(notifiedDdmActive) && agentLoaded)
    {
      open, unread, received, packets := false, [], [], [];
      performedHandshake := false;
      if !agentLoaded && notifiedDdmActive {
        NotifyDdms(false);
      }
    }

    method SendDdmPacket(kind: Kind, c: Chunk)
      modifies this`written
      ensures written == old(written) + if open && performedHandshake then Encode(kind, c) else []
    {
      if !open || !performedHandshake {
        return;
      }
      written := written + Encode(kind, c);
    }

    method PublishDdmData(ddmType: nat, data: seq<byte>)
      modifies this`written, this`nextDdmId
      ensures nextDdmId == old(nextDdmId) + 1
      ensures written == old(written) +
        if open && performedHandshake then Encode(Cmd, Chunk(DdmId(old(nextDdmId)), ddmType, data)) else []
    {
      var id := DdmId(nextDdmId);
      nextDdmId := nextDdmId + 1;
      SendDdmPacket(Cmd, Chunk(id, ddmType, data));
    }

    method AttachJdwpAgent(env: Env)
      requires !agentLoaded
      modifies this`agentLoaded
      ensures agentLoaded == env.agentLoads
    {
      if !env.agentLoads {
        return;
      }
      agentLoaded := true;
    }

    method PerformHandshake(env: Env)
      requires Valid() && open && !agentLoaded && !performedHandshake
      modifies this
      ensures Valid() && !agentLoaded && nextDdmId == old(nextDdmId)
      ensures open == performedHandshake == HandshakeSucceeds(old(unread), env)
      ensures open ==> unread == old(unread)[|HANDSHAKE|..] && packets == [] && written == old(written) + HANDSHAKE
      ensures open ==> received == old(received) && notifiedDdmActive == old(notifiedDdmActive)
    {
      if env.sizeFails || |unread| < |HANDSHAKE| {
        CloseFds();
        return;
      }
      if env.readFails {
        CloseFds();
        return;
      }
      var message := unread[..|HANDSHAKE|];
      if message != HANDSHAKE || env.sendFails {
        CloseFds();
        return;
      }
      unread := unread[|HANDSHAKE|..];
      written := written + HANDSHAKE;
      performedHandshake := true;
    }

    method HandlePacket(p: seq<byte>, env: Env)
      requires |p| >= HEADER_LEN && open && performedHandshake
      modifies this`notifiedDdmActive, this`written
      ensures written == old(written) + ReplyTo(p, env)
      ensures notifiedDdmActive == (old(notifiedDdmActive) || Decode(p).Some?)
    {
      var dataSize := |p| - HEADER_LEN;
      if dataSize < 8 {
        return;
      }
      var ddmType, ddmLen := Read32(p, HEADER_LEN), Read32(p, HEADER_LEN + 4);
      if ddmLen > dataSize - 8 {
        return;
      }
      if !notifiedDdmActive {
        NotifyDdms(true);
      }
      if env.reply.None? {
        return;
      }
      SendDdmPacket(Reply, Chunk(Read32(p, 4), env.reply.value.0, env.reply.value.1));
    }

    method HandleDataWithoutAgent(env: Env)
      requires Valid() && open && !agentLoaded
      modifies this
      ensures Valid() && nextDdmId == old(nextDdmId)
      ensures open ==> received == old(received)
      ensures !old(performedHandshake) ==> !agentLoaded && open == performedHandshake == HandshakeSucceeds(old(unread), env)
      ensures !old(performedHandshake) && open ==> packets == [] && written == old(written) + HANDSHAKE
      ensures old(performedHandshake) && Decide(old(unread), env).Close? ==> !open && !agentLoaded && written == old(written)
      ensures old(performedHandshake) && !Decide(old(unread), env).Close? ==> open && performedHandshake
      ensures old(performedHandshake) && Decide(old(unread), env).Attach? ==>
        agentLoaded == env.agentLoads && unread == old(unread) && packets == old(packets) && written == old(written)
      ensures old(performedHandshake) && Decide(old(unread), env).Take? ==>
        var n := Decide(old(unread), env).n;
        && !agentLoaded && HEADER_LEN <= n <= |old(unread)| && unread == old(unread)[n..]
        && packets == old(packets) + [old(unread)[..n]] && written == old(written) + ReplyTo(old(unread)[..n], env)
    {
      hide Encode, Decode, Read32;
      if !performedHandshake {
        PerformHandshake(env);
        return;
      }
      if env.peekFails || unread == [] {
        CloseFds();
        return;
      } else if |unread| < HEADER_LEN {
        AttachJdwpAgent(env);
        return;
      }
      var fullLen := Read32(unread, 0);
      if unread[9] != DDM_COMMAND_SET || unread[10] != DDM_COMMAND || fullLen < HEADER_LEN {
        AttachJdwpAgent(env);
        return;
      }
      if env.sizeFails {
        CloseFds();
        return;
      } else if |unread| < fullLen {
        AttachJdwpAgent(env);
        return;
      }
      if env.readFails {
        CloseFds();
        return;
      }
      var packet := unread[..fullLen];
      PacketAtFront(unread);
      TakingKeepsStream(packets, unread, fullLen);
      unread := unread[fullLen..];
      packets := packets + [packet];
      HandlePacket(packet, env);
    }

    // ---- The other events of the poll loop ----

    method Connect()
      requires Valid()
      modifies this
      ensures Valid() && open && agentLoaded == old(agentLoaded)
      ensures !old(open) ==> received == [] && packets == []
      ensures old(open) ==> unchanged(this)
    {
      if !open {
        open, unread, received, packets := true, [], [], [];
      }
    }

    method Arrive(bytes: seq<byte>)
      requires Valid() && open
      modifies this`unread, this`received
      ensures Valid() && unread == old(unread) + bytes && received == old(received) + bytes
    {
      unread, received := unread + bytes, received + bytes;
      assert Consumed() + (old(unread) + bytes) == Consumed() + old(unread) + bytes;
    }
  }

  // ---- Whole runs ----

  datatype Event =
    | NewConnection
    | Bytes(bytes: seq<byte>)
    | Poll(env: Env)
    | Hangup
    | Publish(ddmType: nat, data: seq<byte>)

  lemma PrefixAfter(h: seq<byte>, a: seq<byte>, b: seq<byte>)
    requires h + a <= h + b
    ensures a <= b
  {
    assert forall i :: 0 <= i < |a| ==> a[i] == (h + a)[|h| + i] && b[i] == (h + b)[|h| + i];
  }

  lemma BoundaryAfter(h: seq<byte>, packets: seq<seq<byte>>, unread: seq<byte>, sent: seq<seq<byte>>)
    requires (forall p <- packets :: IsPacket(p)) && (forall p <- sent :: IsPacket(p))
    requires h + Concat(packets) + unread <= h + Concat(sent)
    ensures packets <= sent && unread <= Concat(sent[|packets|..])
    ensures (h + Concat(sent))[|h + Concat(packets)|..] == Concat(sent[|packets|..])
  {
    hide Concat, IsPacket;
    assert h + Concat(packets) + unread == h + (Concat(packets) + unread);
    PrefixAfter(h, Concat(packets) + unread, Concat(sent));
    PacketsAreUnique(packets, unread, sent);
    ConcatAppend(packets, sent[|packets|..]);
    assert packets + sent[|packets|..] == sent;
    assert h + Concat(sent) == h + Concat(packets) + Concat(sent[|packets|..]);
  }

  /** Whatever the debugger sends as a handshake and packets, and however much of it has arrived:
      the packets taken so far are its first packets, and what is left for the agent is exactly
      the packets after them. */
  lemma StreamStaysOnBoundary(packets: seq<seq<byte>>, unread: seq<byte>, sent: seq<seq<byte>>)
    requires (forall p <- packets :: IsPacket(p)) && (forall p <- sent :: IsPacket(p))
    requires HANDSHAKE + Concat(packets) + unread <= HANDSHAKE + Concat(sent)
    ensures packets <= sent && unread <= Concat(sent[|packets|..])
    ensures (HANDSHAKE + Concat(sent))[|HANDSHAKE + Concat(packets)|..] == Concat(sent[|packets|..])
  {
    BoundaryAfter(HANDSHAKE, packets, unread, sent);
  }

  /** However the debugger's stream goes on, as long as it is a handshake and packets: the packets
      taken are its first ones and the bytes that wait begin with the packet after them. */
  ghost predicate OnBoundary(received: seq<byte>, packets: seq<seq<byte>>, unread: seq<byte>) {
    forall sent :: (forall p <- sent :: IsPacket(p)) && received <= HANDSHAKE + Concat(sent) ==>
      packets <= sent && unread <= Concat(sent[|packets|..])
  }

  lemma ConsumedIsBoundary(packets: seq<seq<byte>>, unread: seq<byte>)
    requires forall p <- packets :: IsPacket(p)
    ensures OnBoundary(HANDSHAKE + Concat(packets) + unread, packets, unread)
  {
    hide Concat, IsPacket;
    forall sent | (forall p <- sent :: IsPacket(p)) && HANDSHAKE + Concat(packets) + unread <= HANDSHAKE + Concat(sent)
      ensures packets <= sent && unread <= Concat(sent[|packets|..]) {
      StreamStaysOnBoundary(packets, unread, sent);
    }
  }

  /** Any run of the poll loop until the agent is loaded. An agent that is loaded finds the
      handshake done and the stream on a packet boundary. */
  method Serve(s: AdbConnectionState, events: seq<Event>)
    requires s.Valid() && !s.agentLoaded
    modifies s
    ensures s.Valid()
    ensures s.agentLoaded ==> s.open && s.performedHandshake
    ensures s.performedHandshake ==> OnBoundary(s.received, s.packets, s.unread)
  {
    hide OnBoundary;
    for i := 0 to |events|
      invariant s.Valid() && !s.agentLoaded
    {
      match events[i]
      case NewConnection => s.Connect();
      case Bytes(bytes) => if s.open { s.Arrive(bytes); }
      case Publish(ddmType, data) => s.PublishDdmData(ddmType, data);
      case Hangup => if s.open { s.CloseFds(); }
      case Poll(env) =>
        if s.open {
          s.HandleDataWithoutAgent(env);
          if s.agentLoaded {
            break;
          }
        }
    }
    if s.performedHandshake {
      ConsumedIsBoundary(s.packets, s.unread);
    }
  }

  /** On such a stream, with no system call failing, the next packet is taken when it has arrived
      in full and is a DDM packet; otherwise the agent gets it. */
  lemma DecideOnPackets(unread: seq<byte>, sent: seq<seq<byte>>, env: Env)
    requires (forall p <- sent :: IsPacket(p)) && unread <= Concat(sent) && unread != []
    requires !env.peekFails && !env.sizeFails && !env.readFails
    ensures sent != []
    ensures Decide(unread, env) == if |sent[0]| <= |unread| && IsDdm(sent[0]) then Take(|sent[0]|) else Attach
  {
    var s := Concat(sent);
    assert IsPacket(sent[0]);
    assert s[..|sent[0]|] == sent[0];
    if |unread| >= HEADER_LEN {
      assert unread[9] == s[9] == sent[0][9] && unread[10] == s[10] == sent[0][10];
      assert Read32(unread, 0) == Read32(s, 0) == Read32(sent[0], 0);
    }
  }

  /** A command that this side encodes is one the other side takes whole. */
  lemma EncodedIsTaken(c: Chunk, rest: seq<byte>, env: Env)
    requires ValidChunk(c) && DDM_HEADER_LEN + |c.data| < TWO_32
    requires !env.peekFails && !env.sizeFails && !env.readFails
    ensures Decide(Encode(Cmd, c) + rest, env) == Take(|Encode(Cmd, c)|)
    ensures (Encode(Cmd, c) + rest)[..|Encode(Cmd, c)|] == Encode(Cmd, c) && Decode(Encode(Cmd, c)) == Some(c)
  {
    hide Encode, Decode;
    ChunkRoundTrip(Cmd, c);
    EncodedFields(Cmd, c);
    var p := Encode(Cmd, c);
    assert Read32(p + rest, 0) == Read32(p, 0);
  }

  /** The answer to a packet that carries a chunk, if the handler has one: a reply packet with the
      number of the request and the handler's type and data. Otherwise there is none. */
  lemma ReplyDecodes(p: seq<byte>, env: Env)
    requires |p| >= 11
    requires env.reply.Some? ==> env.reply.value.0 < 0x1_0000_0000 && 19 + |env.reply.value.1| < 0x1_0000_0000
    ensures Decode(p).None? || env.reply.None? <==> ReplyTo(p, env) == []
    ensures Decode(p).Some? && env.reply.Some? ==>
      var r := ReplyTo(p, env);
      && IsPacket(r) && !IsDdm(r) && r[8] == 0x80
      && Decode(r) == Some(Chunk(Read32(p, 4), env.reply.value.0, env.reply.value.1))
  {
    hide Encode, Read32;
    if Decode(p).Some? && env.reply.Some? {
      var c := Chunk(Read32(p, 4), env.reply.value.0, env.reply.value.1);
      ChunkRoundTrip(Reply, c);
      EncodedFields(Reply, c);
    }
  }

  /** The decision in every case: a connection that fails or ends is closed; a header that is cut, is
      no DDM command (command set 0xC7, command 1), or gives a length below that of a header goes to
      the agent, and so does a packet that has not arrived in full; any other is taken whole. */
  lemma DecideExactly(unread: seq<byte>, env: Env)
    ensures Decide(unread, env) ==
      if env.peekFails || |unread| == 0 then Close
      else if |unread| < 11 || unread[9] != 0xC7 || unread[10] != 1 || Read32(unread, 0) < 11 then Attach
      else if env.sizeFails then Close
      else if |unread| < Read32(unread, 0) then Attach
      else if env.readFails then Close
      else Take(Read32(unread, 0))
  {
    hide Read32;
  }

  /** A connection that opens with "JDWP-Handshake" gets through the handshake unless a call fails, and
      no other does. */
  lemma HandshakeExactly(unread: seq<byte>, env: Env)
    ensures HandshakeSucceeds(unread, env) <==>
      && !env.sizeFails && !env.readFails && !env.sendFails && |unread| >= 14
      && forall i :: 0 <= i < 14 ==> unread[i] as int == "JDWP-Handshake"[i] as int
  {
    WireFormat(Cmd, Chunk(0, 0, []));
    if |unread| >= 14 && forall i :: 0 <= i < 14 ==> unread[i] as int == "JDWP-Handshake"[i] as int {
      assert forall i :: 0 <= i < 14 ==> unread[..14][i] == HANDSHAKE[i];
    }
    if HandshakeSucceeds(unread, env) {
      assert forall i :: 0 <= i < 14 ==> unread[i] == unread[..14][i];
    }
  }
}
