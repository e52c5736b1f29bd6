/**
 * One turn of the domain server's main loop: decide which assignment to ask
 * for, then answer a check-in packet (a report-for-duty or a domain list
 * request) by registering the sender, building the reply and stamping the
 * sender's record.
 *
 * `Respond` specifies the effect of one packet on the directory and the
 * datagram sent back; `Server.HandlePacket` does the same work in place, on
 * the node list and the broadcast buffer, and is proved to agree with it.
 */
module DomainServer {
  import opened Codec
  import opened NodeTypes
  import opened Nodes
  import opened Broadcast

  // ---------------------------------------------------------------------
  // The check-in packet

  /**
   * Bytes of a check-in packet before its types of interest: header, sender
   * type, local socket, number of types of interest.
   */
  const REQUEST_PREFIX_WIDTH: nat := HEADER_WIDTH + 1 + SOCKET_WIDTH + 1

  /** What a check-in packet carries after its header. */
  datatype Request = Request(senderType: byte, localSocket: SockAddr, interest: seq<byte>)

  /** The packet types the loop answers, with the version this server speaks. */
  predicate Accepts(packet: seq<byte>)
  {
    |packet| >= 1 &&
    (packet[0] == PACKET_TYPE_DOMAIN_REPORT_FOR_DUTY || packet[0] == PACKET_TYPE_DOMAIN_LIST_REQUEST) &&
    VersionMatch(packet)
  }

  /** The bytes a node sends to check in. */
  function EncodeRequest(packetType: byte, req: Request): (b: seq<byte>)
    requires |req.interest| < 0x100
    ensures |b| == REQUEST_PREFIX_WIDTH + |req.interest|
  {
    Header(packetType) + [req.senderType] + PackSocket(req.localSocket) + [|req.interest|] + req.interest
  }

  /**
   * Reads the sender type, local socket and types of interest that follow
   * the header; a packet too short to hold them is refused.
   */
  function ParseRequest(packet: seq<byte>): (r: Option<Request>)
    ensures r.Some? <==> |packet| >= REQUEST_PREFIX_WIDTH && |packet| >= REQUEST_PREFIX_WIDTH + packet[REQUEST_PREFIX_WIDTH - 1]
  {
    if |packet| < REQUEST_PREFIX_WIDTH then None
    else
      var count := packet[REQUEST_PREFIX_WIDTH - 1];
      if |packet| < REQUEST_PREFIX_WIDTH + count then None
      else Some(Request(packet[HEADER_WIDTH], UnpackSocket(packet[HEADER_WIDTH + 1..]),
                        packet[REQUEST_PREFIX_WIDTH..REQUEST_PREFIX_WIDTH + count]))
  }

  /** A check-in packet parses back to what was encoded, and is answered exactly when its type is one of the two. */
  lemma RequestRoundTrip(packetType: byte, req: Request)
    requires |req.interest| < 0x100
    ensures ParseRequest(EncodeRequest(packetType, req)) == Some(req)
    ensures Accepts(EncodeRequest(packetType, req)) <==>
              packetType == PACKET_TYPE_DOMAIN_REPORT_FOR_DUTY || packetType == PACKET_TYPE_DOMAIN_LIST_REQUEST
  {
    var b := EncodeRequest(packetType, req);
    assert b[HEADER_WIDTH + 1..][..SOCKET_WIDTH] == PackSocket(req.localSocket);
    SocketRoundTrip(req.localSocket);
    var s := UnpackSocket(b[HEADER_WIDTH + 1..]);
    assert PackSocket(s) == PackSocket(req.localSocket);
    assert UnpackSocket(PackSocket(s)) == s by {
      SocketRoundTrip(s);
    }
    assert b[REQUEST_PREFIX_WIDTH..REQUEST_PREFIX_WIDTH + |req.interest|] == req.interest;
  }

  /** Whatever parses is re-encoded as the packet's own prefix: the parser drops nothing it reads. */
  lemma ParseRequestExact(packet: seq<byte>)
    requires Accepts(packet) && ParseRequest(packet).Some?
    ensures var req := ParseRequest(packet).value;
            |req.interest| < 0x100 &&
            EncodeRequest(packet[0], req) == packet[..REQUEST_PREFIX_WIDTH + |req.interest|]
  {
    var req := ParseRequest(packet).value;
    var e := EncodeRequest(packet[0], req);
    assert e[..HEADER_WIDTH] == packet[..HEADER_WIDTH];
    assert e[HEADER_WIDTH + 1..HEADER_WIDTH + 1 + SOCKET_WIDTH] == packet[HEADER_WIDTH + 1..][..SOCKET_WIDTH];
    assert forall q :: 0 <= q < |e| ==> e[q] == packet[q];
  }

  /** The packet the loop acts on: an accepted type that parses. */
  function Handled(packet: seq<byte>): (r: Option<Request>)
    ensures r.Some? ==> Accepts(packet)
    ensures Accepts(packet) ==> r == ParseRequest(packet)
  {
    if Accepts(packet) then ParseRequest(packet) else None
  }

  // ---------------------------------------------------------------------
  // Addresses

  /** The sender shares the server's address and the server is not in local mode. */
  predicate CoLocated(sender: SockAddr, serverAddr: uint32, isLocalMode: bool)
  {
    sender.addr == serverAddr && !isLocalMode
  }

  /**
   * The public socket recorded for the sender and the socket the reply goes
   * to: for a co-located sender the recorded address is zeroed (telling the
   * node the server is at its own address) and the reply goes to the local
   * socket; otherwise both are the sender's socket.
   */
  function ResolveAddresses(sender: SockAddr, local: SockAddr, serverAddr: uint32, isLocalMode: bool)
    : (r: (SockAddr, SockAddr))
    ensures r.0.family == sender.family && r.0.port == sender.port
    ensures CoLocated(sender, serverAddr, isLocalMode) ==> r.0.addr == 0 && r.1 == local
    ensures !CoLocated(sender, serverAddr, isLocalMode) ==> r.0 == sender && r.1 == sender
  {
    if sender.addr == serverAddr && !isLocalMode then (sender.(addr := 0), local) else (sender, sender)
  }

  // ---------------------------------------------------------------------
  // The reply

  datatype Datagram = Datagram(destination: SockAddr, payload: seq<byte>)

  /** What a node learns from the reply: the entries and its own identifier. */
  datatype ReplyView = ReplyView(entries: seq<EntryView>, yourId: uint16)

  /** The reply layout: header, whole entries, then the receiver's identifier. */
  function EncodeReply(ns: seq<NodeRecord>, id: nat): (b: seq<byte>)
    ensures |b| == HEADER_WIDTH + ENTRY_WIDTH * |ns| + ID_WIDTH
  {
    Header(PACKET_TYPE_DOMAIN) + Entries(ns) + PackNodeId(id)
  }

  function DecodeReply(b: seq<byte>): Option<ReplyView>
  {
    if |b| >= HEADER_WIDTH + ID_WIDTH && (|b| - HEADER_WIDTH - ID_WIDTH) % ENTRY_WIDTH == 0 &&
       b[..HEADER_WIDTH] == Header(PACKET_TYPE_DOMAIN)
    then Some(ReplyView(DecodeEntries(b[HEADER_WIDTH..|b| - ID_WIDTH]), UnpackUint16(b[|b| - ID_WIDTH..])))
    else None
  }

  lemma EntriesWhole(ns: seq<NodeRecord>)
    ensures |Entries(ns)| % ENTRY_WIDTH == 0
  {
    var n := |ns|;
    assert |Entries(ns)| == ENTRY_WIDTH * n;
  }

  /** A reply decodes to the views of its nodes and the receiver's 16-bit identifier. */
  lemma ReplyRoundTrip(ns: seq<NodeRecord>, id: nat)
    ensures DecodeReply(EncodeReply(ns, id)) == Some(ReplyView(Views(ns), id % 0x1_0000))
  {
    var b := EncodeReply(ns, id);
    var e := Entries(ns);
    assert |b| - HEADER_WIDTH - ID_WIDTH == |e|;
    EntriesWhole(ns);
    assert b[..HEADER_WIDTH] == Header(PACKET_TYPE_DOMAIN);
    assert b[HEADER_WIDTH..|b| - ID_WIDTH] == e;
    assert b[|b| - ID_WIDTH..] == PackNodeId(id);
    EntriesRoundTrip(ns);
  }

  /** The directory, the counter and the datagram sent (if any) after one packet. */
  datatype Outcome = Outcome(nodes: seq<NodeRecord>, lastNodeId: nat, reply: Option<Datagram>)

  /**
   * The effect of one received packet. An accepted packet registers the
   * sender (advancing the counter when a record was created), is answered
   * with the entries chosen from the directory as it stands after the
   * registration, and then has the sender's record stamped: last heard
   * always, woken when a solo node reports for duty.
   */
  function Respond(nodes: seq<NodeRecord>, lastNodeId: nat, sender: SockAddr, packet: seq<byte>, now: nat,
                   serverAddr: uint32, isLocalMode: bool): Outcome
  {
    match Handled(packet)
    case None => Outcome(nodes, lastNodeId, None)
    case Some(req) =>
      Answer(nodes, lastNodeId, sender, req, packet[0] == PACKET_TYPE_DOMAIN_REPORT_FOR_DUTY, now, serverAddr, isLocalMode)
  }

  /** The answer to a parsed check-in; `reportForDuty` tells a report-for-duty from a list request. */
  function Answer(nodes: seq<NodeRecord>, lastNodeId: nat, sender: SockAddr, req: Request, reportForDuty: bool,
                  now: nat, serverAddr: uint32, isLocalMode: bool): Outcome
  {
    var (pub, destination) := ResolveAddresses(sender, req.localSocket, serverAddr, isLocalMode);
    var (added, i) := AddOrUpdate(nodes, pub, req.localSocket, req.senderType, lastNodeId, now);
    var requester := Requester(req.senderType, pub, req.localSocket, req.interest);
    var payload := EncodeReply(ReplyNodes(added, requester), added[i].id);
    Outcome(Stamp(added, i, now, reportForDuty && IsSolo(req.senderType)),
            if added[i].id == lastNodeId then lastNodeId + 1 else lastNodeId,
            Some(Datagram(destination, payload)))
  }

  /** The datagram sent, if any, fits in the 1500-byte broadcast buffer it is written into. */
  predicate ReplyFits(o: Outcome)
  {
    o.reply.Some? ==> |o.reply.value.payload| <= MAX_PACKET_SIZE
  }

  /**
   * A reply carries at most one entry per record, so room for one entry per
   * record (the sender's own included) is enough for any packet; a reply to
   * a check-in with no types of interest fits whatever the directory's size.
   */
  lemma ReplyFitsSmallDirectory(nodes: seq<NodeRecord>, lastNodeId: nat, sender: SockAddr, packet: seq<byte>,
                                now: nat, serverAddr: uint32, isLocalMode: bool)
    ensures HEADER_WIDTH + ENTRY_WIDTH * (|nodes| + 1) + ID_WIDTH <= MAX_PACKET_SIZE ==>
              ReplyFits(Respond(nodes, lastNodeId, sender, packet, now, serverAddr, isLocalMode))
    ensures Handled(packet).Some? && |Handled(packet).value.interest| == 0 ==>
              ReplyFits(Respond(nodes, lastNodeId, sender, packet, now, serverAddr, isLocalMode))
  {
    match Handled(packet)
    case None =>
    case Some(req) =>
      var (pub, destination) := ResolveAddresses(sender, req.localSocket, serverAddr, isLocalMode);
      var (added, i) := AddOrUpdate(nodes, pub, req.localSocket, req.senderType, lastNodeId, now);
      var requester := Requester(req.senderType, pub, req.localSocket, req.interest);
      ReplyNodesBound(added, requester);
      if |req.interest| == 0 {
        EmptyInterestNoEntries(added, requester);
      }
  }

  /** Only an accepted, well-formed packet changes anything or gets an answer. */
  lemma OnlyHandledPacketsAct(nodes: seq<NodeRecord>, lastNodeId: nat, sender: SockAddr, packet: seq<byte>,
                              now: nat, serverAddr: uint32, isLocalMode: bool)
    ensures var o := Respond(nodes, lastNodeId, sender, packet, now, serverAddr, isLocalMode);
            (o.reply.Some? <==> Handled(packet).Some?) &&
            (o.reply.None? ==> o.nodes == nodes && o.lastNodeId == lastNodeId)
  {
  }

  /**
   * Answering keeps the directory well formed; the counter moves by one
   * exactly when a record was created, and records are only ever added.
   */
  lemma RespondKeepsWellFormed(nodes: seq<NodeRecord>, lastNodeId: nat, sender: SockAddr, packet: seq<byte>,
                               now: nat, serverAddr: uint32, isLocalMode: bool)
    requires WellFormed(nodes, lastNodeId)
    ensures var o := Respond(nodes, lastNodeId, sender, packet, now, serverAddr, isLocalMode);
            WellFormed(o.nodes, o.lastNodeId) &&
            (o.lastNodeId == lastNodeId || o.lastNodeId == lastNodeId + 1) &&
            (o.lastNodeId == lastNodeId + 1 <==> |o.nodes| == |nodes| + 1) &&
            (|o.nodes| == |nodes| || |o.nodes| == |nodes| + 1)
  {
    match Handled(packet)
    case None =>
    case Some(req) =>
      var (pub, destination) := ResolveAddresses(sender, req.localSocket, serverAddr, isLocalMode);
      var (added, i) := AddOrUpdate(nodes, pub, req.localSocket, req.senderType, lastNodeId, now);
      AddOrUpdateWithCounter(nodes, pub, req.localSocket, req.senderType, lastNodeId, now);
      var next := if added[i].id == lastNodeId then lastNodeId + 1 else lastNodeId;
      var woken := packet[0] == PACKET_TYPE_DOMAIN_REPORT_FOR_DUTY && IsSolo(req.senderType);
      StampKeepsWellFormed(added, next, i, now, woken);
  }

  /**
   * The sender's record, and only it, is stamped: its last-heard stamp is
   * `now`; its wake stamp is `now` when a solo node reports for duty and is
   * otherwise left as it was; every other existing record is unchanged.
   */
  lemma RespondStamps(nodes: seq<NodeRecord>, lastNodeId: nat, sender: SockAddr, packet: seq<byte>,
                      now: nat, serverAddr: uint32, isLocalMode: bool, req: Request, pub: SockAddr, o: Outcome)
    requires WellFormed(nodes, lastNodeId)
    requires Handled(packet) == Some(req)
    requires pub == ResolveAddresses(sender, req.localSocket, serverAddr, isLocalMode).0
    requires o == Respond(nodes, lastNodeId, sender, packet, now, serverAddr, isLocalMode)
    ensures forall j :: 0 <= j < |nodes| && !Matches(nodes[j], pub, req.localSocket, req.senderType) ==>
              o.nodes[j] == nodes[j]
    ensures exists j :: 0 <= j < |o.nodes| && Matches(o.nodes[j], pub, req.localSocket, req.senderType)
    ensures forall j :: 0 <= j < |o.nodes| && Matches(o.nodes[j], pub, req.localSocket, req.senderType) ==>
              o.nodes[j].lastHeard == now &&
              o.nodes[j].wake == (if packet[0] == PACKET_TYPE_DOMAIN_REPORT_FOR_DUTY && IsSolo(req.senderType) then now
                                  else if j < |nodes| then nodes[j].wake else now)
  {
    var (added, i) := AddOrUpdate(nodes, pub, req.localSocket, req.senderType, lastNodeId, now);
    AddOrUpdateWithCounter(nodes, pub, req.localSocket, req.senderType, lastNodeId, now);
    var next := if added[i].id == lastNodeId then lastNodeId + 1 else lastNodeId;
    forall j | 0 <= j < |nodes| && !Matches(nodes[j], pub, req.localSocket, req.senderType)
      ensures o.nodes[j] == nodes[j]
    {
      assert added[j] == nodes[j];
    }
    assert Matches(o.nodes[i], pub, req.localSocket, req.senderType);
  }

  /**
   * The co-located rewrite: the record registered for the sender carries
   * address zero and the reply goes to the local socket exactly when the
   * sender's address is the server's and local mode is off; otherwise the
   * record carries the sender's socket and the reply goes back to it.
   */
  lemma RespondAddresses(nodes: seq<NodeRecord>, lastNodeId: nat, sender: SockAddr, packet: seq<byte>,
                         now: nat, serverAddr: uint32, isLocalMode: bool, req: Request, o: Outcome)
    requires Handled(packet) == Some(req)
    requires o == Respond(nodes, lastNodeId, sender, packet, now, serverAddr, isLocalMode)
    ensures o.reply.Some?
    ensures o.reply.value.destination ==
              (if CoLocated(sender, serverAddr, isLocalMode) then req.localSocket else sender)
    ensures exists j :: 0 <= j < |o.nodes| &&
              Matches(o.nodes[j], if CoLocated(sender, serverAddr, isLocalMode) then sender.(addr := 0) else sender,
                      req.localSocket, req.senderType)
  {
    var (pub, destination) := ResolveAddresses(sender, req.localSocket, serverAddr, isLocalMode);
    var (added, i) := AddOrUpdate(nodes, pub, req.localSocket, req.senderType, lastNodeId, now);
    assert Matches(o.nodes[i], pub, req.localSocket, req.senderType);
  }

  /**
   * The reply decodes to the entries of the nodes `ReplyNodes` chooses from
   * the directory after registration, then the identifier of the sender's
   * record; an entry never describes the sender, and is always of a type of
   * interest.
   */
  lemma RespondReply(nodes: seq<NodeRecord>, lastNodeId: nat, sender: SockAddr, packet: seq<byte>,
                     now: nat, serverAddr: uint32, isLocalMode: bool, req: Request, o: Outcome)
    requires Handled(packet) == Some(req)
    requires o == Respond(nodes, lastNodeId, sender, packet, now, serverAddr, isLocalMode)
    ensures o.reply.Some? && DecodeReply(o.reply.value.payload).Some?
    ensures var pub := ResolveAddresses(sender, req.localSocket, serverAddr, isLocalMode).0;
            var added := AddOrUpdate(nodes, pub, req.localSocket, req.senderType, lastNodeId, now);
            DecodeReply(o.reply.value.payload).value ==
              ReplyView(Views(ReplyNodes(added.0, Requester(req.senderType, pub, req.localSocket, req.interest))),
                        added.0[added.1].id % 0x1_0000)
    ensures var pub := ResolveAddresses(sender, req.localSocket, serverAddr, isLocalMode).0;
            forall e :: e in DecodeReply(o.reply.value.payload).value.entries ==>
              e.kind in req.interest &&
              !(e.kind == req.senderType && e.publicSocket == pub && e.localSocket == req.localSocket)
  {
    var (pub, destination) := ResolveAddresses(sender, req.localSocket, serverAddr, isLocalMode);
    var (added, i) := AddOrUpdate(nodes, pub, req.localSocket, req.senderType, lastNodeId, now);
    var requester := Requester(req.senderType, pub, req.localSocket, req.interest);
    var ns := ReplyNodes(added, requester);
    ReplyRoundTrip(ns, added[i].id);
    ReplyNodesSelected(added, requester);
    ViewsOf(ns);
  }

  /** Every view is the view of some node of the list. */
  lemma {:induction false} ViewsOf(ns: seq<NodeRecord>)
    ensures forall e :: e in Views(ns) ==> exists n :: n in ns && e == View(n)
  {
    if ns != [] {
      ViewsOf(ns[..|ns| - 1]);
      assert Views(ns) == Views(ns[..|ns| - 1]) + [View(ns[|ns| - 1])];
      forall e | e in Views(ns)
        ensures exists n :: n in ns && e == View(n)
      {
        if e in Views(ns[..|ns| - 1]) {
          var n :| n in ns[..|ns| - 1] && e == View(n);
          assert n in ns;
        } else {
          assert e == View(ns[|ns| - 1]);
        }
      }
    }
  }

  /** With no types of interest the reply is the header and the sender's identifier, nothing else. */
  lemma RespondEmptyInterest(nodes: seq<NodeRecord>, lastNodeId: nat, sender: SockAddr, packet: seq<byte>,
                             now: nat, serverAddr: uint32, isLocalMode: bool, req: Request, o: Outcome)
    requires Handled(packet) == Some(req) && |req.interest| == 0
    requires o == Respond(nodes, lastNodeId, sender, packet, now, serverAddr, isLocalMode)
    ensures o.reply.Some?
    ensures |o.reply.value.payload| == HEADER_WIDTH + ID_WIDTH
    ensures o.reply.value.payload[..HEADER_WIDTH] == Header(PACKET_TYPE_DOMAIN)
    ensures DecodeReply(o.reply.value.payload).Some? && DecodeReply(o.reply.value.payload).value.entries == []
  {
    var (pub, destination) := ResolveAddresses(sender, req.localSocket, serverAddr, isLocalMode);
    var (added, i) := AddOrUpdate(nodes, pub, req.localSocket, req.senderType, lastNodeId, now);
    var requester := Requester(req.senderType, pub, req.localSocket, req.interest);
    EmptyInterestNoEntries(added, requester);
    ReplyRoundTrip([], added[i].id);
  }

  /** Records are never removed or retyped, so a type once present stays present. */
  lemma RespondKeepsTypes(nodes: seq<NodeRecord>, lastNodeId: nat, sender: SockAddr, packet: seq<byte>,
                          now: nat, serverAddr: uint32, isLocalMode: bool, kind: byte)
    requires HasNodeOfType(nodes, kind)
    ensures HasNodeOfType(Respond(nodes, lastNodeId, sender, packet, now, serverAddr, isLocalMode).nodes, kind)
  {
    var o := Respond(nodes, lastNodeId, sender, packet, now, serverAddr, isLocalMode);
    var j :| 0 <= j < |nodes| && nodes[j].kind == kind;
    match Handled(packet)
    case None =>
    case Some(req) =>
      var (pub, destination) := ResolveAddresses(sender, req.localSocket, serverAddr, isLocalMode);
      var (added, i) := AddOrUpdate(nodes, pub, req.localSocket, req.senderType, lastNodeId, now);
      assert added[j] == nodes[j];
      assert o.nodes[j].kind == kind;
  }

  // ---------------------------------------------------------------------
  // Assignments

  datatype AssignmentKind = AudioMixer | AvatarMixer

  /** A request, sent to the assignment server, to create a mixer; `pool` is the `-p` argument. */
  datatype Assignment = Assignment(kind: AssignmentKind, pool: Option<seq<char>>)

  function NodeTypeOf(kind: AssignmentKind): byte
  {
    match kind
    case AudioMixer => NODE_TYPE_AUDIO_MIXER
    case AvatarMixer => NODE_TYPE_AVATAR_MIXER
  }

  /**
   * The assignment requested at the top of an iteration: an audio mixer
   * while there is none, else an avatar mixer while there is none, else
   * nothing.
   */
  function AssignmentToRequest(nodes: seq<NodeRecord>, pool: Option<seq<char>>): (a: Option<Assignment>)
    ensures a.Some? ==> a.value.pool == pool && !HasNodeOfType(nodes, NodeTypeOf(a.value.kind))
    ensures a.Some? && a.value.kind == AvatarMixer ==> HasNodeOfType(nodes, NODE_TYPE_AUDIO_MIXER)
    ensures a.None? <==> HasNodeOfType(nodes, NODE_TYPE_AUDIO_MIXER) && HasNodeOfType(nodes, NODE_TYPE_AVATAR_MIXER)
  {
    if !HasNodeOfType(nodes, NODE_TYPE_AUDIO_MIXER) then Some(Assignment(AudioMixer, pool))
    else if !HasNodeOfType(nodes, NODE_TYPE_AVATAR_MIXER) then Some(Assignment(AvatarMixer, pool))
    else None
  }

  /**
   * Once a mixer of the requested kind has checked in, that assignment is
   * not requested again: the loop moves on to the next missing mixer.
   */
  lemma AssignmentProgress(nodes: seq<NodeRecord>, lastNodeId: nat, sender: SockAddr, packet: seq<byte>,
                           now: nat, serverAddr: uint32, isLocalMode: bool, pool: Option<seq<char>>, req: Request)
    requires AssignmentToRequest(nodes, pool).Some?
    requires Handled(packet) == Some(req)
    requires req.senderType == NodeTypeOf(AssignmentToRequest(nodes, pool).value.kind)
    ensures var after := Respond(nodes, lastNodeId, sender, packet, now, serverAddr, isLocalMode).nodes;
            AssignmentToRequest(after, pool) != AssignmentToRequest(nodes, pool)
  {
    var o := Respond(nodes, lastNodeId, sender, packet, now, serverAddr, isLocalMode);
    RespondAddresses(nodes, lastNodeId, sender, packet, now, serverAddr, isLocalMode, req, o);
    var j :| 0 <= j < |o.nodes| &&
             Matches(o.nodes[j], if CoLocated(sender, serverAddr, isLocalMode) then sender.(addr := 0) else sender,
                     req.localSocket, req.senderType);
    assert o.nodes[j].kind == req.senderType;
    if AssignmentToRequest(nodes, pool).value.kind == AvatarMixer {
      RespondKeepsTypes(nodes, lastNodeId, sender, packet, now, serverAddr, isLocalMode, NODE_TYPE_AUDIO_MIXER);
    }
  }

  /**
   * The buffer holds the reply once the identifier is written after the
   * entries, the header and entries having been left in place.
   */
  lemma ReplyLayout(before: seq<byte>, after: seq<byte>, entriesEnd: nat, end: nat, ns: seq<NodeRecord>, id: nat)
    requires HEADER_WIDTH <= entriesEnd <= end <= |after| && entriesEnd <= |before|
    requires before[..HEADER_WIDTH] == Header(PACKET_TYPE_DOMAIN)
    requires before[HEADER_WIDTH..entriesEnd] == Entries(ns)
    requires after[..entriesEnd] == before[..entriesEnd]
    requires after[entriesEnd..end] == PackNodeId(id)
    ensures after[..HEADER_WIDTH] == Header(PACKET_TYPE_DOMAIN)
    ensures after[..end] == EncodeReply(ns, id)
  {
    assert after[..HEADER_WIDTH] == before[..entriesEnd][..HEADER_WIDTH];
    assert after[HEADER_WIDTH..entriesEnd] == before[..entriesEnd][HEADER_WIDTH..];
    assert after[..end] == after[..HEADER_WIDTH] + after[HEADER_WIDTH..entriesEnd] + after[entriesEnd..end];
  }

  // ---------------------------------------------------------------------
  // The server

  /** The loop's state: the node list, the broadcast buffer and the start-up settings. */
  class Server {
    const nodeList: NodeList
    const broadcastPacket: array<byte>
    const isLocalMode: bool
    const serverLocalAddress: uint32
    const assignmentPool: Option<seq<char>>

    /** The directory is well formed and the buffer holds the reply header. */
    ghost predicate Valid()
      reads this, nodeList, broadcastPacket
    {
      nodeList.Valid() &&
      broadcastPacket.Length == MAX_PACKET_SIZE &&
      broadcastPacket[..HEADER_WIDTH] == Header(PACKET_TYPE_DOMAIN)
    }

    /** Start-up: an empty node list and the header written once into the broadcast buffer. */
    constructor (isLocalMode: bool, serverLocalAddress: uint32, assignmentPool: Option<seq<char>>)
      ensures Valid() && fresh(nodeList) && fresh(broadcastPacket)
      ensures nodeList.nodes == [] && nodeList.lastNodeId == 0
      ensures this.isLocalMode == isLocalMode && this.serverLocalAddress == serverLocalAddress
      ensures this.assignmentPool == assignmentPool
    {
      var buffer := new byte[MAX_PACKET_SIZE];
      var headerEnd := PutBytes(buffer, 0, Header(PACKET_TYPE_DOMAIN));
      nodeList := new NodeList();
      broadcastPacket := buffer;
      this.isLocalMode := isLocalMode;
      this.serverLocalAddress := serverLocalAddress;
      this.assignmentPool := assignmentPool;
    }

    /** The assignment check at the top of the loop (sending it is left to the caller). */
    method RequestAssignment() returns (a: Option<Assignment>)
      ensures a == AssignmentToRequest(nodeList.nodes, assignmentPool)
    {
      var audioMixer := nodeList.SoloNodeOfType(NODE_TYPE_AUDIO_MIXER);
      if audioMixer.None? {
        return Some(Assignment(AudioMixer, assignmentPool));
      }
      var avatarMixer := nodeList.SoloNodeOfType(NODE_TYPE_AVATAR_MIXER);
      if avatarMixer.None? {
        return Some(Assignment(AvatarMixer, assignmentPool));
      }
      return None;
    }

    /**
     * Handles one received packet in place and returns the datagram to send.
     * The reply it builds must fit in the broadcast buffer.
     */
    method HandlePacket(sender: SockAddr, packet: seq<byte>, now: nat) returns (reply: Option<Datagram>)
      requires Valid()
      requires ReplyFits(Respond(nodeList.nodes, nodeList.lastNodeId, sender, packet, now,
                                 serverLocalAddress, isLocalMode))
      modifies nodeList, broadcastPacket
      ensures Valid()
      ensures Outcome(nodeList.nodes, nodeList.lastNodeId, reply) ==
                Respond(old(nodeList.nodes), old(nodeList.lastNodeId), sender, packet, now,
                        serverLocalAddress, isLocalMode)
    {
      if !(|packet| >= 1 &&
           (packet[0] == PACKET_TYPE_DOMAIN_REPORT_FOR_DUTY || packet[0] == PACKET_TYPE_DOMAIN_LIST_REQUEST) &&
           VersionMatch(packet)) {
        return None;
      }
      var request := ParseRequest(packet);
      if request.None? {
        return None;
      }
      reply := AnswerRequest(sender, request.value, packet[0] == PACKET_TYPE_DOMAIN_REPORT_FOR_DUTY, now);
    }

    /** Registers the sender of a parsed check-in, writes the reply and stamps the sender. */
    method AnswerRequest(sender: SockAddr, request: Request, reportForDuty: bool, now: nat)
      returns (reply: Option<Datagram>)
      requires Valid()
      requires ReplyFits(Answer(nodeList.nodes, nodeList.lastNodeId, sender, request, reportForDuty, now,
                                serverLocalAddress, isLocalMode))
      modifies nodeList, broadcastPacket
      ensures Valid()
      ensures Outcome(nodeList.nodes, nodeList.lastNodeId, reply) ==
                Answer(old(nodeList.nodes), old(nodeList.lastNodeId), sender, request, reportForDuty, now,
                       serverLocalAddress, isLocalMode)
    {
      ghost var expected := Answer(nodeList.nodes, nodeList.lastNodeId, sender, request, reportForDuty, now,
                                   serverLocalAddress, isLocalMode);
      var nodeType := request.senderType;
      var nodeLocalAddress := request.localSocket;
      var nodePublicAddress := sender;
      var destination := sender;
      if nodePublicAddress.addr == serverLocalAddress {
        if !isLocalMode {
          nodePublicAddress := nodePublicAddress.(addr := 0);
          destination := nodeLocalAddress;
        }
      }

      var index := RegisterSender(nodePublicAddress, nodeLocalAddress, nodeType, now);
      var requester := Requester(nodeType, nodePublicAddress, nodeLocalAddress, request.interest);
      ghost var added := nodeList.nodes;
      assert |expected.reply.value.payload| == HEADER_WIDTH + ENTRY_WIDTH * |ReplyNodes(added, requester)| + ID_WIDTH;
      var entriesEnd := BuildEntries(broadcastPacket, HEADER_WIDTH, nodeList.nodes, requester);
      ghost var entriesWritten := broadcastPacket[..];
      StampSender(index, now, reportForDuty && IsSolo(nodeType));
      var end := PutBytes(broadcastPacket, entriesEnd, PackNodeId(nodeList.nodes[index].id));
      ReplyLayout(entriesWritten, broadcastPacket[..], entriesEnd, end, ReplyNodes(added, requester), added[index].id);
      reply := Some(Datagram(destination, broadcastPacket[..end]));
    }

    /**
     * `addOrUpdateNode` with the counter as the candidate identifier, then
     * `increaseNodeID` when the returned record carries it.
     */
    method RegisterSender(publicSocket: SockAddr, localSocket: SockAddr, nodeType: byte, now: nat)
      returns (index: nat)
      requires nodeList.Valid()
      modifies nodeList
      ensures nodeList.Valid()
      ensures (nodeList.nodes, index) ==
                AddOrUpdate(old(nodeList.nodes), publicSocket, localSocket, nodeType, old(nodeList.lastNodeId), now)
      ensures nodeList.lastNodeId ==
                if nodeList.nodes[index].id == old(nodeList.lastNodeId) then old(nodeList.lastNodeId) + 1
                else old(nodeList.lastNodeId)
    {
      index := nodeList.AddOrUpdateNode(publicSocket, localSocket, nodeType, nodeList.lastNodeId, now);
      AddOrUpdateWithCounter(old(nodeList.nodes), publicSocket, localSocket, nodeType, old(nodeList.lastNodeId), now);
      if nodeList.nodes[index].id == nodeList.lastNodeId {
        nodeList.IncreaseNodeId();
      }
    }

    /** `setLastHeardMicrostamp`, then `setWakeMicrostamp` when `woken`, on the sender's record. */
    method StampSender(index: nat, now: nat, woken: bool)
      requires nodeList.Valid() && index < |nodeList.nodes|
      modifies nodeList
      ensures nodeList.Valid()
      ensures nodeList.nodes == Stamp(old(nodeList.nodes), index, now, woken)
      ensures nodeList.lastNodeId == old(nodeList.lastNodeId)
    {
      nodeList.SetLastHeard(index, now);
      if woken {
        nodeList.SetWake(index, now);
      }
      assert nodeList.nodes == Stamp(old(nodeList.nodes), index, now, woken);
      StampKeepsWellFormed(old(nodeList.nodes), nodeList.lastNodeId, index, now, woken);
    }

    /**
     * One iteration of the main loop: the assignment to request, then the
     * answer to the packet received in this iteration, if any.
     */
    method Iteration(received: Option<(SockAddr, seq<byte>)>, now: nat)
      returns (assignment: Option<Assignment>, reply: Option<Datagram>)
      requires Valid()
      requires received.Some? ==>
                 ReplyFits(Respond(nodeList.nodes, nodeList.lastNodeId, received.value.0, received.value.1, now,
                                   serverLocalAddress, isLocalMode))
      modifies nodeList, broadcastPacket
      ensures Valid()
      ensures assignment == AssignmentToRequest(old(nodeList.nodes), assignmentPool)
      ensures received.None? ==> reply.None? && nodeList.nodes == old(nodeList.nodes) &&
                                 nodeList.lastNodeId == old(nodeList.lastNodeId)
      ensures received.Some? ==>
                Outcome(nodeList.nodes, nodeList.lastNodeId, reply) ==
                  Respond(old(nodeList.nodes), old(nodeList.lastNodeId), received.value.0, received.value.1, now,
                          serverLocalAddress, isLocalMode)
    {
      assignment := RequestAssignment();
      reply := None;
      if received.Some? {
        reply := HandlePacket(received.value.0, received.value.1, now);
      }
    }
  }
}
