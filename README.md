# Domain server check-in loop, modelled in Dafny

The domain server keeps a directory of the nodes of a virtual world:
agents, audio mixers, avatar mixers and so on. Nodes check in by UDP.
Each turn of the main loop does the following:

- It asks the assignment server for an audio mixer while there is none.
  Once there is one, it asks for an avatar mixer while there is none.
- It accepts only a report-for-duty or domain list request packet that
  carries the server's protocol version. Any other packet is ignored.
- It registers the sender under its identity triple (public socket,
  local socket, node type). A sender on the server's own host gets a
  zeroed public address, and its reply goes to its local socket, unless
  the server runs in local mode.
- It writes the reply into a fixed broadcast buffer. The reply holds one
  entry for every other node of a type the sender asked for. Agents are
  never sent agents. Of each solo type (taken here to be domain, audio
  mixer and avatar mixer)
  only the node with the greatest wake stamp is sent, after all other
  entries and in `std::map<char, …>` key order. The sender's own
  identifier comes last.
- It stamps the sender's record: last-heard always; the wake stamp too
  when a solo node reports for duty.

The model has five modules:

- `Codec` (`codec.dfy`) holds the fixed-width wire encodings: header,
  16-bit node identifier and 7-byte socket.
- `NodeTypes` (`node_types.dfy`) holds the type tags, the solo set and
  the signed-`char` key order.
- `Nodes` (`node_list.dfy`) is the directory, as the `NodeList` class
  (node sequence and identifier counter), with add-or-update and
  stamping specified by functions.
- `Broadcast` (`broadcast.dfy`) describes the reply as functions
  (`ReplyNodes`, `Entries`) and proves its properties. The
  cursor-advancing array writers (`AddNodeToBroadcastPacket`,
  `BuildEntries`) are proved to write exactly those bytes.
- `DomainServer` (`domain_server.dfy`) gives the effect of one packet
  (`Respond`), its properties, and the assignment choice. The `Server`
  class runs them in place on the node list and the broadcast buffer.

Three details of the code shape the model:

- The reply's entries are built before the sender's record is stamped
  (`main.cpp` lines 200-249). This order does not change the reply:
  the sender matches its own triple, so it is never among its own
  entries (`ReplyNodesSelected`). Its new stamps matter only to later
  requests.
- The assignment check runs on every turn of the loop, before the
  packet is read (lines 153-161).
- The co-located test compares the packet's source address with the
  server's own address (line 181).

## Model

| member | source | states |
|---|---|---|
| Codec.PackNodeId | domain-server/src/main.cpp:45 | an identifier is written as two bytes that read back as the identifier modulo 2^16 |
| Codec.UnpackSocket | domain-server/src/main.cpp:173-174 | reading a socket consumes exactly seven bytes, and re-encoding the result gives those bytes back |
| Codec.PackSocket | domain-server/src/main.cpp:46-47 | a socket is written as seven bytes; `SocketRoundTrip` shows they read back as the same family, address and port |
| Codec.SocketRoundTrip | domain-server/src/main.cpp:46-47 | unpacking a packed socket gives back the same family, address and port |
| Codec.VersionMatch | domain-server/src/main.cpp:166 | the byte after the type is the version this server speaks for that type; `RequestRoundTrip` and `Handled` rely on it |
| Codec.Header | domain-server/src/main.cpp:106-107 | the reply header is two bytes and starts with the packet type |
| NodeTypes.CharKey | domain-server/src/main.cpp:168 | the map's key order reads a type byte as a signed char, in -128..127 |
| NodeTypes.IsSolo | domain-server/src/main.cpp:216 | a type is solo exactly when it is in `SOLO_NODE_TYPES`, assumed to hold domain, audio mixer and avatar mixer; `ImmediateEntriesExact`, `ReplySoloIsNewest` and `RespondStamps` state what that decides |
| NodeTypes.KeyByte | domain-server/src/main.cpp:234-236 | every key of the walk is the signed reading of exactly one type byte |
| Nodes.Matches | domain-server/src/main.cpp:210 | `Node::matches`: same public socket, local socket and type; `ReplyNodesSelected` shows no reply entry matches the requester |
| Nodes.FindNode | domain-server/src/main.cpp:191-194 | finds the first record whose public socket, local socket and type all match, and finds none only when no record matches |
| Nodes.AddOrUpdate | domain-server/src/main.cpp:191-194 | the returned record matches the triple; existing records are kept in place; a record is appended, carrying the candidate identifier, exactly when none matched |
| Nodes.AddOrUpdateIdempotent | domain-server/src/main.cpp:191-194 | announcing the same triple twice adds nothing the second time and returns the same record and identifier |
| Nodes.AddOrUpdateWithCounter | domain-server/src/main.cpp:191-198 | with the counter as candidate, the record carries the counter exactly when it was created; advancing the counter then keeps triples and identifiers unique and below the counter |
| Nodes.Stamp | domain-server/src/main.cpp:243-249 | only the chosen record changes; its last-heard stamp becomes now; its wake stamp becomes now only when asked; its triple and identifier stay |
| Nodes.StampKeepsWellFormed | domain-server/src/main.cpp:243-249 | stamping keeps the directory invariant |
| Nodes.NodeList.constructor | domain-server/src/main.cpp:85 | the list starts empty, with counter zero |
| Nodes.NodeList.AddOrUpdateNode | domain-server/src/main.cpp:191-194 | the linear search leaves the list and index exactly as `AddOrUpdate` specifies |
| Nodes.NodeList.IncreaseNodeId | domain-server/src/main.cpp:196-198 | the counter goes up by one |
| Nodes.NodeList.SetLastHeard | domain-server/src/main.cpp:244 | only the last-heard stamp of one record changes |
| Nodes.NodeList.SetWake | domain-server/src/main.cpp:248 | only the wake stamp of one record changes |
| Nodes.HasNodeOfType | domain-server/src/main.cpp:153-157 | the list holds a node of the type, the `soloNodeOfType(...) != NULL` test; `NodeList.SoloNodeOfType` returns none exactly when it fails, and `AssignmentToRequest` and `RespondKeepsTypes` are stated with it |
| Nodes.NodeList.SoloNodeOfType | domain-server/src/main.cpp:153-157 | returns a record of the given type, and none exactly when the list has no node of that type |
| Broadcast.EncodeEntry | domain-server/src/main.cpp:42-51 | an entry is type, identifier, public socket and local socket: 17 bytes |
| Broadcast.EntryRoundTrip | domain-server/src/main.cpp:42-51 | an entry decodes to the node's type, 16-bit identifier and both sockets |
| Broadcast.Entries | domain-server/src/main.cpp:220 | consecutive entries take 17 bytes each |
| Broadcast.EntriesRoundTrip | domain-server/src/main.cpp:220-238 | the entry list decodes, in order, to the nodes' views |
| Broadcast.Selected | domain-server/src/main.cpp:210-211 | not the requester's triple and of a type of interest; `ReplyNodesSelected` shows every reply node passes it |
| Broadcast.AgentToAgent | domain-server/src/main.cpp:219 | requester and node are both agents; `AgentIsolation` shows such a node is never sent |
| Broadcast.SentAtOnce | domain-server/src/main.cpp:216-221 | a selected non-solo node outside the agent-to-agent case; `ImmediateEntriesExact` shows the scan writes exactly these nodes |
| Broadcast.SoloCandidate | domain-server/src/main.cpp:224-226 | a selected node of the given solo type; `NewestSoloIsArgmax` shows the kept node of each type is the first such node with the greatest wake stamp |
| Broadcast.ImmediateEntries | domain-server/src/main.cpp:209-222 | the scan writes at most one entry per node scanned |
| Broadcast.NewestSolo | domain-server/src/main.cpp:224-229 | the `newestSoloNodes` map after each scan step; `NewestSoloKept` and `NewestSoloIsArgmax` state that it keeps the first candidate with the greatest wake stamp |
| Broadcast.NewestSoloKept | domain-server/src/main.cpp:224-229 | every kept index is an earlier, selected candidate of the type it is kept for |
| Broadcast.KeptSolo | domain-server/src/main.cpp:209-232 | after the whole scan, each kept node is a selected node of the solo type it is kept for |
| Broadcast.NewestSoloIsArgmax | domain-server/src/main.cpp:224-229 | a type is kept exactly when a candidate was seen, and the kept node has the greatest wake stamp, the earliest such node winning a tie (strict less-than) |
| Broadcast.ReplyNodes | domain-server/src/main.cpp:209-239 | the nodes whose entries the reply carries: the scan's entries, then the walk's; `ReplyNodesSelected`, `AgentIsolation`, `ReplySoloIsNewest`, `ReplySoloOrdered`, `ReplyCarriesNewest` and `ReplyNodesBound` state its properties |
| Broadcast.ReplyNodesSelected | domain-server/src/main.cpp:209-214 | every node in a reply is in the directory, is not the requester, and is of a type of interest |
| Broadcast.ImmediateEntriesExact | domain-server/src/main.cpp:209-222 | the scan writes exactly the selected non-solo nodes, minus agents when an agent asks |
| Broadcast.ImmediateEntriesSentAtOnce | domain-server/src/main.cpp:216-221 | each entry written during the scan is of a selected non-solo node |
| Broadcast.AgentIsolation | domain-server/src/main.cpp:218-221 | an agent's reply carries no agent entry |
| Broadcast.EmptyInterestNoEntries | domain-server/src/main.cpp:207-208 | with no types of interest the reply carries no entries |
| Broadcast.NothingSelected | domain-server/src/main.cpp:207-211 | with no types of interest the scan writes nothing and keeps no solo node |
| Broadcast.SoloEntries | domain-server/src/main.cpp:234-239 | the walk over the map in key order; `SoloEntriesShape`, `SoloEntriesCount` and `SoloEntriesGrow` state what it emits |
| Broadcast.SoloEntriesShape | domain-server/src/main.cpp:234-239 | the map walk emits each kept node once, in strictly ascending signed key order, and nothing else |
| Broadcast.SoloEntryOfReply | domain-server/src/main.cpp:216-239 | a solo-typed entry of a reply lies after all scan entries and is the kept node of its type |
| Broadcast.ReplySoloIsNewest | domain-server/src/main.cpp:224-239 | every solo-typed entry in a reply is the representative (greatest wake stamp, earliest on ties) of its type |
| Broadcast.ReplySoloOrdered | domain-server/src/main.cpp:234-239 | solo entries come after all others, in strictly ascending key order, so at most one per solo type |
| Broadcast.SoloPairOrdered | domain-server/src/main.cpp:234-239 | any entry after a solo entry is a solo entry with a greater key |
| Broadcast.ReplyCarriesNewest | domain-server/src/main.cpp:224-239 | the representative of every solo type with a candidate is in the reply |
| Broadcast.ReplyNodesBound | domain-server/src/main.cpp:209-239 | a reply never has more entries than there are nodes |
| Broadcast.ImmediateEntriesGrow | domain-server/src/main.cpp:209-222 | the entries written by the first i nodes of the scan are a prefix of those written by the first j, for i <= j |
| Broadcast.SoloEntriesGrow | domain-server/src/main.cpp:234-239 | the walk's entries up to one key are a prefix of its entries up to a later key |
| Broadcast.ScanBound | domain-server/src/main.cpp:209-232 | scan entries plus kept solo types never exceed the nodes scanned |
| Broadcast.SoloEntriesCount | domain-server/src/main.cpp:234-239 | the walk emits one entry per map key passed |
| Broadcast.PutBytes | domain-server/src/main.cpp:45-47 | writes the bytes at the cursor, advances it by their count and leaves the rest of the buffer alone |
| Broadcast.AddNodeToBroadcastPacket | domain-server/src/main.cpp:42-51 | the four writes leave the entry's 17 bytes at the cursor, return the cursor 17 bytes on and touch nothing else |
| Broadcast.AppendEntry | domain-server/src/main.cpp:220 | an entry written after the entries of a list extends the buffer to the entries of the longer list |
| Broadcast.ScanNode | domain-server/src/main.cpp:210-230 | one scan iteration updates the cursor, buffer and newest-solo map exactly as one more step of the scan functions |
| Broadcast.ScanNodes | domain-server/src/main.cpp:209-232 | the scan loop leaves the scan's entries in the buffer and the kept map in `newestSoloNodes` |
| Broadcast.WalkKey | domain-server/src/main.cpp:234-238 | one step of the map walk appends the kept node's entry for that key, if any, exactly as one more step of `SoloEntries` |
| Broadcast.WriteSoloEntries | domain-server/src/main.cpp:234-239 | the map walk appends the kept nodes' entries in key order |
| Broadcast.BuildEntries | domain-server/src/main.cpp:200-240 | given room for the reply's own entries, the bytes between the header and the cursor are exactly the entries of `ReplyNodes`, and the header is untouched |
| DomainServer.ParseRequest | domain-server/src/main.cpp:170-174 | a request parses exactly when the packet holds its header, sender type, socket, count and that many interest bytes |
| DomainServer.RequestRoundTrip | domain-server/src/main.cpp:203-205 | an encoded check-in parses back to its sender type, local socket and interest list, and is accepted exactly for the two check-in packet types |
| DomainServer.ParseRequestExact | domain-server/src/main.cpp:170-205 | re-encoding what was parsed gives back the packet's prefix |
| DomainServer.Accepts | domain-server/src/main.cpp:164-166 | a report-for-duty or list request carrying the right version; `RequestRoundTrip` shows an encoded check-in is accepted exactly for those two types |
| DomainServer.Handled | domain-server/src/main.cpp:164-166 | only a report-for-duty or list request of the right version is acted on |
| DomainServer.CoLocated | domain-server/src/main.cpp:181-185 | the sender's address is the server's own and local mode is off; `ResolveAddresses` and `RespondAddresses` show the address is zeroed and the reply sent to the local socket exactly then |
| DomainServer.ResolveAddresses | domain-server/src/main.cpp:176-189 | the recorded address is zeroed and the reply goes to the local socket exactly when the sender shares the server's address and local mode is off; family and port are kept |
| DomainServer.EncodeReply | domain-server/src/main.cpp:251-257 | the reply is header, 17 bytes per entry, then two identifier bytes |
| DomainServer.ReplyRoundTrip | domain-server/src/main.cpp:251-257 | a reply decodes to its nodes' views and the receiver's 16-bit identifier |
| DomainServer.Respond | domain-server/src/main.cpp:164-258 | the directory, counter and datagram after one packet; `OnlyHandledPacketsAct`, `RespondKeepsWellFormed`, `RespondStamps`, `RespondAddresses`, `RespondReply` and `RespondKeepsTypes` state its properties |
| DomainServer.Answer | domain-server/src/main.cpp:176-257 | the answer to a parsed check-in: register, build the reply, stamp, advance the counter; `Server.AnswerRequest` is proved equal to it |
| DomainServer.OnlyHandledPacketsAct | domain-server/src/main.cpp:164-166 | an ignored packet changes neither directory nor counter and gets no reply; a handled one always gets a reply |
| DomainServer.ReplyFitsSmallDirectory | domain-server/src/main.cpp:207-257 | every reply fits in the 1500-byte buffer when the directory leaves room for one entry per record plus the sender; a reply to a check-in with no types of interest fits at any directory size |
| DomainServer.RespondKeepsWellFormed | domain-server/src/main.cpp:191-198 | handling a packet keeps the directory invariant; the counter advances by one exactly when a record was added |
| DomainServer.RespondStamps | domain-server/src/main.cpp:242-249 | only the sender's record is stamped: last-heard is now; wake is now for a solo report-for-duty, otherwise unchanged |
| DomainServer.RespondAddresses | domain-server/src/main.cpp:176-194 | the sender is registered with a zeroed address, and answered at its local socket, exactly when co-located and not in local mode |
| DomainServer.RespondReply | domain-server/src/main.cpp:200-257 | the reply decodes to the chosen entries and the sender's identifier; no entry describes the sender; every entry has a type of interest |
| DomainServer.ViewsOf | domain-server/src/main.cpp:220-238 | every decoded entry is the view of a node sent |
| DomainServer.RespondEmptyInterest | domain-server/src/main.cpp:207-252 | with no types of interest the reply is the header and the identifier, four bytes |
| DomainServer.RespondKeepsTypes | domain-server/src/main.cpp:191-249 | handling a packet never removes a node type from the directory |
| DomainServer.AssignmentToRequest | domain-server/src/main.cpp:153-161 | asks for an audio mixer while there is none, then an avatar mixer while there is none, at most one request, and nothing once both exist |
| DomainServer.AssignmentProgress | domain-server/src/main.cpp:153-198 | once a mixer of the requested kind checks in, that request is not made again |
| DomainServer.ReplyLayout | domain-server/src/main.cpp:251-257 | header, entries and identifier written in turn make up the reply |
| DomainServer.Server.constructor | domain-server/src/main.cpp:85-107 | starts with an empty node list and the reply header in the broadcast buffer |
| DomainServer.Server.RequestAssignment | domain-server/src/main.cpp:153-161 | the two `soloNodeOfType` checks choose the assignment `AssignmentToRequest` specifies |
| DomainServer.Server.HandlePacket | domain-server/src/main.cpp:164-258 | the node list, counter and datagram after one packet are exactly `Respond`'s, and the server stays valid |
| DomainServer.Server.AnswerRequest | domain-server/src/main.cpp:176-257 | handling a parsed check-in in place yields exactly `Answer`'s outcome |
| DomainServer.Server.RegisterSender | domain-server/src/main.cpp:191-198 | add-or-update with the counter as candidate, then the counter advance when the record carries it; the invariant holds |
| DomainServer.Server.StampSender | domain-server/src/main.cpp:242-249 | the in-place stamps equal `Stamp`, and the invariant holds |
| DomainServer.Server.Iteration | domain-server/src/main.cpp:151-258 | one loop turn: the assignment chosen from the directory before the packet, then the packet's outcome (nothing when no packet arrived) |

## Left out

- The HTTP status page (`begin_request_handler` and the mongoose web server) is output only and does not affect the directory or the replies.
- Command-line handling (`--local`, `-p <pool>`) is replaced by the `Server` constructor's parameters.
- Socket I/O is left out. A received datagram is a parameter of `Iteration`. The reply, and the assignment to send, are returned values.
- The silent-node removal thread runs concurrently and is not modelled. In this model records are never removed.
- The periodic node count sent to Logstash is left out. It is output only.
- The shared helpers are not part of this model: `packNodeId`, `packSocket`, `unpackSocket`, `populateTypeAndVersion`, `numBytesForPacketHeader`, `packetVersionMatch`, `getLocalAddress` and `usecTimestampNow`. Each is modelled as a fixed-width encoder or as a parameter:
  - the header is two bytes;
  - the version byte is 0 for every type;
  - the packet-type and node-type letters stand in for the values in PacketHeaders.h and NodeTypes.h, which are not part of this model.
- The clock is a single `now` per packet. The source reads the clock once when `NodeList` creates a record and again before stamping.
- Identifiers and the counter are unbounded integers. Only the 16-bit truncation on the wire is modelled. The counter wrapping past 2^16 is not.
- A packet too short for its declared interest list is ignored. The source instead reads whatever is left in the receive buffer.
- `Node*` pointers become indices into the node sequence. This is sound because records are never removed while a packet is handled.
- `SOLO_NODE_TYPES` is defined outside `main.cpp`, which only names it at lines 216 and 247. The model assumes it holds domain, audio mixer and avatar mixer (`NodeTypes.SOLO_NODE_TYPES`). Which types are solo decides whether a node is sent at once or by wake-stamp arbitration. `AgentIsolation` also rests on agents not being solo.
- The map's key order takes `char` as signed. On a platform with unsigned `char`, solo types from 0x80 up would sort last instead of first.
- DomainServer.Server.HandlePacket: requires that the reply it builds fits in the 1500-byte broadcast buffer (`ReplyFits`). The source never checks this. It writes past `broadcastPacket` when a reply carries more than 88 entries. `ReplyFitsSmallDirectory` shows the condition holds for every packet while the directory has at most 87 records. It also holds at any size for a check-in with no types of interest.
- DomainServer.Server.AnswerRequest: carries the same reply-fits precondition as `HandlePacket`.
- DomainServer.Server.Iteration: carries the same reply-fits precondition as `HandlePacket`.
- `NodeList`'s own iteration rules, such as skipping inactive nodes, are not part of this model. The scan visits every record.
