/**
 * The reply the domain server sends to a node that checks in: for every
 * live node of a type the requester asked for (other than the requester
 * itself), one entry; Agent entries are withheld from Agents; of each solo
 * type only the node with the greatest wake stamp is sent, after all other
 * entries and in the key order of the `std::map<char, Node*>` that collects
 * them.
 *
 * The reply is specified by functions over the node sequence
 * (`ReplyNodes`, `Entries`); `BuildEntries` writes it into the reply buffer
 * through an advancing cursor and is proved to produce exactly those bytes.
 */
module Broadcast {
  import opened Codec
  import opened NodeTypes
  import opened Nodes

  /**
   * Bytes of one entry: type byte, identifier (ID_WIDTH), public and local
   * socket (SOCKET_WIDTH each); `EncodeEntry` checks the sum.
   */
  const ENTRY_WIDTH: nat := 17

  // ---------------------------------------------------------------------
  // Entry layout

  /** The bytes `addNodeToBroadcastPacket` writes for one node. */
  function EncodeEntry(n: NodeRecord): (r: seq<byte>)
    ensures |r| == ENTRY_WIDTH
  {
    [n.kind] + PackNodeId(n.id) + PackSocket(n.publicSocket) + PackSocket(n.localSocket)
  }

  /** What a receiver can learn from one entry. */
  datatype EntryView = EntryView(kind: byte, id: uint16, publicSocket: SockAddr, localSocket: SockAddr)

  function View(n: NodeRecord): EntryView
  {
    EntryView(n.kind, n.id % 0x1_0000, n.publicSocket, n.localSocket)
  }

  /** Reads one entry from the front of `b`. */
  function DecodeEntry(b: seq<byte>): EntryView
    requires |b| >= ENTRY_WIDTH
  {
    EntryView(b[0], UnpackUint16(b[1..3]), UnpackSocket(b[3..10]), UnpackSocket(b[10..17]))
  }

  /** An entry decodes to the node's type, (16-bit) identifier and both sockets. */
  lemma EntryRoundTrip(n: NodeRecord)
    ensures DecodeEntry(EncodeEntry(n)) == View(n)
  {
    var b := EncodeEntry(n);
    assert b == [n.kind] + PackNodeId(n.id) + PackSocket(n.publicSocket) + PackSocket(n.localSocket);
    assert b[1..3] == PackNodeId(n.id);
    assert b[3..10] == PackSocket(n.publicSocket);
    assert b[10..17] == PackSocket(n.localSocket);
    SocketRoundTrip(n.publicSocket);
    SocketRoundTrip(n.localSocket);
  }

  /** The entries for `ns`, one after another. */
  function Entries(ns: seq<NodeRecord>): (r: seq<byte>)
    ensures |r| == ENTRY_WIDTH * |ns|
  {
    if ns == [] then [] else Entries(ns[..|ns| - 1]) + EncodeEntry(ns[|ns| - 1])
  }

  lemma EntriesAppend(ns: seq<NodeRecord>, n: NodeRecord)
    ensures Entries(ns + [n]) == Entries(ns) + EncodeEntry(n)
  {
    assert (ns + [n])[..|ns|] == ns;
  }

  function Views(ns: seq<NodeRecord>): (r: seq<EntryView>)
    ensures |r| == |ns|
  {
    if ns == [] then [] else Views(ns[..|ns| - 1]) + [View(ns[|ns| - 1])]
  }

  /** Reads consecutive entries until `b` is used up. */
  function DecodeEntries(b: seq<byte>): seq<EntryView>
    requires |b| % ENTRY_WIDTH == 0
    decreases |b|
  {
    if |b| == 0 then [] else DecodeEntries(b[..|b| - ENTRY_WIDTH]) + [DecodeEntry(b[|b| - ENTRY_WIDTH..])]
  }

  /** The entry list decodes to the views of the nodes, in order. */
  lemma {:induction false} EntriesRoundTrip(ns: seq<NodeRecord>)
    ensures DecodeEntries(Entries(ns)) == Views(ns)
  {
    if ns != [] {
      var b := Entries(ns);
      var init := ns[..|ns| - 1];
      assert b[..|b| - ENTRY_WIDTH] == Entries(init);
      assert b[|b| - ENTRY_WIDTH..] == EncodeEntry(ns[|ns| - 1]);
      EntriesRoundTrip(init);
      EntryRoundTrip(ns[|ns| - 1]);
    }
  }

  // ---------------------------------------------------------------------
  // Which nodes a reply carries

  /** The node that checked in: its identity triple and its types of interest. */
  datatype Requester = Requester(kind: byte, publicSocket: SockAddr, localSocket: SockAddr, interest: seq<byte>)

  /** Not the requester itself, and of a type it asked for. */
  predicate Selected(n: NodeRecord, r: Requester)
  {
    !Matches(n, r.publicSocket, r.localSocket, r.kind) && n.kind in r.interest
  }

  /** Agents learn about other agents from the avatar mixer, not from here. */
  predicate AgentToAgent(n: NodeRecord, r: Requester)
  {
    r.kind == NODE_TYPE_AGENT && n.kind == NODE_TYPE_AGENT
  }

  /** A node whose entry is written as soon as the scan reaches it. */
  predicate SentAtOnce(n: NodeRecord, r: Requester)
  {
    Selected(n, r) && !IsSolo(n.kind) && !AgentToAgent(n, r)
  }

  /** A node that competes to be the one representative of its solo type. */
  predicate SoloCandidate(n: NodeRecord, r: Requester, t: byte)
  {
    Selected(n, r) && IsSolo(n.kind) && n.kind == t
  }

  /** The nodes among the first `i` whose entries are written during the scan, in list order. */
  function ImmediateEntries(nodes: seq<NodeRecord>, r: Requester, i: nat): (s: seq<NodeRecord>)
    requires i <= |nodes|
    ensures |s| <= i
  {
    if i == 0 then []
    else ImmediateEntries(nodes, r, i - 1) + (if SentAtOnce(nodes[i - 1], r) then [nodes[i - 1]] else [])
  }

  /**
   * The `newestSoloNodes` map after the scan has seen the first `i` nodes:
   * for each solo type, the index of the candidate kept so far. A later
   * candidate replaces the kept one only when its wake stamp is strictly
   * greater.
   */
  function NewestSolo(nodes: seq<NodeRecord>, r: Requester, i: nat): (m: map<byte, nat>)
    requires i <= |nodes|
    decreases i, 0
  {
    if i == 0 then map[]
    else
      var m := NewestSolo(nodes, r, i - 1);
      var n := nodes[i - 1];
      NewestSoloKept(nodes, r, i - 1);
      if SoloCandidate(n, r, n.kind) && (n.kind !in m || nodes[m[n.kind]].wake < n.wake)
      then m[n.kind := i - 1]
      else m
  }

  /** Every kept index is a scanned candidate of the type it is kept for. */
  lemma {:induction false} NewestSoloKept(nodes: seq<NodeRecord>, r: Requester, i: nat)
    requires i <= |nodes|
    ensures forall t :: t in NewestSolo(nodes, r, i) ==>
              NewestSolo(nodes, r, i)[t] < i && SoloCandidate(nodes[NewestSolo(nodes, r, i)[t]], r, t)
    decreases i, 1
  {
    if i > 0 {
      NewestSoloKept(nodes, r, i - 1);
    }
  }

  /**
   * The solo entries for the map keys whose signed `char` reading is below
   * `k`, in ascending key order: the walk over `newestSoloNodes`.
   */
  function SoloEntries(nodes: seq<NodeRecord>, m: map<byte, nat>, k: int): (s: seq<NodeRecord>)
    requires -0x80 <= k <= 0x80
    requires forall t :: t in m ==> m[t] < |nodes|
    decreases k + 0x80
  {
    if k == -0x80 then []
    else
      var t := KeyByte(k - 1);
      SoloEntries(nodes, m, k - 1) + (if t in m then [nodes[m[t]]] else [])
  }

  /** The `newestSoloNodes` map once the whole list has been scanned. */
  function KeptSolo(nodes: seq<NodeRecord>, r: Requester): (m: map<byte, nat>)
    ensures forall t :: t in m ==> m[t] < |nodes| && SoloCandidate(nodes[m[t]], r, t)
  {
    NewestSoloKept(nodes, r, |nodes|);
    NewestSolo(nodes, r, |nodes|)
  }

  /** The nodes a reply carries, in the order their entries appear. */
  function ReplyNodes(nodes: seq<NodeRecord>, r: Requester): seq<NodeRecord>
  {
    ImmediateEntries(nodes, r, |nodes|) + SoloEntries(nodes, KeptSolo(nodes, r), 0x80)
  }

  // ---------------------------------------------------------------------
  // The newest-solo scan is an arg-max with the earliest index winning ties

  /**
   * Node `w` is the representative of solo type `t` among the first `i`
   * nodes: a candidate whose wake stamp beats every earlier candidate
   * strictly and is matched or beaten by none later.
   */
  ghost predicate NewestAmong(nodes: seq<NodeRecord>, r: Requester, t: byte, w: nat, i: nat)
    requires i <= |nodes|
  {
    w < i && SoloCandidate(nodes[w], r, t) &&
    (forall j :: 0 <= j < w && SoloCandidate(nodes[j], r, t) ==> nodes[j].wake < nodes[w].wake) &&
    (forall j :: w < j < i && SoloCandidate(nodes[j], r, t) ==> nodes[j].wake <= nodes[w].wake)
  }

  /** There is at most one representative. */
  lemma NewestUnique(nodes: seq<NodeRecord>, r: Requester, t: byte, w1: nat, w2: nat, i: nat)
    requires i <= |nodes|
    requires NewestAmong(nodes, r, t, w1, i) && NewestAmong(nodes, r, t, w2, i)
    ensures w1 == w2
  {
  }

  /**
   * The scan keeps a type exactly when some candidate of that type has been
   * seen, and what it keeps is the representative.
   */
  lemma {:induction false} NewestSoloIsArgmax(nodes: seq<NodeRecord>, r: Requester, t: byte, i: nat)
    requires i <= |nodes|
    ensures var m := NewestSolo(nodes, r, i);
            (t in m <==> exists j :: 0 <= j < i && SoloCandidate(nodes[j], r, t)) &&
            (t in m ==> NewestAmong(nodes, r, t, m[t], i))
  {
    if i > 0 {
      NewestSoloIsArgmax(nodes, r, t, i - 1);
      var m0 := NewestSolo(nodes, r, i - 1);
      var m := NewestSolo(nodes, r, i);
      var n := nodes[i - 1];
      if SoloCandidate(n, r, t) {
        if t in m0 && n.wake <= nodes[m0[t]].wake {
          assert m == m0;
        } else {
          assert m[t] == i - 1;
          if t in m0 {
            var w0 := m0[t];
            forall j | 0 <= j < i - 1 && SoloCandidate(nodes[j], r, t)
              ensures nodes[j].wake < n.wake
            {
              assert nodes[j].wake <= nodes[w0].wake;
            }
          }
        }
      } else {
        assert t in m <==> t in m0;
        assert t in m ==> m[t] == m0[t];
      }
    }
  }

  // ---------------------------------------------------------------------
  // Properties of the reply

  /** Every entry of a reply is a node of a type asked for, and never the requester. */
  lemma {:induction false} ReplyNodesSelected(nodes: seq<NodeRecord>, r: Requester)
    ensures forall x :: x in ReplyNodes(nodes, r) ==> x in nodes && Selected(x, r)
  {
    var imm := ImmediateEntries(nodes, r, |nodes|);
    var m := KeptSolo(nodes, r);
    var solo := SoloEntries(nodes, m, 0x80);
    ImmediateEntriesExact(nodes, r, |nodes|);
    SoloEntriesShape(nodes, m, 0x80);
    assert nodes[..|nodes|] == nodes;
    forall x | x in ReplyNodes(nodes, r)
      ensures x in nodes && Selected(x, r)
    {
      if x !in imm {
        assert x in solo;
        var a :| 0 <= a < |solo| && solo[a] == x;
        assert solo[a].kind in m;
        assert SoloCandidate(nodes[m[x.kind]], r, x.kind);
      }
    }
  }

  /**
   * The entries written during the scan are exactly the selected nodes of a
   * non-solo type, minus agents when an agent asks.
   */
  lemma {:induction false} ImmediateEntriesExact(nodes: seq<NodeRecord>, r: Requester, i: nat)
    requires i <= |nodes|
    ensures forall x :: x in ImmediateEntries(nodes, r, i) <==> x in nodes[..i] && SentAtOnce(x, r)
  {
    if i > 0 {
      ImmediateEntriesExact(nodes, r, i - 1);
      assert nodes[..i] == nodes[..i - 1] + [nodes[i - 1]];
    }
  }

  /** Every entry written during the scan is of a node sent at once. */
  lemma {:induction false} ImmediateEntriesSentAtOnce(nodes: seq<NodeRecord>, r: Requester, i: nat)
    requires i <= |nodes|
    ensures forall a :: 0 <= a < |ImmediateEntries(nodes, r, i)| ==> SentAtOnce(ImmediateEntries(nodes, r, i)[a], r)
  {
    if i > 0 {
      ImmediateEntriesSentAtOnce(nodes, r, i - 1);
    }
  }

  /** An agent is never sent another agent's entry, whatever it asks for. */
  lemma AgentIsolation(nodes: seq<NodeRecord>, r: Requester)
    requires r.kind == NODE_TYPE_AGENT
    ensures forall x :: x in ReplyNodes(nodes, r) ==> x.kind != NODE_TYPE_AGENT
  {
    ReplyNodesSelected(nodes, r);
    ImmediateEntriesExact(nodes, r, |nodes|);
    var imm := ImmediateEntries(nodes, r, |nodes|);
    var m := KeptSolo(nodes, r);
    var solo := SoloEntries(nodes, m, 0x80);
    SoloEntriesShape(nodes, m, 0x80);
    assert !IsSolo(NODE_TYPE_AGENT);
    forall x | x in ReplyNodes(nodes, r)
      ensures x.kind != NODE_TYPE_AGENT
    {
      if x !in imm {
        assert x in solo;
        var a :| 0 <= a < |solo| && solo[a] == x;
        assert solo[a].kind in m;
        assert IsSolo(nodes[m[x.kind]].kind);
      }
    }
  }

  /** With no types of interest the reply carries no entries. */
  lemma EmptyInterestNoEntries(nodes: seq<NodeRecord>, r: Requester)
    requires |r.interest| == 0
    ensures ReplyNodes(nodes, r) == []
  {
    NothingSelected(nodes, r, |nodes|);
    SoloEntriesEmptyMap(nodes, KeptSolo(nodes, r), 0x80);
  }

  lemma {:induction false} NothingSelected(nodes: seq<NodeRecord>, r: Requester, i: nat)
    requires |r.interest| == 0 && i <= |nodes|
    ensures ImmediateEntries(nodes, r, i) == [] && NewestSolo(nodes, r, i) == map[]
  {
    if i > 0 {
      NothingSelected(nodes, r, i - 1);
    }
  }

  lemma {:induction false} SoloEntriesEmptyMap(nodes: seq<NodeRecord>, m: map<byte, nat>, k: int)
    requires -0x80 <= k <= 0x80 && m == map[]
    ensures SoloEntries(nodes, m, k) == []
    decreases k + 0x80
  {
    if k > -0x80 {
      SoloEntriesEmptyMap(nodes, m, k - 1);
    }
  }

  /**
   * The walk over the map emits, in strictly ascending key order, the kept
   * node of every key below `k`, and nothing else.
   */
  lemma {:induction false} SoloEntriesShape(nodes: seq<NodeRecord>, m: map<byte, nat>, k: int)
    requires -0x80 <= k <= 0x80
    requires forall t :: t in m ==> m[t] < |nodes| && nodes[m[t]].kind == t
    ensures forall a :: 0 <= a < |SoloEntries(nodes, m, k)| ==>
              var x := SoloEntries(nodes, m, k)[a]; x.kind in m && x == nodes[m[x.kind]] && CharKey(x.kind) < k
    ensures forall a, b :: 0 <= a < b < |SoloEntries(nodes, m, k)| ==>
              CharKey(SoloEntries(nodes, m, k)[a].kind) < CharKey(SoloEntries(nodes, m, k)[b].kind)
    ensures forall t :: t in m && CharKey(t) < k ==> nodes[m[t]] in SoloEntries(nodes, m, k)
    decreases k + 0x80
  {
    if k > -0x80 {
      SoloEntriesShape(nodes, m, k - 1);
      var s0 := SoloEntries(nodes, m, k - 1);
      var s := SoloEntries(nodes, m, k);
      var t := KeyByte(k - 1);
      forall t' | t' in m && CharKey(t') == k - 1
        ensures t' == t
      {
      }
      if t in m {
        assert s == s0 + [nodes[m[t]]];
        assert s[|s0|].kind == t;
        forall a | 0 <= a < |s0|
          ensures s[a] == s0[a]
        {
        }
      } else {
        assert s == s0;
      }
    }
  }

  /** A solo-typed entry of a reply comes from the walk over the kept map. */
  lemma SoloEntryOfReply(nodes: seq<NodeRecord>, r: Requester, a: nat)
    requires a < |ReplyNodes(nodes, r)| && IsSolo(ReplyNodes(nodes, r)[a].kind)
    ensures var imm := ImmediateEntries(nodes, r, |nodes|);
            var m := KeptSolo(nodes, r);
            var x := ReplyNodes(nodes, r)[a];
            a >= |imm| && x == SoloEntries(nodes, m, 0x80)[a - |imm|] && x.kind in m && x == nodes[m[x.kind]]
  {
    var imm := ImmediateEntries(nodes, r, |nodes|);
    var m := KeptSolo(nodes, r);
    var solo := SoloEntries(nodes, m, 0x80);
    var s := ReplyNodes(nodes, r);
    assert s == imm + solo;
    ImmediateEntriesSentAtOnce(nodes, r, |nodes|);
    if a < |imm| {
      assert false;
    }
    SoloEntriesShape(nodes, m, 0x80);
    assert s[a] == solo[a - |imm|];
  }

  /** Solo arbitration: every solo-typed entry of a reply is the representative of its type. */
  lemma ReplySoloIsNewest(nodes: seq<NodeRecord>, r: Requester)
    ensures forall a :: 0 <= a < |ReplyNodes(nodes, r)| && IsSolo(ReplyNodes(nodes, r)[a].kind) ==>
              exists w: nat :: NewestAmong(nodes, r, ReplyNodes(nodes, r)[a].kind, w, |nodes|) &&
                               ReplyNodes(nodes, r)[a] == nodes[w]
  {
    var s := ReplyNodes(nodes, r);
    var m := KeptSolo(nodes, r);
    forall a | 0 <= a < |s| && IsSolo(s[a].kind)
      ensures exists w: nat :: NewestAmong(nodes, r, s[a].kind, w, |nodes|) && s[a] == nodes[w]
    {
      SoloEntryOfReply(nodes, r, a);
      NewestSoloIsArgmax(nodes, r, s[a].kind, |nodes|);
      assert NewestAmong(nodes, r, s[a].kind, m[s[a].kind], |nodes|);
    }
  }

  /**
   * Solo entries come after every other entry, in strictly ascending key
   * order, so a reply carries at most one entry per solo type.
   */
  lemma ReplySoloOrdered(nodes: seq<NodeRecord>, r: Requester)
    ensures forall a, b :: 0 <= a < b < |ReplyNodes(nodes, r)| && IsSolo(ReplyNodes(nodes, r)[a].kind) ==>
              IsSolo(ReplyNodes(nodes, r)[b].kind) &&
              CharKey(ReplyNodes(nodes, r)[a].kind) < CharKey(ReplyNodes(nodes, r)[b].kind)
  {
    var s := ReplyNodes(nodes, r);
    forall a, b | 0 <= a < b < |s| && IsSolo(s[a].kind)
      ensures IsSolo(s[b].kind) && CharKey(s[a].kind) < CharKey(s[b].kind)
    {
      SoloPairOrdered(nodes, r, a, b);
    }
  }

  lemma SoloPairOrdered(nodes: seq<NodeRecord>, r: Requester, a: nat, b: nat)
    requires a < b < |ReplyNodes(nodes, r)| && IsSolo(ReplyNodes(nodes, r)[a].kind)
    ensures IsSolo(ReplyNodes(nodes, r)[b].kind)
    ensures CharKey(ReplyNodes(nodes, r)[a].kind) < CharKey(ReplyNodes(nodes, r)[b].kind)
  {
    var s := ReplyNodes(nodes, r);
    var imm := ImmediateEntries(nodes, r, |nodes|);
    var m := KeptSolo(nodes, r);
    var solo := SoloEntries(nodes, m, 0x80);
    assert s == imm + solo;
    SoloEntryOfReply(nodes, r, a);
    SoloEntriesShape(nodes, m, 0x80);
    assert s[b] == solo[b - |imm|];
    assert solo[b - |imm|].kind in m;
  }

  /** Every representative of a solo type is sent. */
  lemma ReplyCarriesNewest(nodes: seq<NodeRecord>, r: Requester, t: byte, w: nat)
    requires NewestAmong(nodes, r, t, w, |nodes|)
    ensures nodes[w] in ReplyNodes(nodes, r)
  {
    var m := KeptSolo(nodes, r);
    var solo := SoloEntries(nodes, m, 0x80);
    NewestSoloIsArgmax(nodes, r, t, |nodes|);
    NewestUnique(nodes, r, t, w, m[t], |nodes|);
    SoloEntriesShape(nodes, m, 0x80);
    assert nodes[w] in solo;
    assert ReplyNodes(nodes, r) == ImmediateEntries(nodes, r, |nodes|) + solo;
  }

  /** A reply never has more entries than there are nodes. */
  lemma ReplyNodesBound(nodes: seq<NodeRecord>, r: Requester)
    ensures |ReplyNodes(nodes, r)| <= |nodes|
  {
    var m := KeptSolo(nodes, r);
    ScanBound(nodes, r, |nodes|);
    SoloEntriesCount(nodes, m, 0x80);
    assert UpperKeys(m, 0x80) == {};
  }

  /** Each scanned node adds at most one written entry or one kept solo type. */
  lemma {:induction false} ScanBound(nodes: seq<NodeRecord>, r: Requester, i: nat)
    requires i <= |nodes|
    ensures |ImmediateEntries(nodes, r, i)| + |NewestSolo(nodes, r, i).Keys| <= i
  {
    if i > 0 {
      ScanBound(nodes, r, i - 1);
      ScanStep(nodes, r, i);
    }
  }

  /** One scan step: a written entry, or possibly one more kept type, never both. */
  lemma ScanStep(nodes: seq<NodeRecord>, r: Requester, i: nat)
    requires 0 < i <= |nodes|
    ensures var n := nodes[i - 1];
            |ImmediateEntries(nodes, r, i)| == |ImmediateEntries(nodes, r, i - 1)| + (if SentAtOnce(n, r) then 1 else 0) &&
            |NewestSolo(nodes, r, i).Keys| <= |NewestSolo(nodes, r, i - 1).Keys| + (if SentAtOnce(n, r) then 0 else 1)
  {
    var n := nodes[i - 1];
    var m0 := NewestSolo(nodes, r, i - 1);
    NewestSoloKeys(nodes, r, i);
    CardAddOne(m0.Keys, n.kind);
  }

  lemma CardAddOne(a: set<byte>, x: byte)
    ensures |a + {x}| <= |a| + 1
  {
  }

  /** One scan step adds at most the scanned node's type to the kept types. */
  lemma NewestSoloKeys(nodes: seq<NodeRecord>, r: Requester, i: nat)
    requires 0 < i <= |nodes|
    ensures var n := nodes[i - 1];
            NewestSolo(nodes, r, i).Keys ==
              NewestSolo(nodes, r, i - 1).Keys + (if SoloCandidate(n, r, n.kind) then {n.kind} else {})
  {
  }

  /** The keys of `m` whose signed `char` reading is at least `k`. */
  ghost function UpperKeys(m: map<byte, nat>, k: int): set<byte>
  {
    set t | t in m.Keys && CharKey(t) >= k
  }

  /** The walk up to `k` has emitted one entry per key below `k`. */
  lemma {:induction false} SoloEntriesCount(nodes: seq<NodeRecord>, m: map<byte, nat>, k: int)
    requires -0x80 <= k <= 0x80
    requires forall t :: t in m ==> m[t] < |nodes|
    ensures |SoloEntries(nodes, m, k)| + |UpperKeys(m, k)| == |m.Keys|
    decreases k + 0x80
  {
    if k == -0x80 {
      assert UpperKeys(m, k) == m.Keys;
    } else {
      SoloEntriesCount(nodes, m, k - 1);
      var t := KeyByte(k - 1);
      if t in m {
        assert UpperKeys(m, k - 1) == UpperKeys(m, k) + {t};
      } else {
        assert UpperKeys(m, k - 1) == UpperKeys(m, k);
      }
    }
  }

  // ---------------------------------------------------------------------
  // Writing the reply into the broadcast buffer

  /** Copies `bytes` into `buf` at the cursor `pos` and returns the advanced cursor. */
  method PutBytes(buf: array<byte>, pos: nat, bytes: seq<byte>) returns (next: nat)
    requires pos + |bytes| <= buf.Length
    modifies buf
    ensures next == pos + |bytes|
    ensures buf[pos..next] == bytes
    ensures buf[..pos] == old(buf[..pos]) && buf[next..] == old(buf[next..])
  {
    var j := 0;
    while j < |bytes|
      invariant 0 <= j <= |bytes|
      invariant forall q :: 0 <= q < pos ==> buf[q] == old(buf[q])
      invariant forall q :: 0 <= q < j ==> buf[pos + q] == bytes[q]
      invariant forall q :: pos + |bytes| <= q < buf.Length ==> buf[q] == old(buf[q])
    {
      buf[pos + j] := bytes[j];
      j := j + 1;
    }
    next := pos + |bytes|;
  }

  /** `addNodeToBroadcastPacket`: writes one entry at the cursor and returns the advanced cursor. */
  method AddNodeToBroadcastPacket(buf: array<byte>, pos: nat, n: NodeRecord) returns (next: nat)
    requires pos + ENTRY_WIDTH <= buf.Length
    modifies buf
    ensures next == pos + ENTRY_WIDTH
    ensures buf[pos..next] == EncodeEntry(n)
    ensures buf[..pos] == old(buf[..pos]) && buf[next..] == old(buf[next..])
  {
    buf[pos] := n.kind;
    next := pos + 1;
    ghost var b0 := buf[..];
    next := PutBytes(buf, next, PackNodeId(n.id));
    ghost var b1 := buf[..];
    next := PutBytes(buf, next, PackSocket(n.publicSocket));
    ghost var b2 := buf[..];
    next := PutBytes(buf, next, PackSocket(n.localSocket));
    assert forall q :: 0 <= q < pos + 10 ==> buf[q] == b2[q] by {
      assert buf[..pos + 10] == b2[..pos + 10];
    }
    assert forall q :: 0 <= q < pos + 3 ==> b2[q] == b1[q] by {
      assert b2[..pos + 3] == b1[..pos + 3];
    }
    assert forall q :: 0 <= q < pos + 1 ==> b1[q] == b0[q] by {
      assert b1[..pos + 1] == b0[..pos + 1];
    }
    assert forall q :: pos + 1 <= q < pos + 3 ==> b1[q] == PackNodeId(n.id)[q - pos - 1] by {
      assert b1[pos + 1..pos + 3] == PackNodeId(n.id);
    }
    assert forall q :: pos + 3 <= q < pos + 10 ==> b2[q] == PackSocket(n.publicSocket)[q - pos - 3] by {
      assert b2[pos + 3..pos + 10] == PackSocket(n.publicSocket);
    }
    assert forall q :: pos + 10 <= q < pos + 17 ==> buf[q] == PackSocket(n.localSocket)[q - pos - 10] by {
      assert buf[pos + 10..pos + 17] == PackSocket(n.localSocket);
    }
    assert buf[pos..next] == EncodeEntry(n);
    assert buf[..pos] == old(buf[..pos]) by {
      assert buf[..pos] == b2[..pos] == b1[..pos] == b0[..pos];
    }
  }

  /**
   * Writes the entry of `n` after the entries of `written`, which occupy
   * `buf[start..pos]`: the buffer then holds the entries of `written + [n]`.
   */
  method AppendEntry(buf: array<byte>, start: nat, pos: nat, ghost written: seq<NodeRecord>, n: NodeRecord)
    returns (next: nat)
    requires start <= pos && pos + ENTRY_WIDTH <= buf.Length
    requires buf[start..pos] == Entries(written)
    modifies buf
    ensures next == pos + ENTRY_WIDTH
    ensures buf[start..next] == Entries(written + [n])
    ensures buf[..start] == old(buf[..start])
  {
    ghost var before := buf[..];
    next := AddNodeToBroadcastPacket(buf, pos, n);
    EntriesAppend(written, n);
    assert buf[start..next] == buf[start..pos] + buf[pos..next];
    assert buf[start..pos] == before[start..pos] by {
      assert buf[..pos] == before[..pos];
    }
    assert buf[..start] == before[..start] by {
      assert buf[..pos] == before[..pos];
    }
  }

  /** The entries written by a shorter scan are a prefix of those written by a longer one. */
  lemma {:induction false} ImmediateEntriesGrow(nodes: seq<NodeRecord>, r: Requester, i: nat, j: nat)
    requires i <= j <= |nodes|
    ensures ImmediateEntries(nodes, r, i) <= ImmediateEntries(nodes, r, j)
    ensures |ImmediateEntries(nodes, r, i)| <= |ImmediateEntries(nodes, r, j)|
  {
    if i < j {
      ImmediateEntriesGrow(nodes, r, i, j - 1);
      var s := ImmediateEntries(nodes, r, j - 1);
      assert ImmediateEntries(nodes, r, j)[..|s|] == s;
    }
  }

  /** One step of the `newestSoloNodes` scan, unfolded. */
  lemma NewestSoloStep(nodes: seq<NodeRecord>, r: Requester, i: nat)
    requires i < |nodes|
    ensures var m := NewestSolo(nodes, r, i);
            forall t :: t in m ==> m[t] < i
    ensures var m := NewestSolo(nodes, r, i);
            var n := nodes[i];
            NewestSolo(nodes, r, i + 1) ==
              if SoloCandidate(n, r, n.kind) && (n.kind !in m || nodes[m[n.kind]].wake < n.wake)
              then m[n.kind := i] else m
  {
    NewestSoloKept(nodes, r, i);
  }

  /**
   * One iteration of the scan, on node `i`: a selected node of a non-solo
   * type has its entry written (unless it and the requester are both
   * agents); a selected solo node replaces the kept one of its type when
   * there is none or its wake stamp is strictly greater.
   */
  method ScanNode(buf: array<byte>, start: nat, pos: nat, nodes: seq<NodeRecord>, r: Requester,
                  newest: map<byte, nat>, i: nat)
    returns (next: nat, newest': map<byte, nat>)
    requires i < |nodes| && newest == NewestSolo(nodes, r, i)
    requires pos == start + ENTRY_WIDTH * |ImmediateEntries(nodes, r, i)|
    requires start + ENTRY_WIDTH * |ImmediateEntries(nodes, r, |nodes|)| <= buf.Length && pos <= buf.Length
    requires buf[start..pos] == Entries(ImmediateEntries(nodes, r, i))
    modifies buf
    ensures newest' == NewestSolo(nodes, r, i + 1)
    ensures next == start + ENTRY_WIDTH * |ImmediateEntries(nodes, r, i + 1)|
    ensures next <= start + ENTRY_WIDTH * |ImmediateEntries(nodes, r, |nodes|)|
    ensures buf[start..next] == Entries(ImmediateEntries(nodes, r, i + 1))
    ensures buf[..start] == old(buf[..start])
  {
    NewestSoloStep(nodes, r, i);
    ImmediateEntriesGrow(nodes, r, i + 1, |nodes|);
    next, newest' := pos, newest;
    var n := nodes[i];
    ghost var sent := ImmediateEntries(nodes, r, i);
    if SentAtOnce(n, r) {
      assert ImmediateEntries(nodes, r, i + 1) == sent + [n];
    } else {
      assert ImmediateEntries(nodes, r, i + 1) == sent;
    }
    if !Matches(n, r.publicSocket, r.localSocket, r.kind) && n.kind in r.interest {
      if !IsSolo(n.kind) {
        if r.kind != NODE_TYPE_AGENT || n.kind != NODE_TYPE_AGENT {
          next := AppendEntry(buf, start, pos, sent, n);
        }
      } else if n.kind !in newest || nodes[newest[n.kind]].wake < n.wake {
        newest' := newest[n.kind := i];
      }
    }
  }

  /**
   * The scan over the directory: writes at `start` the entries of the nodes
   * sent at once and returns the cursor after them, together with the
   * `newestSoloNodes` map it collected.
   */
  method ScanNodes(buf: array<byte>, start: nat, nodes: seq<NodeRecord>, r: Requester)
    returns (end: nat, newest: map<byte, nat>)
    requires start + ENTRY_WIDTH * |ImmediateEntries(nodes, r, |nodes|)| <= buf.Length
    modifies buf
    ensures newest == KeptSolo(nodes, r)
    ensures end == start + ENTRY_WIDTH * |ImmediateEntries(nodes, r, |nodes|)|
    ensures buf[start..end] == Entries(ImmediateEntries(nodes, r, |nodes|))
    ensures buf[..start] == old(buf[..start])
  {
    end := start;
    newest := map[];
    var i := 0;
    while i < |nodes|
      invariant 0 <= i <= |nodes|
      invariant newest == NewestSolo(nodes, r, i)
      invariant end == start + ENTRY_WIDTH * |ImmediateEntries(nodes, r, i)|
      invariant end <= start + ENTRY_WIDTH * |ImmediateEntries(nodes, r, |nodes|)|
      invariant buf[start..end] == Entries(ImmediateEntries(nodes, r, i))
      invariant buf[..start] == old(buf[..start])
    {
      end, newest := ScanNode(buf, start, end, nodes, r, newest, i);
      i := i + 1;
    }
  }

  /** A walk stopped at a lower key has emitted a prefix of what a longer walk emits. */
  lemma {:induction false} SoloEntriesGrow(nodes: seq<NodeRecord>, m: map<byte, nat>, k: int, j: int)
    requires -0x80 <= k <= j <= 0x80
    requires forall t :: t in m ==> m[t] < |nodes|
    ensures SoloEntries(nodes, m, k) <= SoloEntries(nodes, m, j)
    ensures |SoloEntries(nodes, m, k)| <= |SoloEntries(nodes, m, j)|
    decreases j - k
  {
    if k < j {
      SoloEntriesGrow(nodes, m, k, j - 1);
      var s := SoloEntries(nodes, m, j - 1);
      assert SoloEntries(nodes, m, j)[..|s|] == s;
    }
  }

  /** One step of the walk over the map, unfolded, with the bounds on what has been emitted. */
  lemma SoloWalkStep(nodes: seq<NodeRecord>, m: map<byte, nat>, k: int)
    requires -0x80 <= k < 0x80
    requires forall t :: t in m ==> m[t] < |nodes|
    ensures SoloEntries(nodes, m, k + 1) ==
              SoloEntries(nodes, m, k) + (if KeyByte(k) in m then [nodes[m[KeyByte(k)]]] else [])
    ensures |SoloEntries(nodes, m, k + 1)| <= |m.Keys|
    ensures |SoloEntries(nodes, m, k + 1)| <= |SoloEntries(nodes, m, 0x80)|
  {
    SoloEntriesCount(nodes, m, k + 1);
    SoloEntriesGrow(nodes, m, k + 1, 0x80);
  }

  /**
   * One step of the walk over `newestSoloNodes`, at signed key `k`: when a
   * node is kept for the type with that key, its entry is appended.
   */
  method WalkKey(buf: array<byte>, start: nat, pos: nat, ghost written: seq<NodeRecord>,
                 nodes: seq<NodeRecord>, newest: map<byte, nat>, k: int, end: nat)
    returns (next: nat)
    requires forall t :: t in newest ==> newest[t] < |nodes|
    requires -0x80 <= k < 0x80
    requires start <= pos && pos + ENTRY_WIDTH * |SoloEntries(nodes, newest, 0x80)| <= buf.Length
    requires end == pos + ENTRY_WIDTH * |SoloEntries(nodes, newest, k)| && end <= buf.Length
    requires buf[start..end] == Entries(written + SoloEntries(nodes, newest, k))
    modifies buf
    ensures next == pos + ENTRY_WIDTH * |SoloEntries(nodes, newest, k + 1)|
    ensures next <= pos + ENTRY_WIDTH * |SoloEntries(nodes, newest, 0x80)|
    ensures buf[start..next] == Entries(written + SoloEntries(nodes, newest, k + 1))
    ensures buf[..start] == old(buf[..start])
  {
    ghost var walked := SoloEntries(nodes, newest, k);
    SoloWalkStep(nodes, newest, k);
    next := end;
    var t := KeyByte(k);
    if t in newest {
      assert SoloEntries(nodes, newest, k + 1) == walked + [nodes[newest[t]]];
      next := AppendEntry(buf, start, end, written + walked, nodes[newest[t]]);
      assert written + walked + [nodes[newest[t]]] == written + (walked + [nodes[newest[t]]]);
    } else {
      assert SoloEntries(nodes, newest, k + 1) == walked;
    }
  }

  /**
   * The walk over `newestSoloNodes` in key order: after the `written`
   * entries at `buf[start..pos]`, writes the entry of each kept node.
   */
  method WriteSoloEntries(buf: array<byte>, start: nat, pos: nat, ghost written: seq<NodeRecord>,
                          nodes: seq<NodeRecord>, newest: map<byte, nat>)
    returns (end: nat)
    requires forall t :: t in newest ==> newest[t] < |nodes|
    requires start <= pos && pos + ENTRY_WIDTH * |SoloEntries(nodes, newest, 0x80)| <= buf.Length
    requires buf[start..pos] == Entries(written)
    modifies buf
    ensures end == pos + ENTRY_WIDTH * |SoloEntries(nodes, newest, 0x80)|
    ensures end <= pos + ENTRY_WIDTH * |newest.Keys|
    ensures buf[start..end] == Entries(written + SoloEntries(nodes, newest, 0x80))
    ensures buf[..start] == old(buf[..start])
  {
    end := pos;
    var k := -0x80;
    assert written + SoloEntries(nodes, newest, k) == written;
    while k < 0x80
      invariant -0x80 <= k <= 0x80
      invariant end == pos + ENTRY_WIDTH * |SoloEntries(nodes, newest, k)|
      invariant end <= pos + ENTRY_WIDTH * |SoloEntries(nodes, newest, 0x80)|
      invariant buf[start..end] == Entries(written + SoloEntries(nodes, newest, k))
      invariant buf[..start] == old(buf[..start])
    {
      end := WalkKey(buf, start, pos, written, nodes, newest, k, end);
      k := k + 1;
    }
    SoloEntriesCount(nodes, newest, 0x80);
  }

  /**
   * The entries of the reply (lines between the header and the requester's
   * identifier): nothing when no types of interest were sent, otherwise the
   * scan followed by the walk. The buffer must have room for those entries.
   */
  method BuildEntries(buf: array<byte>, start: nat, nodes: seq<NodeRecord>, r: Requester) returns (end: nat)
    requires start + ENTRY_WIDTH * |ReplyNodes(nodes, r)| <= buf.Length
    modifies buf
    ensures start <= end <= start + ENTRY_WIDTH * |nodes|
    ensures end == start + ENTRY_WIDTH * |ReplyNodes(nodes, r)|
    ensures buf[start..end] == Entries(ReplyNodes(nodes, r))
    ensures buf[..start] == old(buf[..start])
  {
    ReplyNodesBound(nodes, r);
    if |r.interest| == 0 {
      EmptyInterestNoEntries(nodes, r);
      return start;
    }
    var pos, newest := ScanNodes(buf, start, nodes, r);
    end := WriteSoloEntries(buf, start, pos, ImmediateEntries(nodes, r, |nodes|), nodes, newest);
  }
}
