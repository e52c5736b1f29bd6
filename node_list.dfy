/**
 * The node directory the domain server keeps: a sequence of node records
 * and the counter from which new node identifiers are taken.
 *
 * `NodeList` itself (NodeList.h/.cpp) is not part of this model; its
 * add-or-update is specified by the identity triple that `Node::matches`
 * compares, as the server's use of it requires.
 */
module Nodes {
  import opened Codec

  /** One registered node. `wake` and `lastHeard` are microsecond stamps. */
  datatype NodeRecord = NodeRecord(
    kind: byte,
    id: nat,
    publicSocket: SockAddr,
    localSocket: SockAddr,
    wake: nat,
    lastHeard: nat)

  /** `Node::matches`: same public socket, same local socket, same type. */
  predicate Matches(n: NodeRecord, publicSocket: SockAddr, localSocket: SockAddr, kind: byte)
  {
    n.publicSocket == publicSocket && n.localSocket == localSocket && n.kind == kind
  }

  predicate SameIdentity(a: NodeRecord, b: NodeRecord)
  {
    Matches(a, b.publicSocket, b.localSocket, b.kind)
  }

  /**
   * The directory invariant: no two records share an identity triple, no two
   * share an identifier, and every identifier was issued before the counter.
   */
  predicate WellFormed(nodes: seq<NodeRecord>, lastNodeId: nat)
  {
    (forall i, j :: 0 <= i < j < |nodes| ==> !SameIdentity(nodes[i], nodes[j])) &&
    (forall i, j :: 0 <= i < j < |nodes| ==> nodes[i].id != nodes[j].id) &&
    (forall i :: 0 <= i < |nodes| ==> nodes[i].id < lastNodeId)
  }

  /** The first record with the given identity triple, if any. */
  function FindNode(nodes: seq<NodeRecord>, publicSocket: SockAddr, localSocket: SockAddr, kind: byte): (r: Option<nat>)
    ensures r.Some? ==> r.value < |nodes| && Matches(nodes[r.value], publicSocket, localSocket, kind)
    ensures r.Some? ==> forall j :: 0 <= j < r.value ==> !Matches(nodes[j], publicSocket, localSocket, kind)
    ensures r.None? <==> forall j :: 0 <= j < |nodes| ==> !Matches(nodes[j], publicSocket, localSocket, kind)
  {
    if |nodes| == 0 then None
    else
      var rest := FindNode(nodes[..|nodes| - 1], publicSocket, localSocket, kind);
      if rest.Some? then rest
      else if Matches(nodes[|nodes| - 1], publicSocket, localSocket, kind) then Some(|nodes| - 1)
      else None
  }

  /**
   * `addOrUpdateNode`: the record with the identity triple if there is one
   * (the directory is unchanged), otherwise a new record carrying
   * `candidateId`, stamped `now`, appended at the end. The result is the new
   * directory and the index of the returned record.
   */
  function AddOrUpdate(nodes: seq<NodeRecord>, publicSocket: SockAddr, localSocket: SockAddr, kind: byte,
                       candidateId: nat, now: nat): (r: (seq<NodeRecord>, nat))
    ensures r.1 < |r.0| && Matches(r.0[r.1], publicSocket, localSocket, kind)
    ensures |r.0| == |nodes| || |r.0| == |nodes| + 1
    ensures r.0[..|nodes|] == nodes
    ensures |r.0| == |nodes| + 1 <==> forall j :: 0 <= j < |nodes| ==> !Matches(nodes[j], publicSocket, localSocket, kind)
    ensures |r.0| == |nodes| + 1 ==> r.1 == |nodes| && r.0[r.1].id == candidateId
  {
    match FindNode(nodes, publicSocket, localSocket, kind)
    case Some(i) => (nodes, i)
    case None => (nodes + [NodeRecord(kind, candidateId, publicSocket, localSocket, now, now)], |nodes|)
  }

  /**
   * Registration is idempotent: announcing the same triple again returns the
   * same record with the same identifier and adds nothing.
   */
  lemma AddOrUpdateIdempotent(nodes: seq<NodeRecord>, publicSocket: SockAddr, localSocket: SockAddr, kind: byte,
                              id1: nat, id2: nat, now1: nat, now2: nat)
    ensures var (n1, i1) := AddOrUpdate(nodes, publicSocket, localSocket, kind, id1, now1);
            var (n2, i2) := AddOrUpdate(n1, publicSocket, localSocket, kind, id2, now2);
            n2 == n1 && i2 == i1 && n2[i2].id == n1[i1].id
  {
    var (n1, i1) := AddOrUpdate(nodes, publicSocket, localSocket, kind, id1, now1);
    var f := FindNode(n1, publicSocket, localSocket, kind);
    assert f.Some?;
    if |n1| == |nodes| {
      assert FindNode(nodes, publicSocket, localSocket, kind) == Some(i1);
    }
  }

  /**
   * When the candidate is the counter (as the server passes it), the returned
   * record carries the candidate exactly when it was created; advancing the
   * counter in that case keeps the directory well formed.
   */
  lemma AddOrUpdateWithCounter(nodes: seq<NodeRecord>, publicSocket: SockAddr, localSocket: SockAddr, kind: byte,
                               lastNodeId: nat, now: nat)
    requires WellFormed(nodes, lastNodeId)
    ensures var (n1, i) := AddOrUpdate(nodes, publicSocket, localSocket, kind, lastNodeId, now);
            (n1[i].id == lastNodeId <==> |n1| == |nodes| + 1) &&
            WellFormed(n1, if n1[i].id == lastNodeId then lastNodeId + 1 else lastNodeId)
  {
    var (n1, i) := AddOrUpdate(nodes, publicSocket, localSocket, kind, lastNodeId, now);
    if |n1| == |nodes| {
      assert n1 == nodes;
      assert n1[i].id < lastNodeId;
    } else {
      assert n1 == nodes + [n1[i]];
      forall a, b | 0 <= a < b < |n1|
        ensures !SameIdentity(n1[a], n1[b]) && n1[a].id != n1[b].id
      {
        if b == |nodes| {
          assert !Matches(nodes[a], publicSocket, localSocket, kind);
          assert nodes[a].id < lastNodeId;
        }
      }
    }
  }

  predicate HasNodeOfType(nodes: seq<NodeRecord>, kind: byte)
  {
    exists j :: 0 <= j < |nodes| && nodes[j].kind == kind
  }

  /** Sets the last-heard stamp of record `i`, and its wake stamp when `wake` holds. */
  function Stamp(nodes: seq<NodeRecord>, i: nat, now: nat, wake: bool): (r: seq<NodeRecord>)
    requires i < |nodes|
    ensures |r| == |nodes|
    ensures forall j :: 0 <= j < |nodes| && j != i ==> r[j] == nodes[j]
    ensures r[i].lastHeard == now && r[i].wake == (if wake then now else nodes[i].wake)
    ensures SameIdentity(r[i], nodes[i]) && r[i].id == nodes[i].id
  {
    nodes[i := nodes[i].(lastHeard := now, wake := if wake then now else nodes[i].wake)]
  }

  /** Stamping touches only the stamps of one record, so the invariant survives. */
  lemma StampKeepsWellFormed(nodes: seq<NodeRecord>, lastNodeId: nat, i: nat, now: nat, wake: bool)
    requires i < |nodes| && WellFormed(nodes, lastNodeId)
    ensures WellFormed(Stamp(nodes, i, now, wake), lastNodeId)
  {
    var s := Stamp(nodes, i, now, wake);
    assert forall j :: 0 <= j < |s| ==> SameIdentity(s[j], nodes[j]) && s[j].id == nodes[j].id;
  }

  /** The live directory, updated in place by the server loop. */
  class NodeList {
    var nodes: seq<NodeRecord>
    var lastNodeId: nat

    ghost predicate Valid()
      reads this
    {
      WellFormed(nodes, lastNodeId)
    }

    constructor ()
      ensures Valid() && nodes == [] && lastNodeId == 0
    {
      nodes := [];
      lastNodeId := 0;
    }

    /** `addOrUpdateNode`: returns the index of the matching or newly appended record. */
    method AddOrUpdateNode(publicSocket: SockAddr, localSocket: SockAddr, kind: byte, candidateId: nat, now: nat)
      returns (index: nat)
      modifies this`nodes
      ensures (nodes, index) == AddOrUpdate(old(nodes), publicSocket, localSocket, kind, candidateId, now)
    {
      var i := 0;
      while i < |nodes|
        invariant 0 <= i <= |nodes|
        invariant forall j :: 0 <= j < i ==> !Matches(nodes[j], publicSocket, localSocket, kind)
      {
        if Matches(nodes[i], publicSocket, localSocket, kind) {
          assert FindNode(nodes, publicSocket, localSocket, kind) == Some(i);
          return i;
        }
        i := i + 1;
      }
      index := |nodes|;
      nodes := nodes + [NodeRecord(kind, candidateId, publicSocket, localSocket, now, now)];
    }

    /** `increaseNodeID`. */
    method IncreaseNodeId()
      modifies this`lastNodeId
      ensures lastNodeId == old(lastNodeId) + 1
    {
      lastNodeId := lastNodeId + 1;
    }

    /** `setLastHeardMicrostamp` on record `i`. */
    method SetLastHeard(i: nat, now: nat)
      requires i < |nodes|
      modifies this`nodes
      ensures nodes == old(nodes)[i := old(nodes)[i].(lastHeard := now)]
    {
      nodes := nodes[i := nodes[i].(lastHeard := now)];
    }

    /** `setWakeMicrostamp` on record `i`. */
    method SetWake(i: nat, now: nat)
      requires i < |nodes|
      modifies this`nodes
      ensures nodes == old(nodes)[i := old(nodes)[i].(wake := now)]
    {
      nodes := nodes[i := nodes[i].(wake := now)];
    }

    /** `soloNodeOfType`: the first record of type `kind`, if there is one. */
    method SoloNodeOfType(kind: byte) returns (found: Option<nat>)
      ensures found.Some? ==> found.value < |nodes| && nodes[found.value].kind == kind
      ensures found.None? <==> !HasNodeOfType(nodes, kind)
    {
      var i := 0;
      while i < |nodes|
        invariant 0 <= i <= |nodes|
        invariant forall j :: 0 <= j < i ==> nodes[j].kind != kind
      {
        if nodes[i].kind == kind {
          return Some(i);
        }
        i := i + 1;
      }
      return None;
    }
  }
}
