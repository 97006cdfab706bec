/**
 * The older gateway of src/lora_init.cpp: a ten-slot table of one-byte peer addresses filled by
 * `addPeerGateway`, and the PAIRING branch of its `OnDataRecvGateway`, which answers a node's
 * request with the same frame carrying id 0. This file and src/lora_gateway.cpp both define
 * `OnDataRecvGateway`, so they are two alternative gateways, modelled separately.
 */
module LegacyGateway {
  import opened Text
  import opened Messages
  import PairingNode

  /** MAX_PEERS: the size of the `peers` table. */
  const MAX_PEERS: int := 10

  /** The table's contents and `peerCount`. */
  datatype PeerTable = PeerTable(peers: seq<Byte>, count: int)

  ghost predicate TableValid(t: PeerTable)
  {
    |t.peers| == MAX_PEERS && 0 <= t.count <= MAX_PEERS
  }

  /** The addresses registered so far, in registration order. */
  function Registered(t: PeerTable): seq<Byte>
    requires TableValid(t)
  {
    t.peers[..t.count]
  }

  /**
   * `addPeerGateway`: while there is room the address goes into the next slot, with no check for
   * one already there; a full table refuses it and is left as it was.
   */
  function AddPeer(t: PeerTable, addr: Byte): (r: (bool, PeerTable))
    requires TableValid(t)
    ensures TableValid(r.1)
    ensures r.0 <==> t.count < MAX_PEERS
    ensures r.0 ==> Registered(r.1) == Registered(t) + [addr]
    ensures !r.0 ==> r.1 == t
    ensures r.1.peers[r.1.count..] == t.peers[r.1.count..]
  {
    if t.count >= MAX_PEERS then (false, t)
    else
      var r := PeerTable(t.peers[t.count := addr], t.count + 1);
      assert Registered(r) == Registered(t) + [addr];
      (true, r)
  }

  /** Adding the same address twice occupies two slots. */
  lemma NoDuplicateCheck(t: PeerTable, addr: Byte)
    requires TableValid(t) && t.count + 2 <= MAX_PEERS
    ensures var r := AddPeer(AddPeer(t, addr).1, addr);
      r.0 && Registered(r.1) == Registered(t) + [addr, addr]
  {
  }

  /** The gateway's pairing globals and the frames it has transmitted. */
  datatype LegacyGatewayState = LegacyGatewayState(table: PeerTable, pairingData: PairingNode.LegacyPairing, outbox: seq<PairingNode.LegacyPairing>)

  /**
   * The PAIRING branch of `OnDataRecvGateway`: a request from a node (id above 0) is answered by
   * the same frame with its id overwritten by 0, and that 0 is what goes into the peer table.
   * Frames of other types, and pairing frames with id 0 or below, get no answer.
   */
  function OnFrame(g: LegacyGatewayState, f: PairingNode.LegacyPairing): (r: LegacyGatewayState)
    requires TableValid(g.table)
  {
    if f.msgType != Ordinal(PAIRING) then g
    else if f.id > 0 then
      var reply := f.(id := 0);
      g.(pairingData := reply, outbox := g.outbox + [reply], table := AddPeer(g.table, 0).1)
    else g.(pairingData := f)
  }

  /**
   * Each node request gets exactly one answer, which is the request with id 0 and every other
   * field unchanged, and the table records peer 0 if it has room; anything else is not answered
   * and registers nothing.
   */
  lemma AnswersNodeRequests(g: LegacyGatewayState, f: PairingNode.LegacyPairing)
    requires TableValid(g.table)
    ensures var r := OnFrame(g, f);
      TableValid(r.table) &&
      if f.msgType == Ordinal(PAIRING) && f.id > 0 then
        r.outbox == g.outbox + [PairingNode.LegacyPairing(f.msgType, 0, f.other)] &&
        Registered(r.table) == Registered(g.table) + (if g.table.count < MAX_PEERS then [0] else [])
      else
        r.outbox == g.outbox && r.table == g.table
  {
    var (_, t) := AddPeer(g.table, 0);
  }

  /** Since the id is cleared before it is stored, every peer this gateway ever registers is 0. */
  lemma {:induction false} OnlyZeroRegistered(g: LegacyGatewayState, frames: seq<PairingNode.LegacyPairing>)
    requires TableValid(g.table) && forall i :: 0 <= i < g.table.count ==> g.table.peers[i] == 0
    ensures var r := OnFrames(g, frames);
      TableValid(r.table) && forall i :: 0 <= i < r.table.count ==> r.table.peers[i] == 0
    decreases |frames|
  {
    if frames != [] {
      var g' := OnFrame(g, frames[0]);
      AnswersNodeRequests(g, frames[0]);
      assert forall i :: 0 <= i < g'.table.count ==> g'.table.peers[i] == Registered(g'.table)[i];
      assert forall i :: 0 <= i < g.table.count ==> g.table.peers[i] == Registered(g.table)[i];
      OnlyZeroRegistered(g', frames[1..]);
    }
  }

  function {:induction false} OnFrames(g: LegacyGatewayState, frames: seq<PairingNode.LegacyPairing>): (r: LegacyGatewayState)
    requires TableValid(g.table)
    ensures TableValid(r.table)
    decreases |frames|
  {
    if frames == [] then g else OnFrames(OnFrame(g, frames[0]), frames[1..])
  }

  /**
   * The handshake between a node and this gateway: the node's request, answered by the gateway,
   * pairs the node, and the node sends nothing more.
   */
  lemma HandshakePairsNode(n: PairingNode.NodeState, g: LegacyGatewayState, now: int, later: seq<PairingNode.Event>)
    requires n.status == PAIR_REQUEST && TableValid(g.table)
    ensures var n1 := PairingNode.AutoPairing(n, now);
      |n1.outbox| == |n.outbox| + 1 &&
      var g1 := OnFrame(g, n1.outbox[|n.outbox|]);
      |g1.outbox| == |g.outbox| + 1 &&
      var n2 := PairingNode.OnFrame(n1, g1.outbox[|g.outbox|]);
      n2.status == PAIR_PAIRED && PairingNode.Run(n2, later).outbox == n1.outbox
  {
    PairingNode.RequestSendsOneFrame(n, now);
    var n1 := PairingNode.AutoPairing(n, now);
    var g1 := OnFrame(g, n1.outbox[|n.outbox|]);
    var n2 := PairingNode.OnFrame(n1, g1.outbox[|g.outbox|]);
    PairingNode.PairedStaysPaired(n2, later);
  }

  /** The gateway's globals, updated in place. */
  class Gateway {
    const peers: array<Byte>
    var peerCount: int
    var pairingData: PairingNode.LegacyPairing        // pairingDataGateway
    var outbox: seq<PairingNode.LegacyPairing>

    ghost predicate Valid()
      reads this
    {
      peers.Length == MAX_PEERS && 0 <= peerCount <= MAX_PEERS
    }

    function Table(): PeerTable
      reads this, peers
    {
      PeerTable(peers[..], peerCount)
    }

    function State(): LegacyGatewayState
      reads this, peers
    {
      LegacyGatewayState(Table(), pairingData, outbox)
    }

    constructor (structTail: nat)
      ensures Valid() && fresh(peers)
      ensures State() == LegacyGatewayState(PeerTable(seq(MAX_PEERS, _ => 0), 0), PairingNode.LegacyPairing(0, 0, seq(structTail, _ => 0)), [])
    {
      peers := new Byte[MAX_PEERS](_ => 0);
      peerCount := 0;
      pairingData := PairingNode.LegacyPairing(0, 0, seq(structTail, _ => 0));
      outbox := [];
    }

    method AddPeerGateway(addr: Byte) returns (ok: bool)
      requires Valid()
      modifies this`peerCount, peers
      ensures Valid()
      ensures (ok, Table()) == AddPeer(old(Table()), addr)
    {
      if peerCount >= MAX_PEERS {
        return false;
      }
      peers[peerCount] := addr;
      peerCount := peerCount + 1;
      return true;
    }

    method OnDataRecvGateway(f: PairingNode.LegacyPairing)
      requires Valid()
      modifies this, peers
      ensures Valid()
      ensures State() == OnFrame(old(State()), f)
    {
      if f.msgType == Ordinal(PAIRING) {
        pairingData := f;
        if pairingData.id > 0 {
          if pairingData.msgType == Ordinal(PAIRING) {
            pairingData := pairingData.(id := 0);
            outbox := outbox + [pairingData];
            var _ := AddPeerGateway(pairingData.id);
          }
        }
      }
    }
  }
}
