/**
 * The node side of pairing in src/lora_init.cpp: `lora_slave_init`, the `autoPairing` state
 * machine stepped by the pairing task, and the PAIRING branch of `OnDataRecvNode`.
 *
 * This older code uses a `struct_pairing` with an `id` field (0 for the gateway, BOARD_ID for a
 * node) that the shown header does not declare; the frame is modelled by its tag, its `id`, and
 * its other bytes kept as they are. `millis()` is a parameter.
 */
module PairingNode {
  import opened Text
  import opened Messages

  /** BOARD_ID: the id a node puts in its pairing requests. */
  const BOARD_ID: int := 1

  /** How long a node waits for the gateway's answer before asking again, in milliseconds. */
  const PAIR_RETRY_MS: int := 5000

  /** The legacy pairing struct: the tag in byte 0, the sender's id, and the remaining fields. */
  datatype LegacyPairing = LegacyPairing(msgType: Byte, id: int, other: seq<Byte>)

  /** The node's pairing globals and the frames it has transmitted. */
  datatype NodeState = NodeState(
    status: PairingStatus,               // pairingStatus
    previousMillis: int,                 // previousMillis
    currentMillis: int,                  // currentMillis
    pairingData: LegacyPairing,          // pairingDataNode
    outbox: seq<LegacyPairing>)

  /** `unsigned long` subtraction on the ESP32: the elapsed time across a `millis()` wrap-around. */
  function Elapsed(now: int, since: int): (r: int)
    ensures 0 <= r < TWO_32
    ensures 0 <= since <= now < TWO_32 ==> r == now - since
  {
    ToU32(now - since)
  }

  /** One `autoPairing()` call at time `now`; the status it returns is the new one. */
  function AutoPairing(n: NodeState, now: int): (r: NodeState)
    ensures n.status == PAIR_PAIRED || n.status == NOT_PAIRED ==> r == n
  {
    match n.status
    case PAIR_REQUEST =>
      var req := n.pairingData.(msgType := Ordinal(PAIRING), id := BOARD_ID);
      n.(pairingData := req, outbox := n.outbox + [req], previousMillis := now, status := PAIR_REQUESTED)
    case PAIR_REQUESTED =>
      if Elapsed(now, n.previousMillis) > PAIR_RETRY_MS then
        n.(currentMillis := now, previousMillis := now, status := PAIR_REQUEST)
      else n.(currentMillis := now)
    case _ => n
  }

  /** The PAIRING branch of `OnDataRecvNode`; frames of other types are left to other handlers. */
  function OnFrame(n: NodeState, f: LegacyPairing): (r: NodeState)
    ensures r.outbox == n.outbox && r.previousMillis == n.previousMillis
  {
    if f.msgType != Ordinal(PAIRING) then n
    else if f.id == 0 then n.(pairingData := f, status := PAIR_PAIRED)
    else n.(pairingData := f)
  }

  /** A request step sends one pairing frame carrying BOARD_ID, starts the wait at `now`, and moves to PAIR_REQUESTED. */
  lemma RequestSendsOneFrame(n: NodeState, now: int)
    requires n.status == PAIR_REQUEST
    ensures var r := AutoPairing(n, now);
      r.status == PAIR_REQUESTED && r.previousMillis == now &&
      |r.outbox| == |n.outbox| + 1 && r.outbox[..|n.outbox|] == n.outbox &&
      r.outbox[|n.outbox|].msgType == Ordinal(PAIRING) && r.outbox[|n.outbox|].id == BOARD_ID &&
      r.outbox[|n.outbox|].other == n.pairingData.other
  {
    assert AutoPairing(n, now).outbox[..|n.outbox|] == n.outbox;
  }

  /** While waiting, the node asks again exactly when strictly more than 5000 ms have passed, and sends nothing meanwhile. */
  lemma RetryOnlyAfterTimeout(n: NodeState, now: int)
    requires n.status == PAIR_REQUESTED
    ensures var r := AutoPairing(n, now);
      r.outbox == n.outbox &&
      (r.status == PAIR_REQUEST <==> Elapsed(now, n.previousMillis) > PAIR_RETRY_MS) &&
      (r.status != PAIR_REQUEST ==> r.status == PAIR_REQUESTED && r.previousMillis == n.previousMillis)
  {
  }

  /** The node counts as paired exactly when it was, or when the gateway's own pairing frame (id 0) arrives. */
  lemma PairedIffServerFrame(n: NodeState, f: LegacyPairing)
    ensures var r := OnFrame(n, f);
      (r.status == PAIR_PAIRED <==> n.status == PAIR_PAIRED || (f.msgType == Ordinal(PAIRING) && f.id == 0)) &&
      (r.status != PAIR_PAIRED ==> r.status == n.status)
  {
  }

  /** What happens to a node: a pairing-task step at some time, or a received frame. */
  datatype Event = Tick(now: int) | Received(frame: LegacyPairing)

  function {:induction false} Run(n: NodeState, events: seq<Event>): NodeState
    decreases |events|
  {
    if events == [] then n
    else
      var n' := match events[0]
        case Tick(now) => AutoPairing(n, now)
        case Received(f) => OnFrame(n, f);
      Run(n', events[1..])
  }

  /** PAIR_PAIRED is absorbing: once paired, the node stays paired and transmits no more pairing frames. */
  lemma {:induction false} PairedStaysPaired(n: NodeState, events: seq<Event>)
    requires n.status == PAIR_PAIRED
    ensures Run(n, events).status == PAIR_PAIRED && Run(n, events).outbox == n.outbox
    decreases |events|
  {
    if events != [] {
      var n' := match events[0]
        case Tick(now) => AutoPairing(n, now)
        case Received(f) => OnFrame(n, f);
      PairedStaysPaired(n', events[1..]);
    }
  }

  /** A node becomes paired only through a pairing frame from the gateway, with id 0. */
  lemma {:induction false} PairedOnlyByServer(n: NodeState, events: seq<Event>)
    requires n.status != PAIR_PAIRED
    requires forall i :: 0 <= i < |events| ==> events[i].Received? ==>
      !(events[i].frame.msgType == Ordinal(PAIRING) && events[i].frame.id == 0)
    ensures Run(n, events).status != PAIR_PAIRED
    decreases |events|
  {
    if events != [] {
      var n' := match events[0]
        case Tick(now) => AutoPairing(n, now)
        case Received(f) => OnFrame(n, f);
      assert forall i :: 0 <= i < |events[1..]| ==> events[1..][i] == events[i + 1];
      PairedOnlyByServer(n', events[1..]);
    }
  }

  /** The node's pairing globals, updated in place by its tasks. */
  class Node {
    var status: PairingStatus
    var previousMillis: int
    var currentMillis: int
    var nodeStart: int                   // NodeStart
    var pairingData: LegacyPairing
    var outbox: seq<LegacyPairing>

    function State(): NodeState
      reads this
    {
      NodeState(status, previousMillis, currentMillis, pairingData, outbox)
    }

    /** The static initial values: NOT_PAIRED, `previousMillis` 0, `currentMillis` read at start-up, a zeroed struct. */
    constructor (bootMillis: int, structTail: nat)
      ensures State() == NodeState(NOT_PAIRED, 0, bootMillis, LegacyPairing(0, 0, seq(structTail, _ => 0)), [])
    {
      status := NOT_PAIRED;
      previousMillis := 0;
      currentMillis := bootMillis;
      nodeStart := 0;
      pairingData := LegacyPairing(0, 0, seq(structTail, _ => 0));
      outbox := [];
    }

    /** `lora_slave_init`: the node starts asking to pair. */
    method SlaveInit(now: int)
      modifies this
      ensures status == PAIR_REQUEST && nodeStart == now
      ensures State() == old(State()).(status := PAIR_REQUEST)
    {
      nodeStart := now;
      status := PAIR_REQUEST;
    }

    method AutoPairingStep(now: int) returns (st: PairingStatus)
      modifies this
      ensures State() == AutoPairing(old(State()), now) && st == status
      ensures nodeStart == old(nodeStart)
    {
      match status {
        case PAIR_REQUEST =>
          pairingData := pairingData.(msgType := Ordinal(PAIRING), id := BOARD_ID);
          outbox := outbox + [pairingData];
          previousMillis := now;
          status := PAIR_REQUESTED;
        case PAIR_REQUESTED =>
          currentMillis := now;
          if Elapsed(currentMillis, previousMillis) > PAIR_RETRY_MS {
            previousMillis := currentMillis;
            status := PAIR_REQUEST;
          }
        case PAIR_PAIRED =>
        case NOT_PAIRED =>
      }
      return status;
    }

    method OnDataRecvNode(f: LegacyPairing)
      modifies this
      ensures State() == OnFrame(old(State()), f) && nodeStart == old(nodeStart)
    {
      if f.msgType == Ordinal(PAIRING) {
        pairingData := f;
        if pairingData.id == 0 {
          status := PAIR_PAIRED;
        }
      }
    }
  }
}
