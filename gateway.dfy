/**
 * The gateway of src/lora_gateway.cpp: `OnDataRecvGateway` dispatches on byte 0 of a received
 * frame. A PAIRING frame carrying the network's key is echoed back unchanged and its sender is
 * registered; a FILE_META frame is only copied into `file_meta_gateway`.
 *
 * The peer registry behind `addPeerGateway(mac, name)` lives in lora_peer.h, which is not part of
 * this model: its calls are recorded in order. PAIRING_KEY is a constructor parameter.
 */
module Gateway {
  import opened Text
  import opened Messages

  /** The gateway's globals, the frames it has transmitted and the registry calls it has made. */
  datatype GatewayState = GatewayState(
    pairingData: seq<Byte>,                    // pairingDataGateway
    fileMeta: seq<Byte>,                       // file_meta_gateway
    outbox: seq<seq<Byte>>,
    registered: seq<(seq<Byte>, string)>)

  /**
   * What the handler demands of its buffer: a tag, and the whole struct that `memcpy` copies
   * for the tags it copies.
   */
  predicate Complete(frame: seq<Byte>)
  {
    |frame| >= 1 &&
    (frame[0] == Ordinal(PAIRING) ==> |frame| >= Size(PAIRING)) &&
    (frame[0] == Ordinal(FILE_META) ==> |frame| >= Size(FILE_META))
  }

  /** `pairingKey` of a copied `struct_pairing`. */
  function KeyOf(p: seq<Byte>): int
    requires |p| == Size(PAIRING)
  {
    DecodeU32(p[1 + 2 * MAC_ADDR_LENGTH..1 + 2 * MAC_ADDR_LENGTH + 4])
  }

  /** An answer and its registration: a pairing struct with the network key, and its origin address. */
  predicate Echo(p: seq<Byte>, reg: (seq<Byte>, string), pairingKey: int)
  {
    |p| == Size(PAIRING) && p[0] == Ordinal(PAIRING) && KeyOf(p) == pairingKey &&
    reg.0 == p[1..1 + MAC_ADDR_LENGTH]
  }

  /** `OnDataRecvGateway`, with the network key `pairingKey`: at most one answer, and one registration with it. */
  function OnFrame(g: GatewayState, frame: seq<Byte>, pairingKey: int): (r: GatewayState)
    requires Complete(frame)
    ensures (r.outbox == g.outbox && r.registered == g.registered) ||
      (|r.outbox| == |g.outbox| + 1 && |r.registered| == |g.registered| + 1 &&
       r.outbox[..|g.outbox|] == g.outbox && r.registered[..|g.registered|] == g.registered &&
       Echo(r.outbox[|g.outbox|], r.registered[|g.registered|], pairingKey))
  {
    if frame[0] == Ordinal(PAIRING) then
      var p := frame[..Size(PAIRING)];
      if p[0] == Ordinal(PAIRING) && KeyOf(p) == pairingKey then
        g.(pairingData := p, outbox := g.outbox + [p],
           registered := g.registered + [(p[1..1 + MAC_ADDR_LENGTH], Chars(p[1 + 2 * MAC_ADDR_LENGTH + 4..]))])
      else g.(pairingData := p)
    else if frame[0] == Ordinal(FILE_META) then g.(fileMeta := frame[..Size(FILE_META)])
    else g
  }

  /**
   * A pairing request with the right key is echoed as the very struct received and registers
   * its origin address with its device name; with another key nothing is sent or registered.
   */
  lemma PairingKeyDecides(g: GatewayState, frame: seq<Byte>, pairingKey: int)
    requires Decode(frame).Some? && Decode(frame).value.Pairing?
    ensures Complete(frame)
    ensures var m := Decode(frame).value;
      var r := OnFrame(g, frame, pairingKey);
      (m.pairingKey == pairingKey ==>
        r.outbox == g.outbox + [Encode(m)] && r.registered == g.registered + [(m.macOrigin, m.deviceName)]) &&
      (m.pairingKey != pairingKey ==> r.outbox == g.outbox && r.registered == g.registered)
  {
    EncodeDecode(frame);
    var p := frame[..Size(PAIRING)];
    assert p[1..1 + MAC_ADDR_LENGTH] == frame[1..7];
    assert p[1 + 2 * MAC_ADDR_LENGTH..1 + 2 * MAC_ADDR_LENGTH + 4] == frame[13..17];
    assert p[1 + 2 * MAC_ADDR_LENGTH + 4..] == frame[17..27];
  }

  /**
   * Frames of other types transmit nothing and register nothing; a FILE_META is kept as the same
   * message and reaches no file-transfer handler.
   */
  lemma OtherFramesSilent(g: GatewayState, frame: seq<Byte>, pairingKey: int)
    requires Complete(frame) && frame[0] != Ordinal(PAIRING)
    ensures var r := OnFrame(g, frame, pairingKey);
      r.outbox == g.outbox && r.registered == g.registered && r.pairingData == g.pairingData &&
      (frame[0] == Ordinal(FILE_META) ==> Decode(r.fileMeta) == Decode(frame)) &&
      (frame[0] != Ordinal(FILE_META) ==> r == g)
  {
    if frame[0] == Ordinal(FILE_META) {
      var f := frame[..Size(FILE_META)];
      assert f[1..7] == frame[1..7] && f[7..47] == frame[7..47] && f[47..51] == frame[47..51];
    }
  }

  function {:induction false} OnFrames(g: GatewayState, frames: seq<seq<Byte>>, pairingKey: int): GatewayState
    requires forall i :: 0 <= i < |frames| ==> Complete(frames[i])
    decreases |frames|
  {
    if frames == [] then g else OnFrames(OnFrame(g, frames[0], pairingKey), frames[1..], pairingKey)
  }

  /**
   * Every answer goes with exactly one registration: over any sequence of frames, the number of
   * frames the gateway transmits equals the number of peers it registers, each echo is a pairing
   * frame with the network key, and each registration names that echo's origin address.
   */
  lemma {:induction false} OneRegistrationPerEcho(g: GatewayState, frames: seq<seq<Byte>>, pairingKey: int)
    requires forall i :: 0 <= i < |frames| ==> Complete(frames[i])
    requires |g.outbox| == |g.registered|
    ensures var r := OnFrames(g, frames, pairingKey);
      |r.outbox| == |r.registered| && |g.outbox| <= |r.outbox| && r.outbox[..|g.outbox|] == g.outbox &&
      r.registered[..|g.registered|] == g.registered &&
      forall i :: |g.outbox| <= i < |r.outbox| ==> Echo(r.outbox[i], r.registered[i], pairingKey)
    decreases |frames|
  {
    if frames != [] {
      var g' := OnFrame(g, frames[0], pairingKey);
      assert forall i :: 0 <= i < |frames[1..]| ==> frames[1..][i] == frames[i + 1];
      OneRegistrationPerEcho(g', frames[1..], pairingKey);
      var r := OnFrames(g', frames[1..], pairingKey);
      assert r.outbox[..|g.outbox|] == r.outbox[..|g'.outbox|][..|g.outbox|];
      assert r.registered[..|g.registered|] == r.registered[..|g'.registered|][..|g.registered|];
      forall i | |g.outbox| <= i < |r.outbox|
        ensures Echo(r.outbox[i], r.registered[i], pairingKey)
      {
        if i < |g'.outbox| {
          assert r.outbox[i] == g'.outbox[i];
          assert i == |g.outbox| && |g'.outbox| == |g.outbox| + 1;
          assert r.registered[i] == r.registered[..|g'.registered|][i] == g'.registered[i];
        }
      }
    }
  }

  /** The gateway's globals, updated in place by the receive task. */
  class GatewayNode {
    const pairingKey: int                      // PAIRING_KEY
    var pairingData: seq<Byte>
    var fileMeta: seq<Byte>
    var outbox: seq<seq<Byte>>
    var registered: seq<(seq<Byte>, string)>

    function State(): GatewayState
      reads this
    {
      GatewayState(pairingData, fileMeta, outbox, registered)
    }

    /** The zeroed globals of a gateway for the network whose key is `pairingKey`. */
    constructor (pairingKey: int)
      ensures this.pairingKey == pairingKey
      ensures State() == GatewayState(seq(Size(PAIRING), _ => 0), seq(Size(FILE_META), _ => 0), [], [])
    {
      this.pairingKey := pairingKey;
      pairingData := seq(Size(PAIRING), _ => 0);
      fileMeta := seq(Size(FILE_META), _ => 0);
      outbox := [];
      registered := [];
    }

    method OnDataRecvGateway(frame: seq<Byte>)
      requires Complete(frame)
      modifies this
      ensures State() == OnFrame(old(State()), frame, pairingKey)
    {
      var tag := frame[0];
      if tag == Ordinal(PAIRING) {
        pairingData := frame[..Size(PAIRING)];
        if pairingData[0] == Ordinal(PAIRING) {
          if KeyOf(pairingData) == pairingKey {
            outbox := outbox + [pairingData];
            registered := registered + [(pairingData[1..1 + MAC_ADDR_LENGTH], Chars(pairingData[1 + 2 * MAC_ADDR_LENGTH + 4..]))];
          }
        }
      } else if tag == Ordinal(FILE_META) {
        fileMeta := frame[..Size(FILE_META)];
      }
    }
  }
}
