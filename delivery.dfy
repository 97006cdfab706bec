/**
 * The acknowledgment/retry primitive of src/lora_file_transfer.cpp as a function of the
 * link state: the frames sent so far, the counters `ack_count` / `rej_count` that the
 * receive context bumps, and the replies the peer will give.
 *
 * The receive context is modelled by `Transmit`: each transmission consumes the peer's
 * reply to it, and an ACK or REJ reply that arrives within ACK_TIMEOUT increments its
 * counter before `waitForAck` looks. A `Silence` reply is a frame or answer lost on the air.
 */
module Delivery {
  import opened Text
  import opened Messages

  /** The peer's answer to one transmission, as seen within ACK_TIMEOUT. */
  datatype Reply = AckReply | RejReply | Silence

  datatype LinkState = LinkState(sent: seq<Message>, ackCount: int, rejCount: int, replies: seq<Reply>)

  /** The result of a retry loop: success, how many frames it transmitted, and the link afterwards. */
  datatype Exchanged = Exchanged(ok: bool, transmissions: nat, link: LinkState)

  predicate Clean(l: LinkState) { l.ackCount == 0 && l.rejCount == 0 }

  /** `sendLoraMessage` of one frame, followed by the receive context handling the peer's reply. */
  function Transmit(l: LinkState, m: Message): LinkState
  {
    if l.replies == [] then l.(sent := l.sent + [m])
    else match l.replies[0]
      case AckReply => LinkState(l.sent + [m], l.ackCount + 1, l.rejCount, l.replies[1..])
      case RejReply => LinkState(l.sent + [m], l.ackCount, l.rejCount + 1, l.replies[1..])
      case Silence => l.(sent := l.sent + [m], replies := l.replies[1..])
  }

  /** `waitForAck`: ACK takes priority over REJ; each consumes one unit of its counter. */
  function Poll(l: LinkState): (MessageType, LinkState)
  {
    if l.ackCount != 0 then (ACK, l.(ackCount := l.ackCount - 1))
    else if l.rejCount != 0 then (REJ, l.(rejCount := l.rejCount - 1))
    else (TIMEOUT, l)
  }

  /** The `while (attempts < MAX_ATTEMPS)` loop with `attemptsLeft` attempts still allowed. */
  function Exchange(l: LinkState, m: Message, attemptsLeft: nat): Exchanged
    decreases attemptsLeft
  {
    if attemptsLeft == 0 then Exchanged(false, 0, l)
    else
      var (res, l') := Poll(Transmit(l, m));
      if res == ACK then Exchanged(true, 1, l')
      else if res == REJ then Exchanged(false, 1, l')
      else
        var e := Exchange(l', m, attemptsLeft - 1);
        e.(transmissions := e.transmissions + 1)
  }

  /** `k` copies of one frame. */
  function Repeat(m: Message, k: nat): (r: seq<Message>)
    ensures |r| == k && forall i :: 0 <= i < k ==> r[i] == m
  {
    seq(k, _ => m)
  }

  /**
   * Whatever the counters hold, a step transmits only its own frame, at most `attemptsLeft`
   * times and at least once when it may try at all, and consumes one reply per transmission.
   */
  lemma {:induction false} ExchangeBounded(l: LinkState, m: Message, attemptsLeft: nat)
    ensures var e := Exchange(l, m, attemptsLeft);
      e.transmissions <= attemptsLeft &&
      (attemptsLeft > 0 ==> e.transmissions >= 1) &&
      e.link.sent == l.sent + Repeat(m, e.transmissions) &&
      (e.transmissions <= |l.replies| ==> e.link.replies == l.replies[e.transmissions..])
    decreases attemptsLeft
  {
    if attemptsLeft > 0 {
      var (res, l') := Poll(Transmit(l, m));
      if res != ACK && res != REJ {
        ExchangeBounded(l', m, attemptsLeft - 1);
        var e := Exchange(l', m, attemptsLeft - 1);
        assert l.sent + Repeat(m, e.transmissions + 1) == (l.sent + [m]) + Repeat(m, e.transmissions);
        if e.transmissions + 1 <= |l.replies| {
          assert l'.replies == l.replies[1..];
          assert l.replies[1..][e.transmissions..] == l.replies[e.transmissions + 1..];
        }
      }
    }
  }

  /** A pending ACK left over from an earlier step makes the next step succeed after one frame, even if that frame is refused. */
  lemma StaleAckMasksReply(l: LinkState, m: Message, attemptsLeft: nat)
    requires attemptsLeft > 0 && l.ackCount > 0
    ensures Exchange(l, m, attemptsLeft).ok
    ensures Exchange(l, m, attemptsLeft).transmissions == 1
  {
  }

  /** The first reply among the first `n` that is not silence, with its index. */
  function {:induction false} FirstAnswer(replies: seq<Reply>, n: nat): (r: Option<(nat, Reply)>)
    ensures r.Some? ==> r.value.0 < n && r.value.0 < |replies| && replies[r.value.0] == r.value.1 && r.value.1 != Silence
    ensures r.Some? ==> forall j :: 0 <= j < r.value.0 ==> replies[j] == Silence
    ensures r.None? ==> forall j :: 0 <= j < n && j < |replies| ==> replies[j] == Silence
  {
    if n == 0 || replies == [] then None
    else if replies[0] != Silence then Some((0, replies[0]))
    else match FirstAnswer(replies[1..], n - 1)
      case None => None
      case Some((k, a)) => Some((k + 1, a))
  }

  /**
   * With no stale counts, a step succeeds exactly when the first answer within its attempts is an ACK;
   * a REJ ends it at once; and when every attempt times out it has sent exactly `attemptsLeft` frames.
   * The counters are clean again afterwards.
   */
  lemma {:induction false} CleanExchange(l: LinkState, m: Message, attemptsLeft: nat)
    requires Clean(l)
    ensures var e := Exchange(l, m, attemptsLeft);
      Clean(e.link) &&
      match FirstAnswer(l.replies, attemptsLeft)
      case Some((k, a)) => e.ok == (a == AckReply) && e.transmissions == k + 1
      case None => !e.ok && e.transmissions == attemptsLeft
    decreases attemptsLeft
  {
    if attemptsLeft > 0 {
      var l1 := Transmit(l, m);
      var (res, l') := Poll(l1);
      if l.replies == [] {
        CleanExchange(l', m, attemptsLeft - 1);
      } else if l.replies[0] == Silence {
        assert l' == l1 && l'.replies == l.replies[1..];
        CleanExchange(l', m, attemptsLeft - 1);
      }
    }
  }
}
