/**
 * A node's `sendFile` and the gateway's handlers of src/lora_file_transfer.cpp put together: the
 * frames the sender transmits, handled in order by the receiver, rebuild the file on the
 * gateway's card.
 */
module Transfer {
  import opened Text
  import opened Messages
  import opened Delivery
  import opened FileSender
  import opened FileReceiver

  /** The frames the gateway's handlers accept as they are: every FILE_BODY is well formed. */
  predicate Receivable(frames: seq<Message>)
  {
    forall i :: 0 <= i < |frames| ==> frames[i].FileBody? ==> WellFormed(frames[i])
  }

  /**
   * The receiver handling frames in order, each FILE_BODY written in full; frames of other types
   * are not for these handlers and leave the state alone.
   */
  function {:induction false} Receive(rx: ReceiverState, frames: seq<Message>, deviceName: string): ReceiverState
    requires Receivable(frames)
    decreases |frames|
  {
    if frames == [] then rx
    else
      var m := frames[0];
      var rx' :=
        match m
        case FileMeta(_, _, _) => OnMeta(rx, m, deviceName)
        case FileBody(_, _, len) => OnBody(rx, m, len)
        case FileEnd(_) => OnEnd(rx, m)
        case _ => rx;
      Receive(rx', frames[1..], deviceName)
  }

  lemma {:induction false} ReceiveAppend(rx: ReceiverState, a: seq<Message>, b: seq<Message>, deviceName: string)
    requires Receivable(a) && Receivable(b)
    ensures Receivable(a + b)
    ensures Receive(rx, a + b, deviceName) == Receive(Receive(rx, a, deviceName), b, deviceName)
    decreases |a|
  {
    assert forall i :: 0 <= i < |a + b| ==> (a + b)[i] == if i < |a| then a[i] else b[i - |a|];
    if a == [] {
      assert a + b == b;
    } else {
      assert (a + b)[1..] == a[1..] + b;
      assert Receivable(a[1..]) by {
        forall i | 0 <= i < |a[1..]| ensures a[1..][i].FileBody? ==> WellFormed(a[1..][i]) {
          assert a[1..][i] == a[i + 1];
        }
      }
      var m := a[0];
      var rx' :=
        match m
        case FileMeta(_, _, _) => OnMeta(rx, m, deviceName)
        case FileBody(_, _, len) => OnBody(rx, m, len)
        case FileEnd(_) => OnEnd(rx, m)
        case _ => rx;
      ReceiveAppend(rx', a[1..], b, deviceName);
    }
  }

  /** Handling a FILE_BODY first, then the rest. */
  lemma ReceiveBody(rx: ReceiverState, m: Message, tail: seq<Message>, deviceName: string)
    requires m.FileBody? && WellFormed(m) && Receivable(tail)
    ensures Receivable([m] + tail)
    ensures Receive(rx, [m] + tail, deviceName) == Receive(OnBody(rx, m, m.len), tail, deviceName)
  {
    assert ([m] + tail)[1..] == tail;
    assert forall i :: 1 <= i < |[m] + tail| ==> ([m] + tail)[i] == tail[i - 1];
  }

  /** Appending to the session file one chunk and then the rest is appending both at once. */
  lemma AppendTwice(files: map<string, seq<Byte>>, p: string, a: seq<Byte>, b: seq<Byte>)
    ensures var f1 := files[p := Existing(files, p) + a];
      f1[p := Existing(f1, p) + b] == files[p := Existing(files, p) + (a + b)]
  {
    var f1 := files[p := Existing(files, p) + a];
    assert Existing(f1, p) + b == Existing(files, p) + (a + b);
  }

  lemma ChunkFramesReceivable(buf: seq<Byte>, rest: seq<Byte>, mac: seq<Byte>)
    requires |buf| == CHUNK_SIZE && IsMac(mac)
    ensures Receivable(ChunkFrames(buf, rest, mac))
  {
    ChunkFramesCarryChunks(buf, rest, mac);
  }

  /**
   * The chunk frames of a read loop, handled by a receiver with an open session, append exactly
   * the bytes read to the session file, count them as received, and acknowledge each frame.
   */
  lemma {:induction false} BodiesAppendFile(rx: ReceiverState, buf: seq<Byte>, rest: seq<Byte>, mac: seq<Byte>, deviceName: string)
    requires |buf| == CHUNK_SIZE && IsMac(mac)
    requires !Idle(rx) && rx.path !in rx.unwritable && rx.path in rx.files && 0 <= rx.received < TWO_32
    ensures Receivable(ChunkFrames(buf, rest, mac))
    ensures var r := Receive(rx, ChunkFrames(buf, rest, mac), deviceName);
      r.path == rx.path && r.unwritable == rx.unwritable &&
      r.files == rx.files[rx.path := Existing(rx.files, rx.path) + rest] &&
      r.received == ToU32(rx.received + |rest|) &&
      r.outbox == rx.outbox + Repeat(Ack(mac), |Chunks(rest)|)
    decreases |rest|
  {
    ChunkFramesReceivable(buf, rest, mac);
    if rest == [] {
      assert Existing(rx.files, rx.path) + rest == Existing(rx.files, rx.path);
      assert rx.files[rx.path := Existing(rx.files, rx.path)] == rx.files;
    } else {
      var n := ChunkLen(rest);
      var buf' := rest[..n] + buf[n..];
      var m := FileBody(mac, buf', n);
      var tail := ChunkFrames(buf', rest[n..], mac);
      assert ChunkFrames(buf, rest, mac) == [m] + tail;
      ChunkFramesReceivable(buf', rest[n..], mac);
      ReceiveBody(rx, m, tail, deviceName);
      assert Payload(m) == rest[..n];
      var rx1 := OnBody(rx, m, n);
      BodiesAppendFile(rx1, buf', rest[n..], mac, deviceName);
      assert rest[..n] + rest[n..] == rest;
      assert Chunks(rest)[1..] == Chunks(rest[n..]);
      BodiesStep(rx, rx1, Receive(rx1, tail, deviceName), mac, rest[..n], rest[n..], |Chunks(rest[n..])|);
    }
  }

  /** One acknowledged chunk followed by the rest of the file's chunks. */
  lemma BodiesStep(rx: ReceiverState, rx1: ReceiverState, r: ReceiverState, mac: seq<Byte>, head: seq<Byte>, tail: seq<Byte>, k: nat)
    requires 0 <= rx.received < TWO_32
    requires rx1.path == rx.path && rx1.unwritable == rx.unwritable && rx.path in rx.files
    requires rx1.files == rx.files[rx.path := Existing(rx.files, rx.path) + head]
    requires rx1.received == ToU32(rx.received + |head|) && rx1.outbox == rx.outbox + [Ack(mac)]
    requires r.path == rx1.path && r.unwritable == rx1.unwritable
    requires r.files == rx1.files[rx1.path := Existing(rx1.files, rx1.path) + tail]
    requires r.received == ToU32(rx1.received + |tail|) && r.outbox == rx1.outbox + Repeat(Ack(mac), k)
    ensures r.path == rx.path && r.unwritable == rx.unwritable
    ensures r.files == rx.files[rx.path := Existing(rx.files, rx.path) + (head + tail)]
    ensures r.received == ToU32(rx.received + |head + tail|)
    ensures r.outbox == rx.outbox + Repeat(Ack(mac), k + 1)
  {
    AppendTwice(rx.files, rx.path, head, tail);
    ToU32Add(rx.received + |head|, |tail|);
    assert Repeat(Ack(mac), k + 1) == [Ack(mac)] + Repeat(Ack(mac), k);
  }

  /**
   * One session as the gateway sees it: FILE_META to an idle receiver whose destination can be
   * opened, the chunk frames of a file, and FILE_END. The destination gains the file, the
   * session closes, and every frame is acknowledged.
   */
  lemma SessionRebuildsFile(rx: ReceiverState, mf: Message, buf: seq<Byte>, data: seq<Byte>, mac: seq<Byte>, deviceName: string)
    requires |buf| == CHUNK_SIZE && IsMac(mac) && mf.FileMeta? && mf.mac == mac
    requires Idle(rx) && DestinationPath(mf.filename, deviceName) !in rx.unwritable
    ensures var frames := [mf] + ChunkFrames(buf, data, mac) + [FileEnd(mac)];
      var p := DestinationPath(mf.filename, deviceName);
      Receivable(frames) &&
      var rx' := Receive(rx, frames, deviceName);
      Idle(rx') &&
      rx'.files == rx.files[p := Existing(rx.files, p) + data] &&
      rx'.received == ToU32(|data|) &&
      rx'.outbox == rx.outbox + Repeat(Ack(mac), |frames|)
  {
    var p := DestinationPath(mf.filename, deviceName);
    var body := ChunkFrames(buf, data, mac);
    var frames := [mf] + body + [FileEnd(mac)];
    ChunkFramesReceivable(buf, data, mac);
    ReceiveSingle(rx, mf, deviceName);
    ReceiveAppend(rx, [mf], body, deviceName);
    ReceiveAppend(rx, [mf] + body, [FileEnd(mac)], deviceName);
    var rx1 := OnMeta(rx, mf, deviceName);
    BodiesAppendFile(rx1, buf, data, mac, deviceName);
    var rx2 := Receive(rx1, body, deviceName);
    ReceiveSingle(rx2, FileEnd(mac), deviceName);
    AppendAfterCreate(rx.files, p, data);
    ChunkFramesCarryChunks(buf, data, mac);
    assert |frames| == |Chunks(data)| + 2;
    AcksAround(mac, |Chunks(data)|);
  }

  /** One frame that is not a FILE_BODY, handled alone. */
  lemma ReceiveSingle(rx: ReceiverState, m: Message, deviceName: string)
    requires m.FileMeta? || m.FileEnd?
    ensures Receivable([m])
    ensures m.FileMeta? ==> Receive(rx, [m], deviceName) == OnMeta(rx, m, deviceName)
    ensures m.FileEnd? ==> Receive(rx, [m], deviceName) == OnEnd(rx, m)
  {
    assert [m][1..] == [];
  }

  /** Creating a file and then appending to it is appending to what was there. */
  lemma AppendAfterCreate(files: map<string, seq<Byte>>, p: string, data: seq<Byte>)
    ensures var f1 := files[p := Existing(files, p)];
      f1[p := Existing(f1, p) + data] == files[p := Existing(files, p) + data]
  {
  }

  lemma AcksAround(mac: seq<Byte>, k: nat)
    ensures Repeat(Ack(mac), k + 2) == [Ack(mac)] + Repeat(Ack(mac), k) + [Ack(mac)]
  {
  }

  /**
   * A whole-file transfer over a link that acknowledges every frame at once, received by an idle
   * gateway whose destination file can be opened: the gateway's file gains exactly the node's
   * file, under "/node/" + device name + at most 39 characters of the name, the session is closed
   * afterwards, and the gateway sent one ACK per frame, which are the replies the node consumed.
   */
  lemma WholeFileArrives(s: SenderState, name: string, mac: seq<Byte>, attempts: nat, rx: ReceiverState, deviceName: string)
    requires IsMac(mac) && IsOctets(name) && |s.body| == CHUNK_SIZE && attempts > 0
    requires name in s.files
    requires Clean(s.link) && AllAck(s.link.replies) && |s.link.replies| >= |Chunks(s.files[name])| + 2
    requires Idle(rx) && DestinationPath(MetaFrame(mac, name, |s.files[name]|).filename, deviceName) !in rx.unwritable
    ensures var r := SendFileSpec(s, name, 0, mac, attempts);
      r.0 && |s.link.sent| <= |r.1.link.sent| &&
      var data := s.files[name];
      var p := DestinationPath(MetaFrame(mac, name, |data|).filename, deviceName);
      var frames := r.1.link.sent[|s.link.sent|..];
      |frames| == |Chunks(data)| + 2 && Receivable(frames) &&
      var rx' := Receive(rx, frames, deviceName);
      Idle(rx') &&
      rx'.files == rx.files[p := Existing(rx.files, p) + data] &&
      rx'.received == ToU32(|data|) &&
      rx'.outbox == rx.outbox + Repeat(Ack(mac), |frames|)
  {
    var data := s.files[name];
    var mf := MetaFrame(mac, name, |data|);
    SendFileAllAcked(s, name, 0, mac, attempts);
    var r := SendFileSpec(s, name, 0, mac, attempts);
    ChunkFramesCarryChunks(s.body, data, mac);
    var frames := [mf] + ChunkFrames(s.body, data, mac) + [FileEnd(mac)];
    AfterPrefix(s.link.sent, [mf], ChunkFrames(s.body, data, mac), [FileEnd(mac)]);
    SessionRebuildsFile(rx, mf, s.body, data, mac, deviceName);
  }

  /** What was appended after a prefix. */
  lemma AfterPrefix<T>(a: seq<T>, b: seq<T>, c: seq<T>, d: seq<T>)
    ensures |a| <= |a + b + c + d| && (a + b + c + d)[|a|..] == b + c + d
  {
  }

  /**
   * The gateway files a node's transfer under "/node/", the node's device name, and the first 39
   * characters of the node's file name, less a leading "/data".
   */
  lemma DestinationOfName(mac: seq<Byte>, name: string, size: nat, deviceName: string)
    requires IsMac(mac) && IsOctets(name)
    ensures var f := Prefix(CStr(name), MAX_FILENAME_LEN - 1);
      DestinationPath(MetaFrame(mac, name, size).filename, deviceName) ==
        "/node/" + deviceName + (if HasDataPrefix(f) then f[5..] else f)
  {
    var field := MetaFrame(mac, name, size).filename;
    assert Prefix(field, MAX_FILENAME_LEN) == field;
  }
}
