/**
 * The gateway side of the file transfer in src/lora_file_transfer.cpp: one session at a time,
 * idle exactly when `current_file_path` is empty, with byte counters and an ACK or REJ answer
 * to each frame it handles.
 *
 * `getDeviceNameByMac` belongs to the peer registry, which is not part of this model: its answer
 * for the frame's address is a parameter. The SD card is a map from paths to contents, with a
 * set of paths that cannot be opened; the byte count `file.write` returns is a parameter too.
 */
module FileReceiver {
  import opened Text
  import opened Messages

  /** The receiver's globals, the SD card and the replies it has transmitted. */
  datatype ReceiverState = ReceiverState(
    path: string,                        // current_file_path
    received: int,                       // total_bytes_received
    written: int,                        // total_bytes_written
    lastWritten: int,                    // bytes_written
    files: map<string, seq<Byte>>,
    unwritable: set<string>,
    outbox: seq<Message>)

  predicate Idle(rx: ReceiverState) { rx.path == "" }

  /** The content of a file opened with FILE_APPEND: what it holds, or nothing when it is created. */
  function Existing(files: map<string, seq<Byte>>, p: string): seq<Byte>
  {
    if p in files then files[p] else []
  }

  predicate HasDataPrefix(f: string) { |f| >= 5 && f[..5] == "/data" }

  /**
   * The session path `handle_file_meta` derives: "/node/", the sender's device name, and the
   * file name field read as a C string of at most MAX_FILENAME_LEN characters, with a leading
   * "/data" dropped.
   */
  function DestinationPath(field: string, deviceName: string): (r: string)
    ensures |r| >= 6 + |deviceName| && r[..6 + |deviceName|] == "/node/" + deviceName
    ensures var tail := r[6 + |deviceName|..];
      |tail| <= MAX_FILENAME_LEN &&
      (forall i :: 0 <= i < |tail| ==> tail[i] != '\0') &&
      (HasDataPrefix(CStr(Prefix(field, MAX_FILENAME_LEN))) ==> CStr(Prefix(field, MAX_FILENAME_LEN)) == "/data" + tail) &&
      (!HasDataPrefix(CStr(Prefix(field, MAX_FILENAME_LEN))) ==> CStr(Prefix(field, MAX_FILENAME_LEN)) == tail)
  {
    var f := CStr(Prefix(field, MAX_FILENAME_LEN));
    var tail := if HasDataPrefix(f) then f[5..] else f;
    assert HasDataPrefix(f) ==> f == "/data" + tail;
    var r := "/node/" + deviceName + tail;
    assert r[6 + |deviceName|..] == tail;
    r
  }

  /** `handle_file_meta`, as written: the path is set before the file is opened. */
  function OnMeta(rx: ReceiverState, m: Message, deviceName: string): (r: ReceiverState)
    requires m.FileMeta?
    ensures !Idle(r) && r.unwritable == rx.unwritable
    ensures !Idle(rx) ==> r == rx.(outbox := rx.outbox + [Reject(m.mac)])
    ensures Idle(rx) ==> r.path == DestinationPath(m.filename, deviceName) && r.written == rx.written && r.lastWritten == rx.lastWritten
    ensures Idle(rx) && r.path !in rx.unwritable ==>
      r.outbox == rx.outbox + [Ack(m.mac)] && r.received == 0 &&
      r.files == rx.files[r.path := Existing(rx.files, r.path)]
    ensures Idle(rx) && r.path in rx.unwritable ==>
      r.outbox == rx.outbox && r.files == rx.files && r.received == rx.received
  {
    if !Idle(rx) then rx.(outbox := rx.outbox + [Reject(m.mac)])
    else
      var p := DestinationPath(m.filename, deviceName);
      if p in rx.unwritable then rx.(path := p)
      else rx.(path := p, files := rx.files[p := Existing(rx.files, p)], outbox := rx.outbox + [Ack(m.mac)], received := 0)
  }

  /**
   * `handle_file_body`: with no session it refuses the frame and writes nothing; otherwise it
   * appends the first `accepted` of the `len` payload bytes, counts `len` as received, and
   * acknowledges whatever the write returned.
   */
  function OnBody(rx: ReceiverState, m: Message, accepted: nat): (r: ReceiverState)
    requires m.FileBody? && WellFormed(m) && accepted <= m.len
    ensures r.path == rx.path && r.unwritable == rx.unwritable
    ensures Idle(rx) ==> r == rx.(outbox := rx.outbox + [Reject(m.mac)])
    ensures !Idle(rx) && rx.path in rx.unwritable ==> r == rx
    ensures !Idle(rx) && rx.path !in rx.unwritable ==>
      r.files == rx.files[rx.path := Existing(rx.files, rx.path) + Payload(m)[..accepted]] &&
      r.received == ToU32(rx.received + m.len) &&
      r.written == ToU32(rx.written + accepted) && r.lastWritten == accepted &&
      r.outbox == rx.outbox + [Ack(m.mac)]
  {
    if Idle(rx) then rx.(outbox := rx.outbox + [Reject(m.mac)])
    else if rx.path in rx.unwritable then rx
    else
      assert Payload(m)[..accepted] == m.data[..accepted];
      rx.(files := rx.files[rx.path := Existing(rx.files, rx.path) + m.data[..accepted]],
          received := ToU32(rx.received + m.len),
          lastWritten := accepted,
          written := ToU32(rx.written + accepted),
          outbox := rx.outbox + [Ack(m.mac)])
  }

  /** `handle_file_end`: the session ends whoever sent the frame, and the frame is acknowledged. */
  function OnEnd(rx: ReceiverState, m: Message): (r: ReceiverState)
    requires m.FileEnd?
    ensures Idle(r) && r.outbox == rx.outbox + [Ack(m.mac)]
    ensures r.(path := rx.path, outbox := rx.outbox) == rx
  {
    rx.(path := "", outbox := rx.outbox + [Ack(m.mac)])
  }

  /**
   * A refused FILE_META while a session is open changes nothing but the outbox, and a frame that
   * is answered gets exactly one reply addressed to its sender.
   */
  lemma {:induction false} MetaRepliesToSender(rx: ReceiverState, m: Message, deviceName: string)
    requires m.FileMeta?
    ensures var r := OnMeta(rx, m, deviceName);
      |r.outbox| <= |rx.outbox| + 1 && r.outbox[..|rx.outbox|] == rx.outbox &&
      (|r.outbox| == |rx.outbox| + 1 ==>
        (r.outbox[|rx.outbox|].mac == m.mac && (r.outbox[|rx.outbox|].Ack? <==> Idle(rx))))
  {
    var r := OnMeta(rx, m, deviceName);
    if !Idle(rx) {
      assert r.outbox[..|rx.outbox|] == rx.outbox;
    } else if r.path !in rx.unwritable {
      assert r.outbox[..|rx.outbox|] == rx.outbox;
    }
  }

  /**
   * As written, a FILE_META whose destination cannot be opened leaves the session busy without
   * answering: every later FILE_META, including the sender's retry of the same frame, is
   * refused, and no FILE_BODY is acknowledged, until some FILE_END arrives.
   */
  lemma MetaOpenFailureWedges(rx: ReceiverState, m: Message, deviceName: string, m2: Message, name2: string, b: Message, k: nat)
    requires Idle(rx) && m.FileMeta? && DestinationPath(m.filename, deviceName) in rx.unwritable
    requires m2.FileMeta? && b.FileBody? && WellFormed(b) && k <= b.len
    ensures var r := OnMeta(rx, m, deviceName);
      r.outbox == rx.outbox && !Idle(r) &&
      OnMeta(r, m2, name2).outbox == rx.outbox + [Reject(m2.mac)] &&
      OnBody(r, b, k) == r
  {
  }

  /** The evidently intended `handle_file_meta`: the session starts only once its file is open. */
  function OnMetaFixed(rx: ReceiverState, m: Message, deviceName: string): (r: ReceiverState)
    requires m.FileMeta?
    ensures r.unwritable == rx.unwritable
    ensures !Idle(r) <==> !Idle(rx) || DestinationPath(m.filename, deviceName) !in rx.unwritable
    ensures Idle(rx) && Idle(r) ==> r == rx
  {
    if !Idle(rx) then rx.(outbox := rx.outbox + [Reject(m.mac)])
    else
      var p := DestinationPath(m.filename, deviceName);
      if p in rx.unwritable then rx
      else rx.(path := p, files := rx.files[p := Existing(rx.files, p)], outbox := rx.outbox + [Ack(m.mac)], received := 0)
  }

  /**
   * With the correction, a session is open exactly when its FILE_META was acknowledged, and the
   * correction differs from the code as written only on the failed open.
   */
  lemma FixedMetaSessionIffAck(rx: ReceiverState, m: Message, deviceName: string)
    requires Idle(rx) && m.FileMeta?
    ensures var r := OnMetaFixed(rx, m, deviceName);
      (!Idle(r) <==> r.outbox == rx.outbox + [Ack(m.mac)]) &&
      (!Idle(r) ==> r == OnMeta(rx, m, deviceName))
  {
    var r := OnMetaFixed(rx, m, deviceName);
    if Idle(r) {
      assert |r.outbox| != |rx.outbox + [Ack(m.mac)]|;
    }
  }

  /** The receiver's globals, with the handlers updating them in place. */
  class Receiver {
    var path: string
    var received: int
    var written: int
    var lastWritten: int
    var files: map<string, seq<Byte>>
    var unwritable: set<string>
    var outbox: seq<Message>

    function State(): ReceiverState
      reads this
    {
      ReceiverState(path, received, written, lastWritten, files, unwritable, outbox)
    }

    constructor (files: map<string, seq<Byte>>, unwritable: set<string>)
      ensures State() == ReceiverState("", 0, 0, 0, files, unwritable, [])
    {
      path := "";
      received, written, lastWritten := 0, 0, 0;
      this.files := files;
      this.unwritable := unwritable;
      outbox := [];
    }

    method HandleFileMeta(m: Message, deviceName: string)
      requires m.FileMeta?
      modifies this
      ensures State() == OnMeta(old(State()), m, deviceName)
    {
      if path != "" {
        outbox := outbox + [Reject(m.mac)];
        return;
      }
      var filename := CStr(Prefix(m.filename, MAX_FILENAME_LEN));
      path := "/node/" + deviceName + filename;
      if HasDataPrefix(filename) {
        path := "/node/" + deviceName + filename[5..];
      }
      if path in unwritable {
        return;
      }
      files := files[path := Existing(files, path)];
      outbox := outbox + [Ack(m.mac)];
      received := 0;
    }

    method HandleFileBody(m: Message, accepted: nat)
      requires m.FileBody? && WellFormed(m) && accepted <= m.len
      modifies this
      ensures State() == OnBody(old(State()), m, accepted)
    {
      if path == "" {
        outbox := outbox + [Reject(m.mac)];
        return;
      }
      if path in unwritable {
        return;
      }
      received := ToU32(received + m.len);
      files := files[path := Existing(files, path) + m.data[..accepted]];
      lastWritten := accepted;
      written := ToU32(written + lastWritten);
      outbox := outbox + [Ack(m.mac)];
    }

    method HandleFileEnd(m: Message) returns (status: int)
      requires m.FileEnd?
      modifies this
      ensures status == 0
      ensures State() == OnEnd(old(State()), m)
    {
      path := "";
      outbox := outbox + [Ack(m.mac)];
      return 0;
    }
  }
}
