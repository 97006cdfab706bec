/**
 * The file sender of src/lora_file_transfer.cpp: the resume-offset file name, the
 * FILE_META / FILE_BODY / FILE_END sequence of `sendFile`, and the `Sender` class that
 * holds the node's globals and runs the retry loops.
 *
 * The SD card is a map from path to bytes plus the set of paths that cannot be opened
 * for writing; a path absent from the map cannot be opened for reading.
 */
module FileSender {
  import opened Text
  import opened Messages
  import opened Delivery

  /** The position of the last `c` in `s`, or -1 (`String::lastIndexOf`). */
  function {:induction false} LastIndexOf(s: string, c: char): (r: int)
    ensures -1 <= r < |s|
    ensures r >= 0 ==> s[r] == c
    ensures forall i :: r < i < |s| ==> s[i] != c
  {
    if s == [] then -1
    else if s[|s| - 1] == c then |s| - 1
    else LastIndexOf(s[..|s| - 1], c)
  }

  /**
   * `getMetaFilename`: the name of the resume-offset file. It ends in ".meta"; what precedes
   * it is the name up to its last '.', when that dot is not the first character, and the
   * whole name otherwise.
   */
  function MetaFilename(name: string): (r: string)
    ensures 5 <= |r| <= |name| + 5 && r[|r| - 5..] == ".meta"
    ensures var stem := r[..|r| - 5];
      stem == name[..|stem|] &&
      (|stem| < |name| ==>
        0 < |stem| && name[|stem|] == '.' && forall i :: |stem| < i < |name| ==> name[i] != '.') &&
      (|stem| == |name| ==> forall i :: 0 < i < |name| ==> name[i] != '.')
  {
    var dot := LastIndexOf(name, '.');
    var stem := if dot > 0 then name[..dot] else name;
    assert (stem + ".meta")[..|stem|] == stem;
    stem + ".meta"
  }

  function Min(a: int, b: int): int { if a <= b then a else b }

  /** How many bytes one `file.read(file_body.data, CHUNK_SIZE)` returns from what is left. */
  function ChunkLen(rest: seq<Byte>): (n: nat)
    ensures n <= CHUNK_SIZE && n <= |rest|
    ensures rest != [] ==> n >= 1
  {
    Min(CHUNK_SIZE, |rest|)
  }

  function {:induction false} Flatten(cs: seq<seq<Byte>>): seq<Byte>
  {
    if cs == [] then [] else cs[0] + Flatten(cs[1..])
  }

  /** The successive reads of a file: pieces of 1..CHUNK_SIZE bytes, all full but the last, that make up the file in order. */
  function {:induction false} Chunks(s: seq<Byte>): (cs: seq<seq<Byte>>)
    ensures forall i :: 0 <= i < |cs| ==> 1 <= |cs[i]| <= CHUNK_SIZE
    ensures forall i :: 0 <= i < |cs| - 1 ==> |cs[i]| == CHUNK_SIZE
    ensures Flatten(cs) == s
    decreases |s|
  {
    if s == [] then []
    else
      var n := ChunkLen(s);
      var cs := [s[..n]] + Chunks(s[n..]);
      assert cs[1..] == Chunks(s[n..]);
      assert s == s[..n] + s[n..];
      cs
  }

  /**
   * The FILE_BODY frames of a read loop, with the reused `file_body.data` buffer: each read
   * overwrites the first `len` bytes and leaves the rest of the previous chunk in place.
   * Each frame carries one chunk, in order, as its payload.
   */
  function {:induction false} ChunkFrames(buf: seq<Byte>, rest: seq<Byte>, mac: seq<Byte>): (fs: seq<Message>)
    requires |buf| == CHUNK_SIZE && IsMac(mac)
    decreases |rest|
  {
    if rest == [] then []
    else
      var n := ChunkLen(rest);
      var buf' := rest[..n] + buf[n..];
      [FileBody(mac, buf', n)] + ChunkFrames(buf', rest[n..], mac)
  }

  /** Each FILE_BODY frame of the read loop carries one chunk, in order, as its payload. */
  lemma {:induction false} ChunkFramesCarryChunks(buf: seq<Byte>, rest: seq<Byte>, mac: seq<Byte>)
    requires |buf| == CHUNK_SIZE && IsMac(mac)
    ensures var fs := ChunkFrames(buf, rest, mac);
      |fs| == |Chunks(rest)| &&
      forall i :: 0 <= i < |fs| ==>
        fs[i].FileBody? && WellFormed(fs[i]) && fs[i].mac == mac && Payload(fs[i]) == Chunks(rest)[i]
    decreases |rest|
  {
    if rest != [] {
      var n := ChunkLen(rest);
      var buf' := rest[..n] + buf[n..];
      assert Chunks(rest)[1..] == Chunks(rest[n..]);
      ChunkFramesCarryChunks(buf', rest[n..], mac);
    }
  }

  /** The frames of several retry loops in a row: `counts[i]` copies of `fs[i]`. */
  function {:induction false} Expand(fs: seq<Message>, counts: seq<nat>): seq<Message>
    requires |fs| == |counts|
  {
    if fs == [] then [] else Repeat(fs[0], counts[0]) + Expand(fs[1..], counts[1..])
  }

  /** The outcome of the chunk loop: success, the link, the buffer, and the transmissions of each chunk tried. */
  datatype Chunked = Chunked(ok: bool, link: LinkState, body: seq<Byte>, counts: seq<nat>)

  /** The chunk loop of `sendFile`: read, send with retries, stop at the first chunk that is not acknowledged. */
  function {:induction false} SendChunks(l: LinkState, buf: seq<Byte>, rest: seq<Byte>, mac: seq<Byte>, attempts: nat): (c: Chunked)
    requires |buf| == CHUNK_SIZE && IsMac(mac)
    ensures |c.body| == CHUNK_SIZE
    decreases |rest|
  {
    if rest == [] then Chunked(true, l, buf, [])
    else
      var n := ChunkLen(rest);
      var buf' := rest[..n] + buf[n..];
      var e := Exchange(l, FileBody(mac, buf', n), attempts);
      if !e.ok then Chunked(false, e.link, buf', [e.transmissions])
      else
        var c := SendChunks(e.link, buf', rest[n..], mac, attempts);
        c.(counts := [e.transmissions] + c.counts)
  }

  lemma ExpandCons(m: Message, t: nat, fs: seq<Message>, counts: seq<nat>)
    requires |fs| == |counts|
    ensures Expand([m] + fs, [t] + counts) == Repeat(m, t) + Expand(fs, counts)
  {
    assert ([m] + fs)[1..] == fs && ([t] + counts)[1..] == counts;
  }

  /** One turn of the chunk loop, unfolded. */
  lemma ChunkStep(l: LinkState, buf: seq<Byte>, rest: seq<Byte>, mac: seq<Byte>, attempts: nat)
    requires |buf| == CHUNK_SIZE && IsMac(mac) && rest != []
    ensures var n := ChunkLen(rest);
      var buf' := rest[..n] + buf[n..];
      var m := FileBody(mac, buf', n);
      var e := Exchange(l, m, attempts);
      ChunkFrames(buf, rest, mac) == [m] + ChunkFrames(buf', rest[n..], mac) &&
      SendChunks(l, buf, rest, mac, attempts) ==
        if !e.ok then Chunked(false, e.link, buf', [e.transmissions])
        else var c := SendChunks(e.link, buf', rest[n..], mac, attempts); c.(counts := [e.transmissions] + c.counts)
  {
  }

  /** Every retry loop transmitted at most `attempts` frames, and at least one when it could. */
  predicate RetriesBounded(counts: seq<nat>, attempts: nat)
  {
    forall i :: 0 <= i < |counts| ==> counts[i] <= attempts && (attempts > 0 ==> counts[i] >= 1)
  }

  lemma RetriesBoundedCons(t: nat, counts: seq<nat>, attempts: nat)
    requires t <= attempts && (attempts > 0 ==> t >= 1) && RetriesBounded(counts, attempts)
    ensures RetriesBounded([t] + counts, attempts)
  {
    assert forall i :: 1 <= i < |counts| + 1 ==> ([t] + counts)[i] == counts[i - 1];
  }

  /**
   * Chunks go out strictly in file order and none is skipped: the frames sent are the frames of
   * the first chunks, each repeated by its retry loop at most `attempts` times; on success every
   * chunk was sent, and a chunk that fails is the last one transmitted.
   */
  lemma {:induction false} ChunksSentInOrder(l: LinkState, buf: seq<Byte>, rest: seq<Byte>, mac: seq<Byte>, attempts: nat)
    requires |buf| == CHUNK_SIZE && IsMac(mac)
    ensures var c := SendChunks(l, buf, rest, mac, attempts);
      var fs := ChunkFrames(buf, rest, mac);
      |c.counts| <= |fs| &&
      (c.ok ==> |c.counts| == |fs|) &&
      (!c.ok ==> |c.counts| >= 1) &&
      RetriesBounded(c.counts, attempts) &&
      c.link.sent == l.sent + Expand(fs[..|c.counts|], c.counts)
    decreases |rest|
  {
    if rest != [] {
      var n := ChunkLen(rest);
      var buf' := rest[..n] + buf[n..];
      var m := FileBody(mac, buf', n);
      var e := Exchange(l, m, attempts);
      ExchangeBounded(l, m, attempts);
      ChunkStep(l, buf, rest, mac, attempts);
      var tail := ChunkFrames(buf', rest[n..], mac);
      var fs := [m] + tail;
      if !e.ok {
        assert fs[..1] == [m] + [];
        ExpandCons(m, e.transmissions, [], []);
        RetriesBoundedCons(e.transmissions, [], attempts);
      } else {
        var c := SendChunks(e.link, buf', rest[n..], mac, attempts);
        ChunksSentInOrder(e.link, buf', rest[n..], mac, attempts);
        RetriesBoundedCons(e.transmissions, c.counts, attempts);
        assert fs[..|c.counts| + 1] == [m] + tail[..|c.counts|];
        SentInOrderStep(l.sent, m, e.transmissions, tail[..|c.counts|], c.counts, c.link.sent);
      }
    }
  }

  /** The frames of one more acknowledged chunk in front of those of the rest. */
  lemma SentInOrderStep(sent: seq<Message>, m: Message, t: nat, head: seq<Message>, counts: seq<nat>, sent': seq<Message>)
    requires |head| == |counts|
    requires sent' == sent + Repeat(m, t) + Expand(head, counts)
    ensures sent' == sent + Expand([m] + head, [t] + counts)
  {
    ExpandCons(m, t, head, counts);
  }

  predicate AllAck(replies: seq<Reply>) { forall i :: 0 <= i < |replies| ==> replies[i] == AckReply }

  /** When every chunk is acknowledged at once, the loop sends exactly one frame per chunk and succeeds. */
  lemma {:induction false} ChunksAllAcked(l: LinkState, buf: seq<Byte>, rest: seq<Byte>, mac: seq<Byte>, attempts: nat)
    requires |buf| == CHUNK_SIZE && IsMac(mac) && attempts > 0
    requires Clean(l) && AllAck(l.replies) && |l.replies| >= |Chunks(rest)|
    ensures var c := SendChunks(l, buf, rest, mac, attempts);
      c.ok && Clean(c.link) &&
      c.link.sent == l.sent + ChunkFrames(buf, rest, mac) &&
      c.link.replies == l.replies[|Chunks(rest)|..]
    decreases |rest|
  {
    if rest != [] {
      var n := ChunkLen(rest);
      var buf' := rest[..n] + buf[n..];
      var m := FileBody(mac, buf', n);
      ChunkStep(l, buf, rest, mac, attempts);
      var e := Exchange(l, m, attempts);
      assert e == Exchanged(true, 1, LinkState(l.sent + [m], 0, 0, l.replies[1..]));
      assert |Chunks(rest)| == 1 + |Chunks(rest[n..])|;
      ChunksAllAcked(e.link, buf', rest[n..], mac, attempts);
      assert l.replies[1..][|Chunks(rest[n..])|..] == l.replies[|Chunks(rest)|..];
    }
  }

  /** The SD card and radio state `sendFile` works on; `body` is the global `file_body.data` buffer. */
  datatype SenderState = SenderState(link: LinkState, files: map<string, seq<Byte>>, unwritable: set<string>, body: seq<Byte>)

  /** The FILE_META frame of `sendMetadata`: at most 39 characters of the name, NUL terminated, and the size as `uint32_t`. */
  function MetaFrame(mac: seq<Byte>, name: string, size: nat): (m: Message)
    requires IsMac(mac) && IsOctets(name)
    ensures m.FileMeta? && WellFormed(m) && m.mac == mac
    ensures CStr(m.filename) == Prefix(CStr(name), MAX_FILENAME_LEN - 1)
    ensures m.filename[MAX_FILENAME_LEN - 1] == '\0'
    ensures m.filesize == size % TWO_32
  {
    StrNCopyOctets(name, MAX_FILENAME_LEN - 1);
    CStrTerminated(StrNCopy(name, MAX_FILENAME_LEN - 1));
    FileMeta(mac, StrNCopy(name, MAX_FILENAME_LEN - 1) + "\0", ToU32(size))
  }

  /** The text a resume-offset file holds after `metaFile.println(n)`. */
  function OffsetRecord(n: int): seq<Byte>
  {
    PrintLineOctets(n);
    Octets(PrintLine(n))
  }

  /** `lastSentPosition` of a sync pass: the number in the resume-offset file as `size_t`, or 0 when there is no such file. */
  function ResumeOffset(files: map<string, seq<Byte>>, name: string): nat
  {
    var meta := MetaFilename(name);
    if meta in files then ToU32(ParseInt(Chars(files[meta]))) else 0
  }

  /** What the reads return after `file.seek(start)`: nothing when the position is past the end. */
  function Tail(data: seq<Byte>, start: nat): seq<Byte>
  {
    if start <= |data| then data[start..] else []
  }

  /** `file.position()` after reading to the end from `start`, as the `int` it is stored in. */
  function ReadPosition(data: seq<Byte>, start: nat): int
  {
    ToI32(if start <= |data| then |data| else start)
  }

  /** The card after the first step of a sync pass: a missing resume-offset file is created holding 0. */
  function PreparedFiles(files: map<string, seq<Byte>>, name: string, mode: int): map<string, seq<Byte>>
  {
    var meta := MetaFilename(name);
    if mode == 1 && meta !in files then files[meta := OffsetRecord(0)] else files
  }

  /** `sendEndOfTransfer` and the result of `sendFile`. */
  function SendEnd(s: SenderState, mac: seq<Byte>, attempts: nat): (bool, SenderState)
  {
    var e := Exchange(s.link, FileEnd(mac), attempts);
    (e.ok, s.(link := e.link))
  }

  /**
   * The part of `sendFile` after an acknowledged FILE_META in modes 0 and 1: the chunk loop from
   * `start`, then in mode 1 the new offset written back, then FILE_END.
   */
  function SendBody(s: SenderState, name: string, mode: int, data: seq<Byte>, start: nat, mac: seq<Byte>, attempts: nat): (bool, SenderState)
    requires IsMac(mac) && |s.body| == CHUNK_SIZE
  {
    var meta := MetaFilename(name);
    var c := SendChunks(s.link, s.body, Tail(data, start), mac, attempts);
    var s3 := s.(link := c.link, body := c.body);
    if !c.ok then (false, s3)
    else if mode == 0 then SendEnd(s3, mac, attempts)
    else if meta in s3.unwritable then (false, s3)
    else SendEnd(s3.(files := s3.files[meta := OffsetRecord(ReadPosition(data, start))]), mac, attempts)
  }

  /** `sendFile(filename, mode)`: mode 0 sends the whole file, mode 1 resumes from the stored offset. */
  function SendFileSpec(s: SenderState, name: string, mode: int, mac: seq<Byte>, attempts: nat): (bool, SenderState)
    requires IsMac(mac) && IsOctets(name) && |s.body| == CHUNK_SIZE
  {
    var meta := MetaFilename(name);
    if mode == 1 && meta !in s.files && meta in s.unwritable then (false, s)
    else
      var s1 := s.(files := PreparedFiles(s.files, name, mode));
      if name !in s1.files then (false, s1)
      else
        var data := s1.files[name];
        var e := Exchange(s1.link, MetaFrame(mac, name, |data|), attempts);
        var s2 := s1.(link := e.link);
        if !e.ok then (false, s2)
        else if mode != 0 && mode != 1 then SendEnd(s2, mac, attempts)
        else SendBody(s2, name, mode, data, if mode == 1 then ResumeOffset(s.files, name) else 0, mac, attempts)
  }

  /** Every frame of several retry loops is one of their frames. */
  lemma {:induction false} ExpandMembers(fs: seq<Message>, counts: seq<nat>)
    requires |fs| == |counts|
    ensures forall x :: x in Expand(fs, counts) ==> x in fs
  {
    if fs != [] {
      ExpandMembers(fs[1..], counts[1..]);
      assert forall x :: x in fs[1..] ==> x in fs;
    }
  }

  /** Retry loops that each transmitted at least once sent at least one frame per loop. */
  lemma {:induction false} ExpandLength(fs: seq<Message>, counts: seq<nat>, attempts: nat)
    requires |fs| == |counts| && attempts > 0 && RetriesBounded(counts, attempts)
    ensures |Expand(fs, counts)| >= |fs|
  {
    if fs != [] {
      assert RetriesBounded(counts[1..], attempts) by {
        forall i | 0 <= i < |counts[1..]| ensures counts[1..][i] <= attempts && counts[1..][i] >= 1 {
          assert counts[1..][i] == counts[i + 1];
        }
      }
      ExpandLength(fs[1..], counts[1..], attempts);
    }
  }

  /** `parseInt` reads back the offset a sync pass stored, as `size_t`. */
  lemma ResumeOffsetOfRecord(files: map<string, seq<Byte>>, name: string, k: int)
    ensures ResumeOffset(files[MetaFilename(name) := OffsetRecord(k)], name) == ToU32(k)
  {
    PrintLineOctets(k);
    CharsOctets(PrintLine(k));
    ParsePrintedLine(k);
  }

  /**
   * A full transfer whose every frame is acknowledged at once: FILE_META, one FILE_BODY per
   * chunk of the whole file, and FILE_END; in a first sync pass the resume-offset file then
   * holds the file's size.
   */
  lemma SendFileAllAcked(s: SenderState, name: string, mode: int, mac: seq<Byte>, attempts: nat)
    requires IsMac(mac) && IsOctets(name) && |s.body| == CHUNK_SIZE && attempts > 0
    requires mode == 0 || (mode == 1 && MetaFilename(name) !in s.files && MetaFilename(name) !in s.unwritable)
    requires name in s.files
    requires Clean(s.link) && AllAck(s.link.replies) && |s.link.replies| >= |Chunks(s.files[name])| + 2
    ensures var r := SendFileSpec(s, name, mode, mac, attempts);
      var data := s.files[name];
      r.0 && Clean(r.1.link) &&
      r.1.link.sent == s.link.sent + [MetaFrame(mac, name, |data|)] + ChunkFrames(s.body, data, mac) + [FileEnd(mac)] &&
      r.1.files == (if mode == 0 then s.files else s.files[MetaFilename(name) := OffsetRecord(ToI32(|data|))])
  {
    var data := s.files[name];
    var s1 := s.(files := PreparedFiles(s.files, name, mode));
    assert s1.files[name] == data;
    var e := Exchange(s1.link, MetaFrame(mac, name, |data|), attempts);
    assert e.ok && e.link == LinkState(s.link.sent + [MetaFrame(mac, name, |data|)], 0, 0, s.link.replies[1..]);
    var s2 := s1.(link := e.link);
    assert Tail(data, 0) == data;
    ChunksAllAcked(s2.link, s2.body, data, mac, attempts);
    var c := SendChunks(s2.link, s2.body, data, mac, attempts);
    assert c.link.replies == s.link.replies[1 + |Chunks(data)|..];
  }

  /**
   * The chunk loop and write-back of a sync pass: either the card is unchanged and the pass
   * fails, or every chunk from `start` was transmitted and the offset where reading ended was
   * stored.
   */
  lemma SendBodyOffset(s: SenderState, name: string, data: seq<Byte>, start: nat, mac: seq<Byte>, attempts: nat)
    requires IsMac(mac) && |s.body| == CHUNK_SIZE && attempts > 0
    ensures var r := SendBody(s, name, 1, data, start, mac, attempts);
      (!r.0 && r.1.files == s.files) ||
      (r.1.files == s.files[MetaFilename(name) := OffsetRecord(ReadPosition(data, start))] &&
       |r.1.link.sent| >= |s.link.sent| + |Chunks(Tail(data, start))|)
    ensures var r := SendBody(s, name, 1, data, start, mac, attempts);
      var c := SendChunks(s.link, s.body, Tail(data, start), mac, attempts);
      (!c.ok ==> !r.0 && r.1.files == s.files) &&
      (r.0 || r.1.files != s.files ==>
        c.ok && |c.counts| == |Chunks(Tail(data, start))| &&
        r.1.files == s.files[MetaFilename(name) := OffsetRecord(ReadPosition(data, start))])
  {
    var c := SendChunks(s.link, s.body, Tail(data, start), mac, attempts);
    ChunksSentInOrder(s.link, s.body, Tail(data, start), mac, attempts);
    ChunkFramesCarryChunks(s.body, Tail(data, start), mac);
    if c.ok {
      var fs := ChunkFrames(s.body, Tail(data, start), mac);
      assert fs[..|c.counts|] == fs;
      ExpandLength(fs, c.counts, attempts);
      ExchangeBounded(c.link, FileEnd(mac), attempts);
    }
  }

  /**
   * A sync pass changes the stored offset only after every chunk from the start offset has been
   * transmitted and acknowledged; on any earlier failure the resume-offset file keeps its
   * content, so the next pass starts from the same place.
   */
  lemma SyncOffsetOnlyAfterAllChunks(s: SenderState, name: string, mac: seq<Byte>, attempts: nat)
    requires IsMac(mac) && IsOctets(name) && |s.body| == CHUNK_SIZE && attempts > 0
    ensures var r := SendFileSpec(s, name, 1, mac, attempts);
      var p := PreparedFiles(s.files, name, 1);
      (!r.0 && (r.1.files == p || r.1.files == s.files)) ||
      (name in p && r.1.files == p[MetaFilename(name) := OffsetRecord(ReadPosition(p[name], ResumeOffset(s.files, name)))] &&
       |r.1.link.sent| >= |s.link.sent| + 1 + |Chunks(Tail(p[name], ResumeOffset(s.files, name)))|)
    ensures var r := SendFileSpec(s, name, 1, mac, attempts);
      var p := PreparedFiles(s.files, name, 1);
      name in p ==>
        var start := ResumeOffset(s.files, name);
        var e := Exchange(s.link, MetaFrame(mac, name, |p[name]|), attempts);
        var c := SendChunks(e.link, s.body, Tail(p[name], start), mac, attempts);
        (MetaFilename(name) in s.files || MetaFilename(name) !in s.unwritable ==>
          (e.ok && !c.ok ==> !r.0 && r.1.files == p)) &&
        (r.0 || (r.1.files != p && r.1.files != s.files) ==>
          e.ok && c.ok && |c.counts| == |Chunks(Tail(p[name], start))| &&
          r.1.files == p[MetaFilename(name) := OffsetRecord(ReadPosition(p[name], start))])
    ensures var r := SendFileSpec(s, name, 1, mac, attempts);
      var p := PreparedFiles(s.files, name, 1);
      (r.0 || (r.1.files != p && r.1.files != s.files)) ==> name in p
  {
    var meta := MetaFilename(name);
    var p := PreparedFiles(s.files, name, 1);
    var r := SendFileSpec(s, name, 1, mac, attempts);
    if meta !in s.files && meta in s.unwritable {
      assert r == (false, s);
    } else if name !in p {
      assert r.1.files == p && !r.0;
    } else {
      var data := p[name];
      var start := ResumeOffset(s.files, name);
      var s1 := s.(files := p);
      var e := Exchange(s.link, MetaFrame(mac, name, |data|), attempts);
      ExchangeBounded(s.link, MetaFrame(mac, name, |data|), attempts);
      if !e.ok {
        assert r == (false, s1.(link := e.link));
      } else {
        var s2 := s1.(link := e.link);
        assert r == SendBody(s2, name, 1, data, start, mac, attempts);
        SendBodyOffset(s2, name, data, start, mac, attempts);
      }
    }
  }

  /** `after` extends `before` with frames none of which is FILE_END. */
  predicate NoEndAppended(before: seq<Message>, after: seq<Message>)
  {
    |before| <= |after| && after[..|before|] == before &&
    forall i :: |before| <= i < |after| ==> !after[i].FileEnd?
  }

  /** With the resume-offset file unwritable, the chunk loop and write-back fail and send no FILE_END. */
  lemma SendBodyUnwritable(s: SenderState, name: string, data: seq<Byte>, start: nat, mac: seq<Byte>, attempts: nat)
    requires IsMac(mac) && |s.body| == CHUNK_SIZE && MetaFilename(name) in s.unwritable
    ensures var r := SendBody(s, name, 1, data, start, mac, attempts);
      !r.0 && r.1.files == s.files && NoEndAppended(s.link.sent, r.1.link.sent)
  {
    var c := SendChunks(s.link, s.body, Tail(data, start), mac, attempts);
    ChunksSentInOrder(s.link, s.body, Tail(data, start), mac, attempts);
    var fs := ChunkFrames(s.body, Tail(data, start), mac);
    ChunkFramesCarryChunks(s.body, Tail(data, start), mac);
    ExpandMembers(fs[..|c.counts|], c.counts);
    var more := Expand(fs[..|c.counts|], c.counts);
    forall i | |s.link.sent| <= i < |c.link.sent|
      ensures !c.link.sent[i].FileEnd?
    {
      assert c.link.sent[i] == more[i - |s.link.sent|];
      assert more[i - |s.link.sent|] in fs[..|c.counts|];
    }
  }

  /**
   * A sync pass whose resume-offset file exists but cannot be rewritten never sends FILE_END,
   * whatever the replies, and leaves the card unchanged.
   */
  lemma UnwritableOffsetSkipsEnd(s: SenderState, name: string, mac: seq<Byte>, attempts: nat)
    requires IsMac(mac) && IsOctets(name) && |s.body| == CHUNK_SIZE
    requires MetaFilename(name) in s.files && MetaFilename(name) in s.unwritable
    ensures var r := SendFileSpec(s, name, 1, mac, attempts);
      !r.0 && r.1.files == s.files && NoEndAppended(s.link.sent, r.1.link.sent)
  {
    assert PreparedFiles(s.files, name, 1) == s.files;
    if name in s.files {
      var data := s.files[name];
      var mf := MetaFrame(mac, name, |data|);
      var e := Exchange(s.link, mf, attempts);
      ExchangeBounded(s.link, mf, attempts);
      assert NoEndAppended(s.link.sent, e.link.sent);
      var s2 := s.(link := e.link);
      if e.ok {
        var r := SendBody(s2, name, 1, data, ResumeOffset(s.files, name), mac, attempts);
        assert SendFileSpec(s, name, 1, mac, attempts) == r;
        SendBodyUnwritable(s2, name, data, ResumeOffset(s.files, name), mac, attempts);
        NoEndAppendedChain(s.link.sent, e.link.sent, r.1.link.sent);
      } else {
        assert SendFileSpec(s, name, 1, mac, attempts) == (false, s2);
      }
    } else {
      assert SendFileSpec(s, name, 1, mac, attempts) == (false, s);
    }
  }

  /** Two stretches of frames without FILE_END make one. */
  lemma NoEndAppendedChain(a: seq<Message>, b: seq<Message>, c: seq<Message>)
    requires NoEndAppended(a, b) && NoEndAppended(b, c)
    ensures NoEndAppended(a, c)
  {
    assert c[..|a|] == b[..|a|];
    forall i | |a| <= i < |c|
      ensures !c[i].FileEnd?
    {
      if i < |b| {
        assert c[i] == c[..|b|][i] == b[i];
      }
    }
  }

  /**
   * Resumption: after a sync pass that completed, the next pass starts where this one ended, so
   * when the file has only grown it sends exactly the bytes appended since.
   */
  lemma SyncResumesAtEnd(s: SenderState, name: string, mac: seq<Byte>, attempts: nat, more: seq<Byte>)
    requires IsMac(mac) && IsOctets(name) && |s.body| == CHUNK_SIZE && attempts > 0
    requires MetaFilename(name) != name
    requires name in s.files && ResumeOffset(s.files, name) <= |s.files[name]| < 0x8000_0000
    ensures var r := SendFileSpec(s, name, 1, mac, attempts);
      r.0 ==> (name in r.1.files && r.1.files[name] == s.files[name] &&
        ResumeOffset(r.1.files, name) == |s.files[name]| &&
        Tail(r.1.files[name] + more, ResumeOffset(r.1.files, name)) == more)
  {
    var p := PreparedFiles(s.files, name, 1);
    SyncOffsetOnlyAfterAllChunks(s, name, mac, attempts);
    assert p[name] == s.files[name];
    ResumeFromRecord(p, name, s.files[name], ResumeOffset(s.files, name), more);
  }

  /** The card after a completed sync pass: the file as it was, and its size as the resume offset. */
  lemma ResumeFromRecord(p: map<string, seq<Byte>>, name: string, data: seq<Byte>, start: nat, more: seq<Byte>)
    requires MetaFilename(name) != name && name in p && p[name] == data
    requires start <= |data| < 0x8000_0000
    ensures var f := p[MetaFilename(name) := OffsetRecord(ReadPosition(data, start))];
      name in f && f[name] == data && ResumeOffset(f, name) == |data| &&
      Tail(f[name] + more, ResumeOffset(f, name)) == more
  {
    assert ReadPosition(data, start) == |data|;
    ResumeOffsetOfRecord(p, name, |data|);
  }

  /** The globals of a sending node: its address, the radio link with the ACK/REJ counters, the SD card and the FILE_BODY buffer. */
  class Sender {
    const mac: seq<Byte>          // MAC_ADDRESS_STA
    const maxAttempts: nat        // MAX_ATTEMPS
    var sent: seq<Message>
    var ackCount: int             // ack_count
    var rejCount: int             // rej_count
    var replies: seq<Reply>
    var files: map<string, seq<Byte>>
    var unwritable: set<string>
    const body: array<Byte>       // file_body.data
    var bodyLen: Byte             // file_body.len

    ghost predicate Valid()
      reads this
    {
      IsMac(mac) && body.Length == CHUNK_SIZE
    }

    function Link(): LinkState
      reads this
    {
      LinkState(sent, ackCount, rejCount, replies)
    }

    function State(): SenderState
      reads this, body
    {
      SenderState(Link(), files, unwritable, body[..])
    }

    constructor (mac: seq<Byte>, maxAttempts: nat, files: map<string, seq<Byte>>, unwritable: set<string>, replies: seq<Reply>)
      requires IsMac(mac)
      ensures Valid() && fresh(body)
      ensures this.mac == mac && this.maxAttempts == maxAttempts
      ensures State() == SenderState(LinkState([], 0, 0, replies), files, unwritable, seq(CHUNK_SIZE, _ => 0))
    {
      this.mac := mac;
      this.maxAttempts := maxAttempts;
      sent, ackCount, rejCount := [], 0, 0;
      this.replies := replies;
      this.files := files;
      this.unwritable := unwritable;
      body := new Byte[CHUNK_SIZE](_ => 0);
      bodyLen := 0;
    }

    /** `sendLoraMessage`, and the receive context counting the peer's answer. */
    method SendLoraMessage(m: Message)
      modifies this`sent, this`ackCount, this`rejCount, this`replies
      ensures Link() == Transmit(old(Link()), m)
    {
      sent := sent + [m];
      if replies != [] {
        var reply := replies[0];
        replies := replies[1..];
        if reply == AckReply {
          ackCount := ackCount + 1;
        } else if reply == RejReply {
          rejCount := rejCount + 1;
        }
      }
    }

    /** `waitForAck`: a pending ACK is taken first, then a pending REJ; with neither, TIMEOUT and nothing consumed. */
    method WaitForAck() returns (res: MessageType)
      modifies this`ackCount, this`rejCount
      ensures old(ackCount) != 0 ==> res == ACK && ackCount == old(ackCount) - 1 && rejCount == old(rejCount)
      ensures old(ackCount) == 0 && old(rejCount) != 0 ==> res == REJ && ackCount == 0 && rejCount == old(rejCount) - 1
      ensures old(ackCount) == 0 && old(rejCount) == 0 ==> res == TIMEOUT && ackCount == 0 && rejCount == 0
    {
      if ackCount != 0 {
        ackCount := ackCount - 1;
        return ACK;
      }
      if rejCount != 0 {
        rejCount := rejCount - 1;
        return REJ;
      }
      return TIMEOUT;
    }

    /** The retry loop shared by `sendMetadata`, `sendChunk` and `sendEndOfTransfer`. */
    method SendWithRetries(m: Message) returns (ok: bool)
      modifies this`sent, this`ackCount, this`rejCount, this`replies
      ensures var e := Exchange(old(Link()), m, maxAttempts); ok == e.ok && Link() == e.link
    {
      ghost var goal := Exchange(Link(), m, maxAttempts);
      var attempts := 0;
      while attempts < maxAttempts
        invariant 0 <= attempts <= maxAttempts
        invariant var e := Exchange(Link(), m, maxAttempts - attempts); e.ok == goal.ok && e.link == goal.link
      {
        SendLoraMessage(m);
        var res := WaitForAck();
        if res == ACK {
          return true;
        } else {
          if res == REJ {
            return false;
          }
          attempts := attempts + 1;
        }
      }
      return false;
    }

    method SendMetadata(name: string, size: nat) returns (ok: bool)
      requires Valid() && IsOctets(name)
      modifies this`sent, this`ackCount, this`rejCount, this`replies
      ensures var e := Exchange(old(Link()), MetaFrame(mac, name, size), maxAttempts); ok == e.ok && Link() == e.link
    {
      ok := SendWithRetries(MetaFrame(mac, name, size));
    }

    method SendChunk() returns (ok: bool)
      modifies this`sent, this`ackCount, this`rejCount, this`replies
      ensures var e := Exchange(old(Link()), FileBody(mac, body[..], bodyLen), maxAttempts); ok == e.ok && Link() == e.link
    {
      ok := SendWithRetries(FileBody(mac, body[..], bodyLen));
    }

    method SendEndOfTransfer() returns (ok: bool)
      modifies this`sent, this`ackCount, this`rejCount, this`replies
      ensures var e := Exchange(old(Link()), FileEnd(mac), maxAttempts); ok == e.ok && Link() == e.link
    {
      ok := SendWithRetries(FileEnd(mac));
    }

    /** The read-and-send loop of `sendFile` after `file.seek(start)`: it stops at the end of the file or at the first chunk not acknowledged. */
    method SendChunksFrom(data: seq<Byte>, start: nat) returns (ok: bool, position: nat)
      requires Valid()
      modifies this`sent, this`ackCount, this`rejCount, this`replies, this`bodyLen, body
      ensures var c := SendChunks(old(Link()), old(body[..]), Tail(data, start), mac, maxAttempts);
        ok == c.ok && Link() == c.link && body[..] == c.body
      ensures ok ==> position == if start <= |data| then |data| else start
    {
      position := start;
      ghost var goal := SendChunks(Link(), body[..], Tail(data, start), mac, maxAttempts);
      while true
        invariant start <= |data| ==> start <= position <= |data|
        invariant start > |data| ==> position == start
        invariant var c := SendChunks(Link(), body[..], Tail(data, position), mac, maxAttempts);
          c.ok == goal.ok && c.link == goal.link && c.body == goal.body
        decreases |Tail(data, position)|
      {
        ghost var rest := Tail(data, position);
        ghost var buf := body[..];
        var n := ChunkLen(Tail(data, position));
        forall i | 0 <= i < n {
          body[i] := data[position + i];
        }
        bodyLen := n;
        assert body[..] == rest[..n] + buf[n..];
        if n == 0 {
          return true, position;
        }
        ChunkStep(Link(), buf, rest, mac, maxAttempts);
        ok := SendChunk();
        if !ok {
          return false, position;
        }
        position := position + n;
        assert Tail(data, position) == rest[n..];
      }
    }

    /**
     * The rest of `sendFile` after an acknowledged FILE_META: in modes 0 and 1 the chunks from
     * `start` and, in mode 1, the new offset written back; then FILE_END.
     */
    method FinishFile(name: string, mode: int, data: seq<Byte>, start: nat) returns (ok: bool)
      requires Valid()
      modifies this, body
      ensures Valid()
      ensures (ok, State()) == if mode != 0 && mode != 1 then SendEnd(old(State()), mac, maxAttempts)
        else SendBody(old(State()), name, mode, data, start, mac, maxAttempts)
    {
      if mode == 0 || mode == 1 {
        var position;
        ok, position := SendChunksFrom(data, start);
        if !ok {
          return false;
        }
        if mode == 1 {
          var currentPosition := ToI32(position);
          if MetaFilename(name) in unwritable {
            return false;
          }
          files := files[MetaFilename(name) := OffsetRecord(currentPosition)];
        }
      }
      ok := SendEndOfTransfer();
    }

    /** `sendFile`: the node's file, announced, sent chunk by chunk from the start offset, and closed with FILE_END. */
    method SendFile(name: string, mode: int) returns (ok: bool)
      requires Valid() && IsOctets(name)
      modifies this, body
      ensures Valid()
      ensures (ok, State()) == SendFileSpec(old(State()), name, mode, mac, maxAttempts)
    {
      var meta := MetaFilename(name);
      var lastSentPosition: nat := 0;
      if mode == 1 {
        if meta !in files {
          if meta in unwritable {
            return false;
          }
          files := files[meta := OffsetRecord(0)];
        } else {
          lastSentPosition := ToU32(ParseInt(Chars(files[meta])));
        }
      }
      if name !in files {
        return false;
      }
      var data := files[name];
      ok := SendMetadata(name, |data|);
      if !ok {
        return false;
      }
      ok := FinishFile(name, mode, data, lastSentPosition);
    }
  }
}
