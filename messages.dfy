/**
 * The radio frames of the LoRa link (include/lora_init.h): the message-type tags, the
 * fixed-layout structs of file transfer and pairing, and their byte layout. The layout
 * is the packed logical one: tag, then every field in declaration order, multi-byte
 * integers little-endian, no compiler padding.
 */
module Messages {
  import opened Text

  const CHUNK_SIZE: nat := 200
  const ACK_TIMEOUT: nat := 5000
  const MAX_DEVICE_NAME_LEN: nat := 10
  const MAX_FILENAME_LEN: nat := 40
  const MAC_ADDR_LENGTH: nat := 6

  /** The `MessageType` enum; its wire value is the declaration index. */
  datatype MessageType =
    | PAIRING | DATA_VM | DATA_ADC | DATA_I2C | DATA_SAA | FILE_META
    | FILE_BODY | FILE_END | ACK | REJ | TIMEOUT | TIME_SYNC
    | POLL_DATA | POLL_CONFIG | POLL_COMPLETE | APPEND

  /** The `PairingStatus` enum of a node. */
  datatype PairingStatus = NOT_PAIRED | PAIR_REQUEST | PAIR_REQUESTED | PAIR_PAIRED

  /** The enumerators in declaration order. */
  const TYPES: seq<MessageType> :=
    [PAIRING, DATA_VM, DATA_ADC, DATA_I2C, DATA_SAA, FILE_META,
     FILE_BODY, FILE_END, ACK, REJ, TIMEOUT, TIME_SYNC,
     POLL_DATA, POLL_CONFIG, POLL_COMPLETE, APPEND]

  /** The value C gives an enumerator: its position in the declaration. */
  function Ordinal(t: MessageType): Byte
  {
    match t
    case PAIRING => 0      case DATA_VM => 1      case DATA_ADC => 2    case DATA_I2C => 3
    case DATA_SAA => 4     case FILE_META => 5    case FILE_BODY => 6   case FILE_END => 7
    case ACK => 8          case REJ => 9          case TIMEOUT => 10    case TIME_SYNC => 11
    case POLL_DATA => 12   case POLL_CONFIG => 13 case POLL_COMPLETE => 14 case APPEND => 15
  }

  /** The message type a tag byte names, if any. */
  function TypeOf(b: Byte): Option<MessageType>
  {
    if b < |TYPES| then Some(TYPES[b]) else None
  }

  /** Tags are the declaration indices, so every enumerator has its own tag and each tag reads back. */
  lemma TagsFollowDeclarationOrder(t: MessageType, b: Byte)
    ensures TypeOf(Ordinal(t)) == Some(t)
    ensures TypeOf(b).Some? <==> b < 16
    ensures TypeOf(b).Some? ==> Ordinal(TypeOf(b).value) == b
  {
  }

  /** The frames of file transfer and pairing. Character fields are the raw buffers (NUL padded). */
  datatype Message =
    | FileMeta(mac: seq<Byte>, filename: string, filesize: int)
    | FileBody(mac: seq<Byte>, data: seq<Byte>, len: Byte)
    | FileEnd(mac: seq<Byte>)
    | Ack(mac: seq<Byte>)
    | Reject(mac: seq<Byte>)
    | Pairing(macOrigin: seq<Byte>, macMaster: seq<Byte>, pairingKey: int, deviceName: string)

  function TypeOfMessage(m: Message): MessageType
  {
    match m
    case FileMeta(_, _, _) => FILE_META
    case FileBody(_, _, _) => FILE_BODY
    case FileEnd(_) => FILE_END
    case Ack(_) => ACK
    case Reject(_) => REJ
    case Pairing(_, _, _, _) => PAIRING
  }

  predicate IsMac(a: seq<Byte>) { |a| == MAC_ADDR_LENGTH }

  /** Characters that fit a `char` buffer byte. */
  predicate IsOctets(s: string) { forall i :: 0 <= i < |s| ==> s[i] as int < 256 }

  /** The field values a struct can hold: array sizes, `uint32_t` range, and `len <= CHUNK_SIZE`. */
  predicate WellFormed(m: Message)
  {
    match m
    case FileMeta(mac, filename, filesize) =>
      IsMac(mac) && |filename| == MAX_FILENAME_LEN && IsOctets(filename) && 0 <= filesize < TWO_32
    case FileBody(mac, data, len) => IsMac(mac) && |data| == CHUNK_SIZE && len <= CHUNK_SIZE
    case FileEnd(mac) => IsMac(mac)
    case Ack(mac) => IsMac(mac)
    case Reject(mac) => IsMac(mac)
    case Pairing(origin, master, key, name) =>
      IsMac(origin) && IsMac(master) && 0 <= key < TWO_32 &&
      |name| == MAX_DEVICE_NAME_LEN && IsOctets(name)
  }

  /** The number of bytes of each layout. */
  function Size(t: MessageType): nat
  {
    match t
    case FILE_META => 1 + MAC_ADDR_LENGTH + MAX_FILENAME_LEN + 4
    case FILE_BODY => 1 + MAC_ADDR_LENGTH + CHUNK_SIZE + 1
    case PAIRING => 1 + 2 * MAC_ADDR_LENGTH + 4 + MAX_DEVICE_NAME_LEN
    case _ => 1 + MAC_ADDR_LENGTH
  }

  /** The bytes of the received file data a FILE_BODY carries: `data[0..len)`. */
  function Payload(m: Message): (p: seq<Byte>)
    requires m.FileBody? && WellFormed(m)
    ensures |p| == m.len <= CHUNK_SIZE
  {
    m.data[..m.len]
  }

  /** `strncpy` keeps the characters of its source, so a byte string stays one. */
  lemma StrNCopyOctets(src: string, n: nat)
    requires IsOctets(src)
    ensures IsOctets(StrNCopy(src, n))
  {
    var body := Prefix(CStr(src), n);
    assert StrNCopy(src, n) == body + Nuls(n - |body|);
  }

  /** The text `println` writes is plain ASCII. */
  lemma PrintLineOctets(n: int)
    ensures IsOctets(PrintLine(n))
  {
    var d := Decimal(if n < 0 then -n else n);
    assert forall i :: 0 <= i < |d| ==> IsDigit(d[i]);
  }

  function Octets(s: string): (b: seq<Byte>)
    requires IsOctets(s)
    ensures |b| == |s|
  {
    seq(|s|, i requires 0 <= i < |s| => s[i] as int)
  }

  function Chars(b: seq<Byte>): (s: string)
    ensures |s| == |b| && IsOctets(s)
  {
    seq(|b|, i requires 0 <= i < |b| => b[i] as char)
  }

  function EncodeU32(v: int): (b: seq<Byte>)
    requires 0 <= v < TWO_32
    ensures |b| == 4
  {
    [v % 256, (v / 0x100) % 256, (v / 0x1_0000) % 256, v / 0x100_0000]
  }

  function DecodeU32(b: seq<Byte>): (v: int)
    requires |b| == 4
    ensures 0 <= v < TWO_32
  {
    var b0, b1, b2, b3: int := b[0], b[1], b[2], b[3];
    b0 + 0x100 * b1 + 0x1_0000 * b2 + 0x100_0000 * b3
  }

  lemma U32RoundTrip(v: int)
    requires 0 <= v < TWO_32
    ensures DecodeU32(EncodeU32(v)) == v
  {
    var b := EncodeU32(v);
    var b0, b1, b2, b3: int := b[0], b[1], b[2], b[3];
    assert v == b0 + 0x100 * (v / 0x100);
    assert v / 0x100 == b1 + 0x100 * (v / 0x1_0000);
    assert v / 0x1_0000 == b2 + 0x100 * b3;
  }

  lemma U32Bytes(b: seq<Byte>)
    requires |b| == 4
    ensures EncodeU32(DecodeU32(b)) == b
  {
    var v := DecodeU32(b);
    var b0, b1, b2, b3: int := b[0], b[1], b[2], b[3];
    assert v % 256 == b0;
    assert v / 0x100 == b1 + 0x100 * b2 + 0x1_0000 * b3;
    assert v / 0x1_0000 == b2 + 0x100 * b3;
    assert v / 0x100_0000 == b3;
  }

  /** The frame `sendLoraMessage` puts on the air for a struct. */
  function Encode(m: Message): (b: seq<Byte>)
    requires WellFormed(m)
  {
    match m
    case FileMeta(mac, filename, filesize) =>
      [Ordinal(FILE_META)] + mac + Octets(filename) + EncodeU32(filesize)
    case FileBody(mac, data, len) => [Ordinal(FILE_BODY)] + mac + data + [len]
    case FileEnd(mac) => [Ordinal(FILE_END)] + mac
    case Ack(mac) => [Ordinal(ACK)] + mac
    case Reject(mac) => [Ordinal(REJ)] + mac
    case Pairing(origin, master, key, name) =>
      [Ordinal(PAIRING)] + origin + master + EncodeU32(key) + Octets(name)
  }

  /**
   * The struct a receiver copies out of a frame: the tag in byte 0 selects the layout and
   * bytes past its size are ignored. Unknown tags, frames shorter than their layout and a
   * FILE_BODY whose `len` exceeds CHUNK_SIZE read as nothing.
   */
  function Decode(b: seq<Byte>): (r: Option<Message>)
    ensures r.Some? ==> WellFormed(r.value)
    ensures r.Some? ==> |b| >= Size(TypeOfMessage(r.value)) && b[0] == Ordinal(TypeOfMessage(r.value))
  {
    if |b| == 0 then None
    else if b[0] == Ordinal(FILE_META) && |b| >= Size(FILE_META) then
      Some(FileMeta(b[1..7], Chars(b[7..47]), DecodeU32(b[47..51])))
    else if b[0] == Ordinal(FILE_BODY) && |b| >= Size(FILE_BODY) && b[207] <= CHUNK_SIZE then
      Some(FileBody(b[1..7], b[7..207], b[207]))
    else if b[0] == Ordinal(FILE_END) && |b| >= Size(FILE_END) then Some(FileEnd(b[1..7]))
    else if b[0] == Ordinal(ACK) && |b| >= Size(ACK) then Some(Ack(b[1..7]))
    else if b[0] == Ordinal(REJ) && |b| >= Size(REJ) then Some(Reject(b[1..7]))
    else if b[0] == Ordinal(PAIRING) && |b| >= Size(PAIRING) then
      Some(Pairing(b[1..7], b[7..13], DecodeU32(b[13..17]), Chars(b[17..27])))
    else None
  }

  /** Every frame starts with its one-byte tag and has its layout's fixed size. */
  lemma EncodeShape(m: Message)
    requires WellFormed(m)
    ensures |Encode(m)| == Size(TypeOfMessage(m))
    ensures Encode(m)[0] == Ordinal(TypeOfMessage(m))
  {
  }

  lemma CharsOctets(s: string)
    requires IsOctets(s)
    ensures Chars(Octets(s)) == s
  {
  }

  lemma OctetsChars(b: seq<Byte>)
    ensures Octets(Chars(b)) == b
  {
  }

  lemma DecodeEncodeMeta(m: Message, rest: seq<Byte>)
    requires m.FileMeta? && WellFormed(m)
    ensures Decode(Encode(m) + rest) == Some(m)
  {
    var b := Encode(m) + rest;
    EncodeShape(m);
    assert b[0] == Ordinal(FILE_META) && |b| >= Size(FILE_META);
    assert b[1..7] == m.mac;
    assert b[7..47] == Octets(m.filename);
    assert b[47..51] == EncodeU32(m.filesize);
    CharsOctets(m.filename);
    U32RoundTrip(m.filesize);
  }

  lemma DecodeEncodePairing(m: Message, rest: seq<Byte>)
    requires m.Pairing? && WellFormed(m)
    ensures Decode(Encode(m) + rest) == Some(m)
  {
    var b := Encode(m) + rest;
    assert b[1..7] == m.macOrigin;
    assert b[7..13] == m.macMaster;
    assert b[13..17] == EncodeU32(m.pairingKey);
    assert b[17..27] == Octets(m.deviceName);
    CharsOctets(m.deviceName);
    U32RoundTrip(m.pairingKey);
  }

  lemma DecodeEncodeBody(m: Message, rest: seq<Byte>)
    requires m.FileBody? && WellFormed(m)
    ensures Decode(Encode(m) + rest) == Some(m)
  {
    var b := Encode(m) + rest;
    assert b[1..7] == m.mac;
    assert b[7..207] == m.data;
    assert b[207] == m.len;
  }

  lemma DecodeEncodeShort(m: Message, rest: seq<Byte>)
    requires (m.FileEnd? || m.Ack? || m.Reject?) && WellFormed(m)
    ensures Decode(Encode(m) + rest) == Some(m)
  {
    var b := Encode(m) + rest;
    assert b[1..7] == m.mac;
  }

  /** Decoding a frame, with any trailing bytes, gives back the struct that was encoded. */
  lemma DecodeEncode(m: Message, rest: seq<Byte>)
    requires WellFormed(m)
    ensures Decode(Encode(m) + rest) == Some(m)
  {
    if m.FileMeta? {
      DecodeEncodeMeta(m, rest);
    } else if m.FileBody? {
      DecodeEncodeBody(m, rest);
    } else if m.Pairing? {
      DecodeEncodePairing(m, rest);
    } else {
      DecodeEncodeShort(m, rest);
    }
  }

  /** A frame that decodes is exactly the encoding of what it decodes to, up to its layout's size. */
  lemma EncodeDecode(b: seq<Byte>)
    requires Decode(b).Some?
    ensures Encode(Decode(b).value) == b[..Size(TypeOfMessage(Decode(b).value))]
  {
    var m := Decode(b).value;
    match m
    case FileMeta(mac, filename, filesize) =>
      OctetsChars(b[7..47]);
      U32Bytes(b[47..51]);
      assert b[..51] == [b[0]] + b[1..7] + b[7..47] + b[47..51];
    case FileBody(mac, data, len) =>
      assert b[..208] == [b[0]] + b[1..7] + b[7..207] + [b[207]];
    case FileEnd(mac) =>
      assert b[..7] == [b[0]] + b[1..7];
    case Ack(mac) =>
      assert b[..7] == [b[0]] + b[1..7];
    case Reject(mac) =>
      assert b[..7] == [b[0]] + b[1..7];
    case Pairing(origin, master, key, name) =>
      OctetsChars(b[17..27]);
      U32Bytes(b[13..17]);
      assert b[..27] == [b[0]] + b[1..7] + b[7..13] + b[13..17] + b[17..27];
  }

  /** ACK, REJ and FILE_END frames share one shape, tag then address, and differ only in the tag. */
  lemma ShortFramesDifferOnlyInTag(mac: seq<Byte>)
    requires IsMac(mac)
    ensures Encode(Ack(mac))[1..] == Encode(Reject(mac))[1..] == Encode(FileEnd(mac))[1..] == mac
    ensures Encode(Ack(mac))[0] != Encode(Reject(mac))[0]
    ensures Encode(Reject(mac))[0] != Encode(FileEnd(mac))[0]
    ensures Encode(FileEnd(mac))[0] != Encode(Ack(mac))[0]
  {
  }
}
