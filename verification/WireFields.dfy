/** What the fields of requests and responses carry across the wire. */
module WireFields {
  import opened Types
  import opened Words
  import opened Protocol
  import opened WireReader

  // ---- fixed-size text ----

  lemma {:induction false} CStringOfPadded(s: Bytes, k: nat)
    ensures CString(s + Zeros(k)) == CString(s)
  {
    if s == [] {
      assert s + Zeros(k) == Zeros(k);
    } else {
      assert (s + Zeros(k))[1..] == s[1..] + Zeros(k);
      CStringOfPadded(s[1..], k);
    }
  }

  lemma {:induction false} CStringOfNulFree(s: Bytes)
    requires NulFree(s)
    ensures CString(s) == s
  {
    if s != [] {
      assert NulFree(s[1..]) by {
        forall i | 0 <= i < |s[1..]| ensures s[1..][i] != 0 { assert s[1..][i] == s[i + 1]; }
      }
      CStringOfNulFree(s[1..]);
    }
  }

  /** A text field is read back up to its first NUL or its last byte, which is always a NUL. */
  lemma FixedStringReads(s: Bytes, size: nat)
    requires size > 0
    ensures CString(FixedString(s, size)) == CString(Take(s, size - 1))
    ensures NulFree(s) ==> CString(FixedString(s, size)) == Take(s, size - 1)
    ensures FixedString(s, size)[size - 1] == 0
  {
    CStringOfPadded(Take(s, size - 1), size - Min(|s|, size - 1));
    if NulFree(s) {
      CStringOfNulFree(Take(s, size - 1));
    }
  }

  lemma {:induction false} CStringIsPrefix(s: Bytes)
    ensures |CString(s)| <= |s| && CString(s) == s[..|CString(s)|] && NulFree(CString(s))
    ensures |CString(s)| < |s| ==> s[|CString(s)|] == 0
  {
    if s != [] && s[0] != 0 {
      CStringIsPrefix(s[1..]);
    }
  }

  /** A name comes back whole exactly when it has no NUL and leaves room for the terminator. */
  lemma NameSurvives(name: Bytes)
    ensures CString(FixedString(name, NAME_FIELD_SIZE)) == name <==> NulFree(name) && |name| <= 254
  {
    FixedStringReads(name, NAME_FIELD_SIZE);
    if CString(FixedString(name, NAME_FIELD_SIZE)) == name {
      CStringIsPrefix(Take(name, NAME_FIELD_SIZE - 1));
    }
  }

  // ---- requests ----

  /** The request a well-formed frame stands for. */
  function RequestOf(f: Frame): Option<Request> {
    var p := f.payload;
    if f.code == 825 && |p| == 255 then Some(Registration(CString(p)))
    else if f.code == 826 && |p| == 415 then Some(PublicKey(f.id, CString(p[..255]), p[255..]))
    else if f.code == 827 && |p| == 255 then Some(Reconnect(f.id, CString(p)))
    else if f.code == 828 && |p| >= 267 && ReadU32LE(p[..4]) == |p| - 267 then
      Some(SendFile(f.id, ReadU32LE(p[4..8]), ReadU16LE(p[8..10]), ReadU16LE(p[10..12]), CString(p[12..267]), p[267..]))
    else if f.code == 900 && |p| == 255 then Some(CrcStatus(f.id, CrcValid, CString(p)))
    else if f.code == 901 && |p| == 255 then Some(CrcStatus(f.id, CrcInvalidRetry, CString(p)))
    else if f.code == 902 && |p| == 255 then Some(CrcStatus(f.id, CrcInvalidAbort, CString(p)))
    else None
  }

  function ReadText(s: Bytes): Bytes {
    CString(Take(s, 254))
  }

  /** What the fixed fields keep of a request. */
  function Kept(r: Request): Request {
    match r
    case Registration(name) => Registration(ReadText(name))
    case PublicKey(id, name, key) => PublicKey(id, ReadText(name), Padded(key, PUBLIC_KEY_SIZE, PUBLIC_KEY_SIZE))
    case Reconnect(id, name) => Reconnect(id, ReadText(name))
    case SendFile(id, orig, num, total, fileName, content) =>
      SendFile(id, orig, num, total, ReadText(fileName), content)
    case CrcStatus(id, verdict, fileName) => CrcStatus(id, verdict, ReadText(fileName))
  }

  lemma FileFields(size: uint32, orig: uint32, num: uint16, total: uint16, name: Bytes, content: Bytes, p: Bytes)
    requires |name| == 255
    requires p == U32LE(size) + U32LE(orig) + U16LE(num) + U16LE(total) + name + content
    ensures |p| == 267 + |content| && p[12..267] == name && p[267..] == content
    ensures ReadU32LE(p[..4]) == size && ReadU32LE(p[4..8]) == orig
    ensures ReadU16LE(p[8..10]) == num && ReadU16LE(p[10..12]) == total
  {
    assert p[..4] == U32LE(size) && p[4..8] == U32LE(orig);
    assert p[8..10] == U16LE(num) && p[10..12] == U16LE(total);
    U32RoundTrip(size);
    U32RoundTrip(orig);
    U16RoundTrip(num);
    U16RoundTrip(total);
  }

  lemma FileReads(r: Request)
    requires r.SendFile? && Fits(r)
    ensures RequestOf(FrameOf(r)) == Some(Kept(r))
  {
    hide U32LE, U16LE, ReadU32LE, ReadU16LE, FixedString, CString;
    var size := Narrow(|r.content|);
    FileFields(size, r.origSize, r.packetNum, r.totalPackets, FixedString(r.fileName, 255), r.content, PayloadOf(r));
    FixedStringReads(r.fileName, 255);
  }

  /** Every field of a request that fits is recovered from its frame, up to what the fields can hold. */
  lemma FieldsRead(r: Request)
    requires Fits(r)
    ensures RequestOf(FrameOf(r)) == Some(Kept(r))
  {
    hide CString, FixedString, Padded, Fits;
    match r
    case SendFile(_, _, _, _, _, _) => FileReads(r);
    case Registration(name) => FixedStringReads(name, NAME_FIELD_SIZE);
    case Reconnect(_, name) => FixedStringReads(name, NAME_FIELD_SIZE);
    case CrcStatus(_, _, fileName) => FixedStringReads(fileName, FILE_NAME_FIELD_SIZE);
    case PublicKey(_, name, key) =>
      FixedStringReads(name, NAME_FIELD_SIZE);
      var p := PayloadOf(r);
      assert p[..255] == FixedString(name, NAME_FIELD_SIZE);
      assert p[255..] == Padded(key, PUBLIC_KEY_SIZE, PUBLIC_KEY_SIZE);
  }

  // ---- responses ----

  function EncodeHeader(h: ResponseHeader): (b: Bytes)
    ensures |b| == 7
  {
    [h.version] + U16LE(h.code) + U32LE(h.payloadSize)
  }

  /** A 1603 payload; its name may fill the whole field. */
  function EncodeFileCrc(r: FileCrcResponse): Bytes {
    r.id + U32LE(r.contentSize) + Padded(r.fileName, 255, 255) + U32LE(r.cksum)
  }

  lemma HeaderReads(h: ResponseHeader, tail: Bytes)
    ensures ParseHeader(EncodeHeader(h) + tail) == Some(h)
  {
    var b := EncodeHeader(h) + tail;
    assert b[1..][..2] == U16LE(h.code);
    assert b[3..][..4] == U32LE(h.payloadSize);
    U16RoundTrip(h.code);
    U32RoundTrip(h.payloadSize);
  }

  lemma HeaderRereads(b: Bytes)
    requires |b| == 7
    ensures EncodeHeader(ParseHeader(b).value) == b
  {
    U16Reread(b[1..3]);
    U32Reread(b[3..7]);
    assert b[1..3][0] == b[1..][0] && b[1..3][1] == b[1..][1];
    assert b == [b[0]] + b[1..3] + b[3..7];
  }

  lemma FileCrcReads(r: FileCrcResponse)
    requires |r.fileName| <= 255 && NulFree(r.fileName)
    ensures ParseFileCrc(EncodeFileCrc(r)) == Some(r)
  {
    var p := EncodeFileCrc(r);
    var name := Padded(r.fileName, 255, 255);
    assert p[..16] == r.id && p[16..20] == U32LE(r.contentSize);
    assert p[20..275] == name && p[275..279] == U32LE(r.cksum);
    U32RoundTrip(r.contentSize);
    U32RoundTrip(r.cksum);
    assert Take(r.fileName, 255) == r.fileName;
    CStringOfPadded(r.fileName, 255 - |r.fileName|);
    CStringOfNulFree(r.fileName);
  }

  /** Re-encoding a parsed 1603 payload changes nothing but the bytes after the name's first NUL. */
  lemma FileCrcRereads(p: Bytes, i: nat)
    requires |p| == CRC_PAYLOAD_SIZE && i < CRC_PAYLOAD_SIZE
    ensures
      var n := 20 + |FileCrcOf(p).fileName|;
      var q := EncodeFileCrc(FileCrcOf(p));
      |q| == CRC_PAYLOAD_SIZE && q[i] == if n < i < 275 then 0 else p[i]
  {
    var r := FileCrcOf(p);
    CStringIsPrefix(p[20..275]);
    U32Reread(p[16..20]);
    U32Reread(p[275..279]);
    var name := Padded(r.fileName, 255, 255);
    var q := EncodeFileCrc(r);
    assert q[..16] == p[..16] && q[16..20] == p[16..20] && q[275..279] == p[275..279];
    assert q[20..275] == name;
    if i < 16 {
      assert q[..16][i] == p[..16][i];
    } else if i < 20 {
      assert q[16..20][i - 16] == p[16..20][i - 16];
    } else if i < 275 {
      assert q[i] == name[i - 20] && p[i] == p[20..275][i - 20];
    } else {
      assert q[275..279][i - 275] == p[275..279][i - 275];
    }
  }

  lemma ClientIdReads(id: ClientId, key: Bytes)
    ensures ParseClientId(id) == Some(id)
    ensures ParseAesKey(id + key) == Some(AesKeyResponse(id, key))
  {
    assert id[..16] == id && (id + key)[..16] == id && (id + key)[16..] == key;
  }

  // ---- every byte of a field ----

  /** Byte i of a text field is the text's, as far as that leaves the last byte free, and NUL from there on. */
  lemma FixedStringAt(s: Bytes, size: nat, i: nat)
    requires i < size
    ensures FixedString(s, size)[i] == if i < |s| && i < size - 1 then s[i] else 0
  {
  }

  /** Byte i of the key field of 826 is the key's, and NUL after it. */
  lemma KeyFieldAt(id: ClientId, name: Bytes, key: Bytes, i: nat)
    requires i < 160
    ensures |PayloadOf(PublicKey(id, name, key))| == 415
    ensures PayloadOf(PublicKey(id, name, key))[255 + i] == if i < |key| then key[i] else 0
  {
    hide FixedString;
    var p := PayloadOf(PublicKey(id, name, key));
    assert p[255 + i] == Padded(key, PUBLIC_KEY_SIZE, PUBLIC_KEY_SIZE)[i];
  }

  // ---- the sizes of responses ----

  /** The size a code is expected with is that of its fields: identifier, encrypted key, or a whole report. */
  lemma ExpectedSizes(id: ClientId, key: Bytes, report: FileCrcResponse, code: uint16, size: nat)
    requires |key| == 128 && |report.fileName| <= 255
    ensures ExpectedPayloadSize(code) == Some(size) <==>
      || (code in {1600, 1604, 1606} && size == |id|)
      || (code in {1602, 1605} && size == |id + key|)
      || (code == 1603 && size == |EncodeFileCrc(report)|)
      || (code in {1601, 1607} && size == 0)
  {
    hide U32LE, Padded;
  }
}
