/** The builders and parsers of Protocol.cpp, growing and scanning buffers in place. */
module PacketBuilder {
  import opened Types
  import opened Words
  import opened Protocol

  /** The vector a packet is built in. */
  class ByteBuffer {
    var bytes: Bytes

    constructor ()
      ensures bytes == []
    {
      bytes := [];
    }

    method PushBack(b: uint8)
      modifies this
      ensures bytes == old(bytes) + [b]
    {
      bytes := bytes + [b];
    }

    method Insert(s: Bytes)
      modifies this
      ensures bytes == old(bytes) + s
    {
      bytes := bytes + s;
    }

    /** resize followed by memcpy of the first count bytes of s into the new part. */
    method GrowAndCopy(s: Bytes, count: nat, size: nat)
      requires count <= |s| && count <= size
      modifies this
      ensures bytes == old(bytes) + s[..count] + Zeros(size - count)
    {
      var offset := |bytes|;
      bytes := bytes + Zeros(size);
      bytes := bytes[..offset] + s[..count] + bytes[offset + count..];
      assert Zeros(size)[count..] == Zeros(size - count);
    }

    method AppendUint16LE(value: uint16)
      modifies this
      ensures bytes == old(bytes) + U16LE(value)
    {
      PushBack(Low(value));
      PushBack(Low(value / 0x100));
    }

    method AppendUint32LE(value: uint32)
      modifies this
      ensures bytes == old(bytes) + U32LE(value)
    {
      PushBack(Low(value));
      PushBack(Low(value / 0x100));
      PushBack(Low(value / 0x1_0000));
      PushBack(Low(value / 0x100_0000));
    }

    method AppendFixedString(s: Bytes, fieldSize: nat)
      requires fieldSize > 0
      modifies this
      ensures bytes == old(bytes) + FixedString(s, fieldSize)
    {
      GrowAndCopy(s, Min(|s|, fieldSize - 1), fieldSize);
    }

    method AppendRequestHeader(id: ClientId, code: uint16, payloadSize: uint32)
      modifies this
      ensures bytes == old(bytes) + HeaderBytes(id, code, payloadSize)
    {
      Insert(id);
      PushBack(CLIENT_VERSION);
      AppendUint16LE(code);
      AppendUint32LE(payloadSize);
    }
  }

  method BuildRegistration(name: Bytes) returns (packet: Bytes)
    ensures packet == Encode(Registration(name))
  {
    var buffer := new ByteBuffer();
    buffer.AppendRequestHeader(ZERO_ID, 825, Narrow(NAME_FIELD_SIZE));
    buffer.AppendFixedString(name, NAME_FIELD_SIZE);
    packet := buffer.bytes;
  }

  method BuildPublicKeyExchange(id: ClientId, name: Bytes, key: Bytes) returns (packet: Bytes)
    ensures packet == Encode(PublicKey(id, name, key))
  {
    var buffer := new ByteBuffer();
    buffer.AppendRequestHeader(id, 826, Narrow(NAME_FIELD_SIZE + PUBLIC_KEY_SIZE));
    buffer.AppendFixedString(name, NAME_FIELD_SIZE);
    buffer.GrowAndCopy(key, Min(|key|, PUBLIC_KEY_SIZE), PUBLIC_KEY_SIZE);
    packet := buffer.bytes;
  }

  lemma Regroup(h: Bytes, a: Bytes, b: Bytes, c: Bytes, d: Bytes, e: Bytes, f: Bytes)
    ensures [] + h + a + b + c + d + e + f == h + (a + b + c + d + e + f)
  {
  }

  method BuildSendFile(id: ClientId, origSize: uint32, packetNum: uint16, totalPackets: uint16,
                       fileName: Bytes, content: Bytes) returns (packet: Bytes)
    ensures packet == Encode(SendFile(id, origSize, packetNum, totalPackets, fileName, content))
  {
    hide U16LE, U32LE, FixedString, HeaderBytes, Narrow;
    var contentSize := Narrow(|content|);
    var buffer := new ByteBuffer();
    buffer.AppendRequestHeader(id, 828, Narrow(FILE_METADATA_SIZE + contentSize));
    buffer.AppendUint32LE(contentSize);
    buffer.AppendUint32LE(origSize);
    buffer.AppendUint16LE(packetNum);
    buffer.AppendUint16LE(totalPackets);
    buffer.AppendFixedString(fileName, FILE_NAME_FIELD_SIZE);
    buffer.Insert(content);
    packet := buffer.bytes;
    Regroup(HeaderBytes(id, 828, Narrow(FILE_METADATA_SIZE + contentSize)), U32LE(contentSize), U32LE(origSize),
            U16LE(packetNum), U16LE(totalPackets), FixedString(fileName, FILE_NAME_FIELD_SIZE), content);
  }

  method BuildCrcStatus(id: ClientId, verdict: Verdict, fileName: Bytes) returns (packet: Bytes)
    ensures packet == Encode(CrcStatus(id, verdict, fileName))
  {
    var buffer := new ByteBuffer();
    buffer.AppendRequestHeader(id, VerdictCode(verdict), Narrow(FILE_NAME_FIELD_SIZE));
    buffer.AppendFixedString(fileName, FILE_NAME_FIELD_SIZE);
    packet := buffer.bytes;
  }

  method BuildReconnect(id: ClientId, name: Bytes) returns (packet: Bytes)
    ensures packet == Encode(Reconnect(id, name))
  {
    var buffer := new ByteBuffer();
    buffer.AppendRequestHeader(id, 827, Narrow(NAME_FIELD_SIZE));
    buffer.AppendFixedString(name, NAME_FIELD_SIZE);
    packet := buffer.bytes;
  }

  /** strnlen: scans at most max bytes for a NUL. */
  method Strnlen(p: Bytes, max: nat) returns (n: nat)
    requires max <= |p|
    ensures n <= max && p[..n] == CString(p[..max])
  {
    n := 0;
    while n < max && p[n] != 0
      invariant n <= max
      invariant CString(p[..max]) == p[..n] + CString(p[n..max])
    {
      assert p[n..max] == [p[n]] + p[n + 1..max];
      n := n + 1;
    }
  }

  method ParseFileCrcPayload(payload: Bytes) returns (r: Option<FileCrcResponse>)
    ensures r == ParseFileCrc(payload)
  {
    if |payload| < CRC_PAYLOAD_SIZE {
      return None;
    }
    var offset := 0;
    var id := payload[offset..offset + UUID_SIZE];
    offset := offset + UUID_SIZE;
    var contentSize := ReadU32LE(payload[offset..offset + 4]);
    offset := offset + 4;
    var nameLen := Strnlen(payload[offset..], FILE_NAME_FIELD_SIZE);
    var fileName := payload[offset..][..nameLen];
    assert payload[offset..][..FILE_NAME_FIELD_SIZE] == payload[20..275];
    offset := offset + FILE_NAME_FIELD_SIZE;
    var cksum := ReadU32LE(payload[offset..offset + 4]);
    r := Some(FileCrcResponse(id, contentSize, fileName, cksum));
  }
}
