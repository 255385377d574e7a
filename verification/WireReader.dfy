/** A reader for the request stream and an encoder for responses: the other end of Protocol.cpp. */
module WireReader {
  import opened Types
  import opened Words
  import opened Protocol

  datatype Frame = Frame(id: ClientId, version: uint8, code: uint16, payload: Bytes)

  /** Takes 23 bytes, then as many as their size field says. */
  function ReadFrame(s: Bytes): Option<(Frame, Bytes)> {
    if |s| < REQUEST_HEADER_SIZE then None
    else
      var end := REQUEST_HEADER_SIZE + ReadU32LE(s[19..23]);
      if |s| < end then None
      else Some((Frame(s[..16], s[16], ReadU16LE(s[17..19]), s[23..end]), s[end..]))
  }

  function ReadAll(s: Bytes): Option<seq<Frame>>
    decreases |s|
  {
    if s == [] then Some([])
    else match ReadFrame(s)
      case None => None
      case Some((frame, rest)) =>
        match ReadAll(rest)
        case None => None
        case Some(frames) => Some([frame] + frames)
  }

  function FrameOf(r: Request): Frame {
    Frame(IdOf(r), 3, CodeOf(r), PayloadOf(r))
  }

  /** The file and its 267 bytes of metadata can be counted in 32 bits. */
  predicate Fits(r: Request) {
    r.SendFile? ==> |r.content| + FILE_METADATA_SIZE < 0x1_0000_0000
  }

  // ---- framing ----

  /** The size field counts the payload exactly when the payload's size fits in it. */
  lemma SizeFieldCounts(r: Request)
    ensures SizeField(r) == |PayloadOf(r)| <==> Fits(r)
  {
  }

  lemma HeaderFields(id: ClientId, code: uint16, size: uint32, tail: Bytes, s: Bytes)
    requires s == HeaderBytes(id, code, size) + tail
    ensures |s| == 23 + |tail| && s[..16] == id && s[16] == CLIENT_VERSION && s[23..] == tail
    ensures ReadU16LE(s[17..19]) == code && ReadU32LE(s[19..23]) == size
  {
    assert s[17..19] == U16LE(code);
    assert s[19..23] == U32LE(size);
    U16RoundTrip(code);
    U32RoundTrip(size);
  }

  lemma ReadsBack(id: ClientId, code: uint16, size: uint32, p: Bytes, rest: Bytes, s: Bytes)
    requires s == HeaderBytes(id, code, size) + p + rest && size == |p|
    ensures ReadFrame(s) == Some((Frame(id, CLIENT_VERSION, code, p), rest))
  {
    assert s == HeaderBytes(id, code, size) + (p + rest);
    HeaderFields(id, code, size, p + rest, s);
    assert s[23..23 + |p|] == (p + rest)[..|p|] == p;
    assert s[23 + |p|..] == (p + rest)[|p|..] == rest;
  }

  /** A packet is read back, with the rest of the stream in place, when its size fits. */
  lemma PacketReadsBack(r: Request, rest: Bytes)
    requires Fits(r)
    ensures ReadFrame(Encode(r) + rest) == Some((FrameOf(r), rest))
  {
    SizeFieldCounts(r);
    ReadsBack(IdOf(r), CodeOf(r), SizeField(r), PayloadOf(r), rest, Encode(r) + rest);
  }

  lemma MiscountedSize(id: ClientId, code: uint16, size: uint32, p: Bytes, s: Bytes)
    requires s == HeaderBytes(id, code, size) + p && size != |p|
    ensures ReadFrame(s).None? || ReadFrame(s).value.1 != []
  {
    HeaderFields(id, code, size, p, s);
  }

  /** Alone on the wire, a packet is read back only then. */
  lemma PacketReadsBackExactly(r: Request)
    ensures ReadFrame(Encode(r)) == Some((FrameOf(r), [])) <==> Fits(r)
  {
    SizeFieldCounts(r);
    if Fits(r) {
      PacketReadsBack(r, []);
      assert Encode(r) + [] == Encode(r);
    } else {
      MiscountedSize(IdOf(r), CodeOf(r), SizeField(r), PayloadOf(r), Encode(r));
    }
  }

  lemma {:induction false} EncodeAllFirst(r: Request, rs: seq<Request>)
    ensures EncodeAll([r] + rs) == Encode(r) + EncodeAll(rs)
    decreases |rs|
  {
    hide Encode;
    if rs == [] {
      assert [r] + rs == [r];
      assert EncodeAll([r]) == EncodeAll([]) + Encode(r);
    } else {
      var n := |rs| - 1;
      EncodeAllFirst(r, rs[..n]);
      assert ([r] + rs)[..n + 1] == [r] + rs[..n];
    }
  }

  lemma HeaderComesFirst(r: Request)
    ensures |Encode(r)| >= REQUEST_HEADER_SIZE
  {
  }

  function FramesOf(rs: seq<Request>): seq<Frame> {
    if rs == [] then [] else [FrameOf(rs[0])] + FramesOf(rs[1..])
  }

  /** A stream of packets is read back as exactly those packets. */
  lemma {:induction false} StreamReadsBack(rs: seq<Request>)
    requires forall i :: 0 <= i < |rs| ==> Fits(rs[i])
    ensures ReadAll(EncodeAll(rs)) == Some(FramesOf(rs))
  {
    hide Encode, ReadFrame, FrameOf;
    if rs != [] {
      var r, rest := rs[0], rs[1..];
      assert rs == [r] + rest;
      EncodeAllFirst(r, rest);
      PacketReadsBack(r, EncodeAll(rest));
      HeaderComesFirst(r);
      StreamReadsBack(rest);
    }
  }
}
