/** What one request and one response can do to a session. */
module SessionFacts {
  import opened Types
  import opened Protocol
  import opened Session
  import opened WireFields

  // ---- reading a trace ----

  /** The requests that were sent whole. */
  function Requests(events: seq<Event>): seq<Request> {
    if events == [] then []
    else
      var last := events[|events| - 1];
      Requests(events[..|events| - 1]) + if last.Sent? then [last.request] else []
  }

  /** The responses that were accepted. */
  function Responses(events: seq<Event>): seq<ServerResponse> {
    if events == [] then []
    else
      var last := events[|events| - 1];
      Responses(events[..|events| - 1]) + if last.Accepted? then [last.response] else []
  }

  /** A response as it came over the wire. */
  function FrameBytes(r: ServerResponse): Bytes {
    EncodeHeader(r.header) + r.payload
  }

  function Frames(rs: seq<ServerResponse>): Bytes {
    if rs == [] then [] else Frames(rs[..|rs| - 1]) + FrameBytes(rs[|rs| - 1])
  }

  predicate WellSized(r: ServerResponse) {
    r.header.payloadSize == |r.payload| && ExpectedPayloadSize(r.header.code) == Some(|r.payload|)
  }

  lemma {:induction false} RequestsAppend(a: seq<Event>, b: seq<Event>)
    ensures Requests(a + b) == Requests(a) + Requests(b)
    decreases |b|
  {
    if b == [] {
      assert a + b == a;
    } else {
      RequestsAppend(a, b[..|b| - 1]);
      assert (a + b)[..|a + b| - 1] == a + b[..|b| - 1];
    }
  }

  lemma {:induction false} ResponsesAppend(a: seq<Event>, b: seq<Event>)
    ensures Responses(a + b) == Responses(a) + Responses(b)
    decreases |b|
  {
    if b == [] {
      assert a + b == a;
    } else {
      ResponsesAppend(a, b[..|b| - 1]);
      assert (a + b)[..|a + b| - 1] == a + b[..|b| - 1];
    }
  }

  lemma {:induction false} EncodeAllAppend(a: seq<Request>, b: seq<Request>)
    ensures EncodeAll(a + b) == EncodeAll(a) + EncodeAll(b)
    decreases |b|
  {
    hide Encode;
    if b == [] {
      assert a + b == a;
    } else {
      EncodeAllAppend(a, b[..|b| - 1]);
      assert (a + b)[..|a + b| - 1] == a + b[..|b| - 1];
    }
  }

  lemma {:induction false} FramesAppend(a: seq<ServerResponse>, b: seq<ServerResponse>)
    ensures Frames(a + b) == Frames(a) + Frames(b)
    decreases |b|
  {
    hide FrameBytes;
    if b == [] {
      assert a + b == a;
    } else {
      FramesAppend(a, b[..|b| - 1]);
      assert (a + b)[..|a + b| - 1] == a + b[..|b| - 1];
    }
  }

  // ---- the laws every step keeps ----

  predicate Bad(e: Event) {
    e.SendFailed? || e.Refused? || e.SaveFailed?
  }

  /** Nothing at all happens after a failed send, a refused response or a failed save, and the step fails. */
  ghost predicate StopsAtFailure(events: seq<Event>, ok: bool) {
    forall i :: 0 <= i < |events| && Bad(events[i]) ==> i == |events| - 1 && !ok
  }

  /** The bytes written are whole packets, then at most a part of the packet whose send failed last. */
  ghost predicate WireLaw(before: Bytes, events: seq<Event>, after: Bytes) {
    exists part: Bytes :: PartialPacket(part, events) && after == before + EncodeAll(Requests(events)) + part
  }

  predicate PartialPacket(part: Bytes, events: seq<Event>) {
    part == [] ||
    (events != [] && events[|events| - 1].SendFailed? && part <= Encode(events[|events| - 1].request))
  }

  /** The bytes read are the accepted frames, then those of the response that was refused last, if one was. */
  ghost predicate ReadLaw(before: Bytes, events: seq<Event>, after: Channel) {
    && (forall i :: 0 <= i < |events| && events[i].Accepted? ==> WellSized(events[i].response))
    && exists extra: Bytes ::
      LeftUnaccepted(extra, events, after.open) && after.consumed == before + Frames(Responses(events)) + extra
  }

  predicate EndsRefused(events: seq<Event>) {
    events != [] && events[|events| - 1].Refused?
  }

  /** A refused response is one whole frame on an open socket, or was cut short and closed it. */
  ghost predicate LeftUnaccepted(extra: Bytes, events: seq<Event>, open: bool) {
    if !EndsRefused(events) then extra == []
    else if open then exists r :: WellSized(r) && extra == FrameBytes(r)
    else CutShort(extra)
  }

  /** Less than a header; or a header that its code or size rules out; or a good header and less than its payload. */
  predicate CutShort(extra: Bytes) {
    |extra| < RESPONSE_HEADER_SIZE ||
    var h := ParseHeader(extra).value;
    if ExpectedPayloadSize(h.code) == Some(h.payloadSize) then |extra| < RESPONSE_HEADER_SIZE + h.payloadSize
    else |extra| == RESPONSE_HEADER_SIZE
  }

  /** A header of an unknown code, or of another size than its code's. */
  predicate BadHeader(b: Bytes) {
    |b| == RESPONSE_HEADER_SIZE &&
    var h := ParseHeader(b).value;
    ExpectedPayloadSize(h.code) != Some(h.payloadSize)
  }

  /** An open socket is closed only by refusing a response, when the line has no more to give or after a bad header. */
  predicate OpenLaw(before: Channel, events: seq<Event>, after: Channel) {
    before.open && !after.open ==>
      && EndsRefused(events)
      && (after.incoming == [] ||
          (|after.consumed| >= RESPONSE_HEADER_SIZE &&
           BadHeader(after.consumed[|after.consumed| - RESPONSE_HEADER_SIZE..])))
  }

  /** No byte the server delivers is lost or read twice. */
  predicate Conserved(before: Channel, after: Channel) {
    before.consumed + before.incoming == after.consumed + after.incoming
  }

  ghost predicate Lawful(s: State, events: seq<Event>, ok: bool, s': State) {
    && StopsAtFailure(events, ok)
    && OpenLaw(s.channel, events, s'.channel)
    && Conserved(s.channel, s'.channel)
    && WireLaw(s.channel.wire, events, s'.channel.wire)
    && ReadLaw(s.channel.consumed, events, s'.channel)
  }

  lemma LawfulNothing(s: State, s': State, ok: bool)
    requires s'.channel == s.channel
    ensures Lawful(s, [], ok, s')
  {
    assert PartialPacket([], []) && LeftUnaccepted([], [], s'.channel.open);
  }

  /** A step that neither sends nor reads. */
  lemma LawfulNote(s: State, e: Event, ok: bool, s': State)
    requires s'.channel == s.channel
    requires e.CredentialsSaved? || e.CredentialsRemoved? || e.FileStarted? || (e.SaveFailed? && !ok)
    ensures Lawful(s, [e], ok, s')
  {
    hide Encode, FrameBytes;
    assert Requests([e]) == Requests([]) && Responses([e]) == Responses([]);
    assert PartialPacket([], [e]) && LeftUnaccepted([], [e], s'.channel.open);
  }

  lemma WireCompose(a: Bytes, e1: seq<Event>, b: Bytes, e2: seq<Event>, c: Bytes)
    requires StopsAtFailure(e1, true) && WireLaw(a, e1, b) && WireLaw(b, e2, c)
    ensures WireLaw(a, e1 + e2, c)
  {
    hide Encode, Requests, EncodeAll;
    var part: Bytes :| PartialPacket(part, e2) && c == b + EncodeAll(Requests(e2)) + part;
    var none: Bytes :| PartialPacket(none, e1) && b == a + EncodeAll(Requests(e1)) + none;
    assert none == [];
    RequestsAppend(e1, e2);
    EncodeAllAppend(Requests(e1), Requests(e2));
    assert part != [] ==> (e1 + e2)[|e1 + e2| - 1] == e2[|e2| - 1];
    assert PartialPacket(part, e1 + e2);
    assert c == a + EncodeAll(Requests(e1 + e2)) + part;
  }

  lemma ReadCompose(a: Bytes, e1: seq<Event>, b: Channel, b': Bytes, e2: seq<Event>, c: Channel)
    requires StopsAtFailure(e1, true) && ReadLaw(a, e1, b) && b' == b.consumed && ReadLaw(b', e2, c)
    ensures ReadLaw(a, e1 + e2, c)
  {
    hide FrameBytes, Responses, Frames, WellSized;
    var extra: Bytes :| LeftUnaccepted(extra, e2, c.open) && c.consumed == b' + Frames(Responses(e2)) + extra;
    var none: Bytes :| LeftUnaccepted(none, e1, b.open) && b' == a + Frames(Responses(e1)) + none;
    assert none == [];
    ResponsesAppend(e1, e2);
    FramesAppend(Responses(e1), Responses(e2));
    assert extra != [] ==> (e1 + e2)[|e1 + e2| - 1] == e2[|e2| - 1];
    assert LeftUnaccepted(extra, e1 + e2, c.open);
    assert c.consumed == a + Frames(Responses(e1 + e2)) + extra;
  }

  /** Lawful steps in sequence are lawful. */
  lemma LawfulThen(s: State, e1: seq<Event>, s1: State, e2: seq<Event>, ok: bool, s2: State)
    requires Lawful(s, e1, true, s1) && Lawful(s1, e2, ok, s2)
    ensures Lawful(s, e1 + e2, ok, s2)
  {
    hide WireLaw, ReadLaw;
    WireCompose(s.channel.wire, e1, s1.channel.wire, e2, s2.channel.wire);
    ReadCompose(s.channel.consumed, e1, s1.channel, s1.channel.consumed, e2, s2.channel);
    forall i | 0 <= i < |e1 + e2| && Bad((e1 + e2)[i]) ensures i == |e1 + e2| - 1 && !ok {
      if i >= |e1| {
        assert Bad(e2[i - |e1|]);
      }
    }
  }

  /** A failure that left no bad event behind is also a lawful failure. */
  lemma LawfulFailure(s: State, e: seq<Event>, s': State)
    requires Lawful(s, e, true, s')
    ensures Lawful(s, e, false, s')
  {
    hide WireLaw, ReadLaw;
  }

  // ---- one request, one response ----

  lemma SendFacts(s: State, r: Request)
    ensures Send(s, r).events == [if Send(s, r).value then Sent(r) else SendFailed(r)]
    ensures Send(s, r).next == s.(channel := Send(s, r).next.channel)
    ensures Send(s, r).next.channel.attempts == s.channel.attempts + 1
    ensures Send(s, r).next.channel.faults == s.channel.faults
  {
    hide Encode;
  }

  lemma SendLawful(s: State, r: Request)
    ensures Lawful(s, Send(s, r).events, Send(s, r).value, Send(s, r).next)
  {
    hide Encode;
    var sent := Send(s, r);
    var part := if sent.value then [] else sent.next.channel.wire[|s.channel.wire|..];
    assert Requests(sent.events) == Requests([]) + if sent.value then [r] else [];
    assert EncodeAll([r]) == EncodeAll([]) + Encode(r);
    assert PartialPacket(part, sent.events);
    assert sent.next.channel.wire == s.channel.wire + EncodeAll(Requests(sent.events)) + part;
    assert Responses(sent.events) == Responses([]);
    assert LeftUnaccepted([], sent.events, s.channel.open);
  }

  /** Nothing is accepted but an expected code with its exact payload size and, where due, our identifier. */
  predicate Acceptable(r: ServerResponse, codes: seq<uint16>, id: ClientId) {
    && r.header.code in codes && WellSized(r)
    && (r.header.code != 1600 && r.header.code != 1606 ==> Take(r.payload, UUID_SIZE) == id)
  }

  lemma ReceiveFacts(s: State, codes: seq<uint16>)
    ensures Receive(s, codes).next == s.(channel := Receive(s, codes).next.channel)
    ensures Receive(s, codes).value.None? ==> Receive(s, codes).events == [Refused]
    ensures Receive(s, codes).value.Some? ==>
      && Receive(s, codes).events == [Accepted(Receive(s, codes).value.value)]
      && Acceptable(Receive(s, codes).value.value, codes, s.id)
    ensures Receive(s, codes).next.channel.attempts == s.channel.attempts
    ensures Receive(s, codes).next.channel.faults == s.channel.faults
  {
  }

  /** How a response is read: all of it, or the socket ends up closed. */
  lemma ReceiveReads(s: State, codes: seq<uint16>)
    ensures Receive(s, codes).next.channel.wire == s.channel.wire
    ensures Receive(s, codes).value.Some? ==> Receive(s, codes).next.channel.open == s.channel.open
    ensures Receive(s, codes).value.Some? ==>
      Receive(s, codes).next.channel.consumed == s.channel.consumed + FrameBytes(Receive(s, codes).value.value)
    ensures Receive(s, codes).value.None? ==>
      exists extra: Bytes ::
        && LeftUnaccepted(extra, [Refused], Receive(s, codes).next.channel.open)
        && Receive(s, codes).next.channel.consumed == s.channel.consumed + extra
  {
    hide EncodeHeader;
    var r := Receive(s, codes);
    var (head, c1) := ChannelReceive(s.channel, RESPONSE_HEADER_SIZE);
    if |head| == 7 {
      HeaderRereads(head);
      var h := ParseHeader(head).value;
      if ExpectedPayloadSize(h.code) == Some(h.payloadSize) {
        var (payload, c2) := ChannelReceive(c1, h.payloadSize);
        if |payload| == h.payloadSize {
          var whole := ServerResponse(h, payload);
          assert WellSized(whole);
          assert c2.consumed == s.channel.consumed + FrameBytes(whole);
          assert LeftUnaccepted(FrameBytes(whole), [Refused], c2.open);
        } else {
          var part := c1.incoming;
          HeaderReads(h, part);
          assert CutShort(head + part) && c2.consumed == s.channel.consumed + (head + part);
          assert LeftUnaccepted(head + part, [Refused], c2.open);
        }
      } else {
        assert CutShort(head);
        assert LeftUnaccepted(head, [Refused], false);
      }
    } else {
      ShortHeader(head);
      var part := c1.consumed[|s.channel.consumed|..];
      assert |part| < 7 && LeftUnaccepted(part, [Refused], c1.open);
    }
  }

  lemma ShortHeader(head: Bytes)
    requires |head| < RESPONSE_HEADER_SIZE
    ensures ParseHeader(head) == None
  {
  }

  /** What is read is taken off the line, and why an open socket is closed. */
  lemma ReceiveConserves(s: State, codes: seq<uint16>)
    ensures Conserved(s.channel, Receive(s, codes).next.channel)
    ensures OpenLaw(s.channel, Receive(s, codes).events, Receive(s, codes).next.channel)
  {
    var (head, c1) := ChannelReceive(s.channel, RESPONSE_HEADER_SIZE);
    HeadConserves(s.channel, RESPONSE_HEADER_SIZE);
    if |head| == 7 {
      var h := ParseHeader(head).value;
      if ExpectedPayloadSize(h.code) == Some(h.payloadSize) {
        HeadConserves(c1, h.payloadSize);
      } else {
        assert BadHeader(head) && c1.consumed[|c1.consumed| - 7..] == head;
      }
    }
  }

  lemma HeadConserves(c: Channel, n: nat)
    ensures Conserved(c, ChannelReceive(c, n).1)
    ensures c.open && !ChannelReceive(c, n).1.open ==> ChannelReceive(c, n).1.incoming == []
  {
    if c.open && n > 0 && |c.incoming| >= n {
      assert c.incoming == c.incoming[..n] + c.incoming[n..];
    }
  }

  lemma ReceiveLawful(s: State, codes: seq<uint16>)
    ensures Lawful(s, Receive(s, codes).events, Receive(s, codes).value.Some?, Receive(s, codes).next)
  {
    hide Receive, FrameBytes, OpenLaw, Conserved;
    ReceiveConserves(s, codes);
    var r := Receive(s, codes);
    ReceiveFacts(s, codes);
    ReceiveReads(s, codes);
    assert Requests(r.events) == Requests([]);
    assert PartialPacket([], r.events);
    assert Responses(r.events) == Responses([]) + if r.value.Some? then [r.value.value] else [];
    if r.value.Some? {
      assert Frames([r.value.value]) == Frames([]) + FrameBytes(r.value.value);
      assert LeftUnaccepted([], r.events, r.next.channel.open);
    } else {
      assert Frames([]) == [];
    }
  }
}
