/** Against a server that answers properly over a line that holds, the exchange ends as the checksums say. */
module Completeness {
  import opened Types
  import opened Protocol
  import opened Session
  import opened SessionFacts
  import opened WireFields
  import opened FileExchange

  /** The socket is open and no later send breaks. */
  predicate Reliable(c: Channel) {
    c.open && forall i :: c.attempts <= i < |c.faults| ==> c.faults[i].None?
  }

  predicate Answers(r: ServerResponse, s: State, f: FileData) {
    WellSized(r) && Reports(r, f) && Take(r.payload, UUID_SIZE) == s.id
  }

  predicate Confirms(r: ServerResponse, s: State) {
    WellSized(r) && r.header.code == MESSAGE_CONFIRMED && Take(r.payload, UUID_SIZE) == s.id
  }

  /** The channel after one packet got through. */
  function AfterSend(c: Channel, r: Request): Channel {
    c.(attempts := c.attempts + 1, wire := c.wire + Encode(r))
  }

  function AfterRead(c: Channel, r: ServerResponse, rest: Bytes): Channel {
    c.(incoming := rest, consumed := c.consumed + FrameBytes(r))
  }

  lemma SendGetsThrough(s: State, r: Request)
    requires Reliable(s.channel)
    ensures Send(s, r) == Step(true, [Sent(r)], s.(channel := AfterSend(s.channel, r)))
    ensures Reliable(AfterSend(s.channel, r))
  {
    hide Encode;
  }

  /** A whole frame is taken off the line whatever its code, and accepted or not; either way the socket stays open. */
  lemma ReceiveWholeFrame(s: State, codes: seq<uint16>, r: ServerResponse, rest: Bytes)
    requires s.channel.open && s.channel.incoming == FrameBytes(r) + rest && WellSized(r)
    ensures
      var t := s.(channel := AfterRead(s.channel, r, rest));
      Receive(s, codes) ==
      if Acceptable(r, codes, s.id) then Step(Some(r), [Accepted(r)], t) else Step(None, [Refused], t)
  {
    hide EncodeHeader, ParseHeader;
    var head, body := EncodeHeader(r.header), r.payload;
    var c := s.channel;
    assert c.incoming == head + (body + rest);
    assert c.incoming[..7] == head && c.incoming[7..] == body + rest;
    HeaderReads(r.header, []);
    assert head + [] == head;
    var c1 := c.(incoming := body + rest, consumed := c.consumed + head);
    assert ChannelReceive(c, RESPONSE_HEADER_SIZE) == (head, c1);
    assert (body + rest)[..|body|] == body && (body + rest)[|body|..] == rest;
    assert (c.consumed + head) + body == c.consumed + FrameBytes(r);
    if |body| == 0 {
      assert body + rest == rest && c.consumed + head == c.consumed + FrameBytes(r);
    }
    assert ChannelReceive(c1, r.header.payloadSize) == (body, AfterRead(c, r, rest));
  }

  /** A frame that is there and acceptable is accepted, and exactly it is taken off the line. */
  lemma ReceiveTakesFrame(s: State, codes: seq<uint16>, r: ServerResponse, rest: Bytes)
    requires s.channel.open && s.channel.incoming == FrameBytes(r) + rest && Acceptable(r, codes, s.id)
    ensures Receive(s, codes) == Step(Some(r), [Accepted(r)], s.(channel := AfterRead(s.channel, r, rest)))
  {
    hide Receive, FrameBytes;
    ReceiveWholeFrame(s, codes, r, rest);
  }

  /** Without a whole frame on the line the socket ends up closed, and how much was read says why. */
  lemma ReceiveNoFrame(s: State, codes: seq<uint16>)
    requires s.channel.open
    requires
      var line := s.channel.incoming;
      || |line| < 7
      || BadHeader(line[..7])
      || |line| < 7 + ParseHeader(line[..7]).value.payloadSize
    ensures
      var c, line := s.channel, s.channel.incoming;
      var n := if |line| >= 7 && BadHeader(line[..7]) then 7 else |line|;
      Receive(s, codes) ==
      Step(None, [Refused],
           s.(channel := c.(open := false, incoming := line[n..], consumed := c.consumed + line[..n])))
  {
    var c, line := s.channel, s.channel.incoming;
    if |line| >= 7 {
      var h := ParseHeader(line[..7]).value;
      var c1 := c.(incoming := line[7..], consumed := c.consumed + line[..7]);
      assert ChannelReceive(c, RESPONSE_HEADER_SIZE) == (line[..7], c1);
      if !BadHeader(line[..7]) {
        assert c1.consumed + c1.incoming == c.consumed + line by { assert line == line[..7] + line[7..]; }
        assert line[..|line|] == line && line[|line|..] == [];
      }
    } else {
      assert line[..|line|] == line && line[|line|..] == [];
    }
  }

  /** One file sent and its report read. */
  lemma Reported(s: State, f: FileData, r: ServerResponse, rest: Bytes) returns (s1: State)
    requires Reliable(s.channel) && s.channel.incoming == FrameBytes(r) + rest && Answers(r, s, f)
    ensures Report(s, f) == Step(Some(FileCrcOf(r.payload)), [Sent(FileRequest(s.id, f)), Accepted(r)], s1)
    ensures s1 == s.(channel := s1.channel) && Reliable(s1.channel) && s1.channel.incoming == rest
  {
    hide FrameBytes, Encode, Receive, Send, FileCrcOf;
    SendGetsThrough(s, FileRequest(s.id, f));
    var sent := Send(s, FileRequest(s.id, f));
    ReceiveTakesFrame(sent.next, [FILE_RECEIVED_WITH_CRC], r, rest);
    s1 := sent.next.(channel := AfterRead(sent.next.channel, r, rest));
  }

  lemma ConfirmCompletes(s: State, f: FileData, v: Verdict, confirm: ServerResponse, rest: Bytes)
    requires Reliable(s.channel) && s.channel.incoming == FrameBytes(confirm) + rest && Confirms(confirm, s)
    ensures
      var step := Confirm(s, f, v);
      && step.value == (v == CrcValid)
      && step.events == [Sent(Status(s.id, f, v)), Accepted(confirm)]
      && step.next.channel.incoming == rest && Reliable(step.next.channel)
  {
    hide FrameBytes, Encode, Receive, Send;
    SendGetsThrough(s, Status(s.id, f, v));
    ReceiveTakesFrame(Send(s, Status(s.id, f, v)).next, [MESSAGE_CONFIRMED], confirm, rest);
  }

  lemma FramesFirst(r: ServerResponse, rs: seq<ServerResponse>)
    ensures Frames([r] + rs) == FrameBytes(r) + Frames(rs)
  {
    hide FrameBytes;
    FramesAppend([r], rs);
    assert Frames([r]) == Frames([]) + FrameBytes(r);
  }

  lemma Retried(s: State, f: FileData, left: nat, r: ServerResponse, rest: Bytes) returns (s2: State)
    requires 2 <= left <= MAX_CRC_ATTEMPTS
    requires Reliable(s.channel) && s.channel.incoming == FrameBytes(r) + rest
    requires Answers(r, s, f) && Mismatches(r, f)
    ensures s2 == s.(channel := s2.channel) && Reliable(s2.channel) && s2.channel.incoming == rest
    ensures
      var again := Attempts(s2, f, left - 1);
      && Attempts(s, f, left).value == again.value && Attempts(s, f, left).next == again.next
      && Requests(Attempts(s, f, left).events) ==
         [FileRequest(s.id, f), Status(s.id, f, CrcInvalidRetry)] + Requests(again.events)
  {
    hide FrameBytes, Encode, Report, Send, FileCrcOf, Confirm;
    var s1 := Reported(s, f, r, rest);
    var retry := Status(s.id, f, CrcInvalidRetry);
    SendGetsThrough(s1, retry);
    s2 := Send(s1, retry).next;
    var again := Attempts(s2, f, left - 1);
    RetryRound(FileRequest(s.id, f), retry, r, again.events, f);
    assert [Sent(FileRequest(s.id, f)), Accepted(r)] + [Sent(retry)] ==
           [Sent(FileRequest(s.id, f)), Accepted(r), Sent(retry)];
  }

  /** The verdict on a report that ends the exchange, and its confirmation. */
  lemma Ended(s: State, f: FileData, left: nat, r: ServerResponse, v: Verdict, confirm: ServerResponse, rest: Bytes)
    requires 1 <= left <= MAX_CRC_ATTEMPTS
    requires Reliable(s.channel) && s.channel.incoming == FrameBytes(r) + (FrameBytes(confirm) + rest)
    requires Answers(r, s, f) && Confirms(confirm, s)
    requires if v == CrcValid then Matches(r, f) else v == CrcInvalidAbort && left == 1 && Mismatches(r, f)
    ensures
      var step := Attempts(s, f, left);
      && step.value == (v == CrcValid) && step.next.channel.incoming == rest && Reliable(step.next.channel)
      && Requests(step.events) == [FileRequest(s.id, f), Status(s.id, f, v)]
  {
    hide FrameBytes, Encode, Report, FileCrcOf, Confirm;
    var s1 := Reported(s, f, r, FrameBytes(confirm) + rest);
    ConfirmCompletes(s1, f, v, confirm, rest);
    var last := Confirm(s1, f, v);
    FileRound(FileRequest(s.id, f), r, last.events, f);
    OneEvent(Sent(Status(s.id, f, v)));
    OneEvent(Accepted(confirm));
    assert last.events == [Sent(Status(s.id, f, v))] + [Accepted(confirm)];
    RequestsAppend([Sent(Status(s.id, f, v))], [Accepted(confirm)]);
  }

  /**
   * The server answers every file, first with so many wrong checksums and then, if attempts are left,
   * with the right one, and confirms the verdict. The client sends exactly the exchange for that many
   * refusals, reads exactly those frames, and succeeds exactly if a right checksum came.
   */
  lemma {:induction false} ExchangeCompletes(s: State, f: FileData, left: nat, wrong: seq<ServerResponse>,
                                             last: ServerResponse, confirm: ServerResponse, rest: Bytes)
    requires 1 <= left <= MAX_CRC_ATTEMPTS && |wrong| < left
    requires Reliable(s.channel)
    requires s.channel.incoming == Frames(wrong) + (FrameBytes(last) + (FrameBytes(confirm) + rest))
    requires forall i :: 0 <= i < |wrong| ==> Answers(wrong[i], s, f) && Mismatches(wrong[i], f)
    requires Answers(last, s, f) && Confirms(confirm, s)
    requires Matches(last, f) || (Mismatches(last, f) && |wrong| == left - 1)
    ensures
      var step := Attempts(s, f, left);
      && step.value == Matches(last, f)
      && Requests(step.events) == FullExchange(s.id, f, |wrong|, if Matches(last, f) then CrcValid else CrcInvalidAbort)
      && step.next.channel.incoming == rest && Reliable(step.next.channel)
    decreases |wrong|
  {
    hide FrameBytes, Attempts, Answers, Confirms, Reliable, Matches, Mismatches;
    var file, retry := FileRequest(s.id, f), Status(s.id, f, CrcInvalidRetry);
    var v := if Matches(last, f) then CrcValid else CrcInvalidAbort;
    var tail := FrameBytes(last) + (FrameBytes(confirm) + rest);
    if wrong == [] {
      assert s.channel.incoming == tail;
      NotBoth(last, f);
      Ended(s, f, left, last, v, confirm, rest);
      assert Rounds(file, retry, 0) == [];
    } else {
      var r, more := wrong[0], wrong[1..];
      assert wrong == [r] + more;
      FramesFirst(r, more);
      assert s.channel.incoming == FrameBytes(r) + (Frames(more) + tail);
      var s2 := Retried(s, f, left, r, Frames(more) + tail);
      SameAnswers(s, s2, f, last, confirm);
      forall i | 0 <= i < |more| ensures Answers(more[i], s2, f) && Mismatches(more[i], f) {
        assert more[i] == wrong[i + 1];
        SameAnswers(s, s2, f, more[i], confirm);
      }
      ExchangeCompletes(s2, f, left - 1, more, last, confirm, rest);
      RoundsMore(file, retry, |more|, [file, Status(s.id, f, v)]);
    }
  }

  lemma NotBoth(r: ServerResponse, f: FileData)
    ensures !(Matches(r, f) && Mismatches(r, f))
  {
  }

  lemma SameAnswers(s: State, s2: State, f: FileData, r: ServerResponse, confirm: ServerResponse)
    requires s2.id == s.id
    ensures Answers(r, s, f) == Answers(r, s2, f) && Confirms(confirm, s) == Confirms(confirm, s2)
  {
  }

  /**
   * The exchange of a client with four attempts: after up to three wrong checksums a right one succeeds, and
   * a fourth wrong one ends in 902.
   */
  lemma TransferCompletes(s: State, f: FileData, wrong: seq<ServerResponse>,
                          last: ServerResponse, confirm: ServerResponse, rest: Bytes)
    requires |wrong| <= 3 && Reliable(s.channel)
    requires s.channel.incoming == Frames(wrong) + (FrameBytes(last) + (FrameBytes(confirm) + rest))
    requires forall i :: 0 <= i < |wrong| ==> Answers(wrong[i], s, f) && Mismatches(wrong[i], f)
    requires Answers(last, s, f) && Confirms(confirm, s)
    ensures Matches(last, f) ==>
      var step := TransferAndVerify(s, f);
      && step.value && Requests(step.events) == FullExchange(s.id, f, |wrong|, CrcValid)
      && step.next.channel.incoming == rest
    ensures |wrong| == 3 && Mismatches(last, f) ==>
      var step := TransferAndVerify(s, f);
      && !step.value && Requests(step.events) == FullExchange(s.id, f, 3, CrcInvalidAbort)
      && step.next.channel.incoming == rest
  {
    hide Attempts, Answers, Confirms, Matches, Mismatches, FrameBytes, Frames, Reliable, Requests, FullExchange;
    NotBoth(last, f);
    if Matches(last, f) || (|wrong| == 3 && Mismatches(last, f)) {
      ExchangeCompletes(s, f, 4, wrong, last, confirm, rest);
    }
  }
}
