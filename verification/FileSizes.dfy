/** How large a file may be: where its packet can be read, and where its exchange can succeed. */
module FileSizes {
  import opened Types
  import opened Protocol
  import opened Session
  import Config
  import opened SessionFacts
  import opened WireReader
  import opened WireFields
  import opened FileExchange
  import opened Completeness
  import RunLaws
  import EndToEnd

  const SIZE_LIMIT: nat := 0x1_0000_0000

  /** A 32-bit report can never be of the size of such a file, so no server can have it confirmed. */
  lemma TooLargeFails(s: State, f: FileData, left: nat)
    requires 1 <= left <= MAX_CRC_ATTEMPTS && |f.encryptedContent| >= SIZE_LIMIT
    ensures !Attempts(s, f, left).value
    ensures |Requests(Attempts(s, f, left).events)| <= 1
  {
    hide Send, FileCrcOf, FileRequest, Sound, Mismatches, Requests;
    ReportShape(s, f);
    var events := Report(s, f).events;
    OneEvent(events[0]);
    if |events| == 2 {
      OneEvent(events[1]);
      assert events == [events[0]] + [events[1]];
      RequestsAppend([events[0]], [events[1]]);
    }
  }

  /** So a run that has such a file to send returns false. */
  lemma RunNeedsSmallFiles(w: World, s: State, n: nat)
    requires Run(w, s).value && w.config.Some? && n < |w.config.value.files|
    ensures
      var t, path := EndToEnd.Authenticated(w, s), w.config.value.files[n];
      path in w.files && |w.crypto.aesEncrypt(t.aesKey, w.files[path].content)| < SIZE_LIMIT
  {
    hide Run, EndToEnd.Authenticated, RunLaws.Started, FileCrcOf, EndToEnd.FilePacket;
    var t, paths := EndToEnd.Authenticated(w, s), w.config.value.files;
    EndToEnd.RunDelivers(w, s);
    assert EndToEnd.DeliveredIn(w, t.id, t.aesKey, paths, n, Run(w, s).events);
  }

  // ---- a server that has a file confirmed ----

  function GoodReport(id: ClientId, f: FileData): ServerResponse {
    ServerResponse(ResponseHeader(3, FILE_RECEIVED_WITH_CRC, CRC_PAYLOAD_SIZE),
                   EncodeFileCrc(FileCrcResponse(id, Narrow(|f.encryptedContent|), [], f.crc)))
  }

  function GoodConfirmation(id: ClientId): ServerResponse {
    ServerResponse(ResponseHeader(3, MESSAGE_CONFIRMED, UUID_SIZE), id)
  }

  function GoodSession(id: ClientId, f: FileData): State {
    var incoming := Frames([]) + (FrameBytes(GoodReport(id, f)) + (FrameBytes(GoodConfirmation(id)) + []));
    State(Channel(true, incoming, [], 0, [], []), id, [], None, Config.Disk(None, None))
  }

  lemma GoodAnswers(id: ClientId, f: FileData)
    requires |f.encryptedContent| < SIZE_LIMIT
    ensures Matches(GoodReport(id, f), f) && Answers(GoodReport(id, f), GoodSession(id, f), f)
    ensures Confirms(GoodConfirmation(id), GoodSession(id, f))
  {
    hide CString, FrameBytes;
    var report := FileCrcResponse(id, Narrow(|f.encryptedContent|), [], f.crc);
    FileCrcReads(report);
    var payload := EncodeFileCrc(report);
    assert |payload| == CRC_PAYLOAD_SIZE && payload[..16] == id && id[..16] == id;
  }

  lemma GoodExchange(id: ClientId, f: FileData)
    requires |f.encryptedContent| < SIZE_LIMIT
    ensures Attempts(GoodSession(id, f), f, MAX_CRC_ATTEMPTS).value
  {
    hide FrameBytes, Attempts, Answers, Confirms, Matches, Mismatches, GoodReport, GoodConfirmation;
    GoodAnswers(id, f);
    ExchangeCompletes(GoodSession(id, f), f, MAX_CRC_ATTEMPTS, [], GoodReport(id, f), GoodConfirmation(id), []);
  }

  ghost predicate CanSucceed(id: ClientId, f: FileData) {
    exists s: State :: s.id == id && Attempts(s, f, MAX_CRC_ATTEMPTS).value
  }

  /** Some server has a file confirmed exactly if its encrypted size is below 2^32. */
  lemma ConfirmableExactly(id: ClientId, f: FileData)
    ensures CanSucceed(id, f) <==> |f.encryptedContent| < SIZE_LIMIT
  {
    hide Attempts;
    if |f.encryptedContent| < SIZE_LIMIT {
      GoodExchange(id, f);
      assert GoodSession(id, f).id == id;
    }
    if CanSucceed(id, f) {
      var s: State :| s.id == id && Attempts(s, f, MAX_CRC_ATTEMPTS).value;
      if |f.encryptedContent| >= SIZE_LIMIT {
        TooLargeFails(s, f, MAX_CRC_ATTEMPTS);
      }
    }
  }

  ghost predicate Readable(r: Request) {
    ReadFrame(Encode(r)) == Some((FrameOf(r), []))
  }

  /** The client returns true over a packet that cannot be read, for some server, exactly in the last 267 sizes. */
  lemma ConfirmedUnreadExactly(id: ClientId, f: FileData)
    ensures CanSucceed(id, f) && !Readable(FileRequest(id, f)) <==>
            SIZE_LIMIT - FILE_METADATA_SIZE <= |f.encryptedContent| < SIZE_LIMIT
  {
    hide CanSucceed, Encode, ReadFrame, FrameOf;
    ConfirmableExactly(id, f);
    PacketReadsBackExactly(FileRequest(id, f));
  }

  /** There are such files. */
  lemma ConfirmedUnread(id: ClientId) returns (f: FileData)
    ensures CanSucceed(id, f) && !Readable(FileRequest(id, f))
  {
    hide CanSucceed, Readable;
    f := FileData([102], 0, 0, Zeros(SIZE_LIMIT - FILE_METADATA_SIZE));
    ConfirmedUnreadExactly(id, f);
  }
}
