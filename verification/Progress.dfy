/** Nothing is given up without a reason: a step that fails ends in the event that made it fail. */
module Progress {
  import opened Types
  import opened Protocol
  import opened Config
  import opened Session
  import opened SessionFacts
  import opened FileExchange
  import opened Authentication
  import opened RunLaws
  import EndToEnd

  predicate EndsBad(events: seq<Event>) {
    events != [] && Bad(events[|events| - 1])
  }

  // ---- authentication ----

  lemma TakeNeverFails(w: World, s: State, payload: Bytes)
    requires |payload| == AES_KEY_PAYLOAD_SIZE
    ensures TakeAesKey(w, s, payload).value && TakeAesKey(w, s, payload).events == []
  {
  }

  lemma SendPublicKeyFails(w: World, s: State, name: Bytes)
    ensures SendPublicKey(w, s, name).value || EndsBad(SendPublicKey(w, s, name).events)
  {
    hide Send, Receive, TakeAesKey;
    var r := PublicKeyRequest(w, s.id, name);
    SendFacts(s, r);
    var received := Receive(Send(s, r).next, [AES_KEY_RECEIVED]);
    ReceiveFacts(Send(s, r).next, [AES_KEY_RECEIVED]);
    if received.value.Some? {
      TakeNeverFails(w, received.next, received.value.value.payload);
    }
  }

  lemma RegistrationFails(w: World, s: State, name: Bytes)
    ensures
      RegisterAndExchangeKeys(w, s, name).value || EndsBad(RegisterAndExchangeKeys(w, s, name).events)
  {
    hide Send, Receive, SendPublicKey, SaveClientInfo;
    SendFacts(s, Registration(name));
    var received := Receive(Send(s, Registration(name)).next, [REGISTRATION_SUCCESS]);
    ReceiveFacts(Send(s, Registration(name)).next, [REGISTRATION_SUCCESS]);
    if received.value.Some? {
      var id: ClientId := received.value.value.payload[..16];
      var t := received.next.(id := id);
      var (saved, disk) := SaveClientInfo(t.disk, w.access, name, id, w.crypto.toBase64(w.crypto.generated));
      SendPublicKeyFails(w, t.(privateKey := Some(w.crypto.generated), disk := disk), name);
    }
  }

  /** Authentication fails only by a failed send, a refused response or a failed save. */
  lemma AuthenticationFails(w: World, s: State, name: Bytes)
    ensures Authenticate(w, s, name).value || EndsBad(Authenticate(w, s, name).events)
  {
    hide TryReconnect, RegisterAndExchangeKeys, LoadCredentials, RemoveClientInfo, KeyFrom, Rejects;
    RegistrationFails(w, s, name);
    if s.disk.meInfo.Some? {
      ReconnectionShape(w, s);
      RegistrationFails(w, TryReconnect(w, s).next, name);
    }
  }

  // ---- one file ----

  /** The last event is a report of another size. */
  predicate EndsWrongSize(events: seq<Event>, f: FileData) {
    events != [] &&
    var last := events[|events| - 1];
    && last.Accepted? && last.response.header.code == FILE_RECEIVED_WITH_CRC
    && |last.response.payload| == CRC_PAYLOAD_SIZE
    && FileCrcOf(last.response.payload).contentSize != |f.encryptedContent|
  }

  /** The last two events are a 902 and its confirmation. */
  predicate EndsAborted(events: seq<Event>, id: ClientId, f: FileData) {
    |events| >= 2 && events[|events| - 2] == Sent(Status(id, f, CrcInvalidAbort)) && Confirmed(events, id)
  }

  predicate ExchangeCause(events: seq<Event>, id: ClientId, f: FileData) {
    EndsBad(events) || EndsWrongSize(events, f) || EndsAborted(events, id, f)
  }

  lemma LaterCause(a: seq<Event>, b: seq<Event>, id: ClientId, f: FileData)
    requires ExchangeCause(b, id, f)
    ensures ExchangeCause(a + b, id, f)
  {
    hide Status, FileCrcOf;
    assert (a + b)[|a + b| - 1] == b[|b| - 1];
    if |b| >= 2 {
      assert (a + b)[|a + b| - 2] == b[|b| - 2];
    }
  }

  lemma ReportFails(s: State, f: FileData)
    ensures Report(s, f).value.None? ==> ExchangeCause(Report(s, f).events, s.id, f)
  {
    hide Send, Receive, FileRequest, FileCrcOf;
    SendFacts(s, FileRequest(s.id, f));
    ReceiveFacts(Send(s, FileRequest(s.id, f)).next, [FILE_RECEIVED_WITH_CRC]);
  }

  lemma ConfirmFails(s: State, f: FileData, v: Verdict)
    requires v != CrcInvalidRetry
    ensures Confirm(s, f, v).value || ExchangeCause(Confirm(s, f, v).events, s.id, f)
  {
    hide Send, Receive;
    var r := Status(s.id, f, v);
    SendFacts(s, r);
    ReceiveFacts(Send(s, r).next, [MESSAGE_CONFIRMED]);
  }

  /** An exchange fails only so, by a report of another size, or after 902 was sent and confirmed. */
  lemma {:induction false} AttemptsFail(s: State, f: FileData, left: nat)
    requires 1 <= left <= MAX_CRC_ATTEMPTS
    ensures Attempts(s, f, left).value || ExchangeCause(Attempts(s, f, left).events, s.id, f)
    decreases left
  {
    hide Send, Report, Confirm, ExchangeCause;
    var report := Report(s, f);
    var s1 := report.next;
    ReportShape(s, f);
    ReportFails(s, f);
    if report.value.Some? {
      var retry := Send(s1, Status(s.id, f, CrcInvalidRetry));
      SendFacts(s1, Status(s.id, f, CrcInvalidRetry));
      if report.value.value.cksum == f.crc {
        ConfirmLater(s1, f, CrcValid, report.events);
      } else if left == 1 {
        ConfirmLater(s1, f, CrcInvalidAbort, report.events);
      } else if retry.value {
        AttemptsFail(retry.next, f, left - 1);
        var rest := Attempts(retry.next, f, left - 1);
        if !rest.value {
          LaterCause(report.events + retry.events, rest.events, s.id, f);
        }
      } else {
        BadIsCause(retry.events, s.id, f);
        LaterCause(report.events, retry.events, s.id, f);
      }
    }
  }

  lemma BadIsCause(events: seq<Event>, id: ClientId, f: FileData)
    requires EndsBad(events)
    ensures ExchangeCause(events, id, f)
  {
  }

  lemma ConfirmLater(s: State, f: FileData, v: Verdict, before: seq<Event>)
    requires v != CrcInvalidRetry
    ensures Confirm(s, f, v).value || ExchangeCause(before + Confirm(s, f, v).events, s.id, f)
  {
    hide Confirm, ExchangeCause;
    ConfirmFails(s, f, v);
    if !Confirm(s, f, v).value {
      LaterCause(before, Confirm(s, f, v).events, s.id, f);
    }
  }

  // ---- all files ----

  /** The file started last could not be prepared and nothing followed, or its exchange failed. */
  predicate FilesCause(w: World, id: ClientId, key: Bytes, events: seq<Event>) {
    Started(events) != [] &&
    var path := Started(events)[|Started(events)| - 1];
    match Prepare(w, key, path)
    case None => events != [] && events[|events| - 1] == FileStarted(path)
    case Some(f) => ExchangeCause(events, id, f)
  }

  lemma FileFails(w: World, s: State, path: Bytes)
    ensures
      var step := SendSingleFile(w, s, path);
      step.value || FilesCause(w, s.id, s.aesKey, step.events)
  {
    hide Prepare, Attempts, ExchangeCause, Started;
    EndToEnd.StartsOne(w, s, path);
    match Prepare(w, s.aesKey, path)
    case None =>
    case Some(f) =>
      AttemptsFail(s, f, MAX_CRC_ATTEMPTS);
      if !Attempts(s, f, MAX_CRC_ATTEMPTS).value {
        LaterCause([FileStarted(path)], Attempts(s, f, MAX_CRC_ATTEMPTS).events, s.id, f);
      }
  }

  lemma LaterFilesCause(w: World, id: ClientId, key: Bytes, a: seq<Event>, b: seq<Event>)
    requires FilesCause(w, id, key, b)
    ensures FilesCause(w, id, key, a + b)
  {
    hide Prepare, ExchangeCause, Started;
    StartedAppend(a, b);
    match Prepare(w, key, Started(b)[|Started(b)| - 1])
    case None =>
    case Some(f) => LaterCause(a, b, id, f);
  }

  lemma {:induction false} FilesFail(w: World, s: State, paths: seq<Bytes>)
    ensures SendFiles(w, s, paths).value || FilesCause(w, s.id, s.aesKey, SendFiles(w, s, paths).events)
    decreases |paths|
  {
    hide SendSingleFile, FilesCause;
    if paths != [] {
      var first := SendSingleFile(w, s, paths[0]);
      FileFails(w, s, paths[0]);
      EndToEnd.StartsOne(w, s, paths[0]);
      if first.value {
        FilesFail(w, first.next, paths[1..]);
        var rest := SendFiles(w, first.next, paths[1..]);
        if !rest.value {
          LaterFilesCause(w, s.id, s.aesKey, first.events, rest.events);
        }
      }
    }
  }

  // ---- a run ----

  /** Authentication succeeded with a key of another length, and nothing followed. */
  predicate WrongKey(w: World, s: State)
    requires w.config.Some?
  {
    var auth := Authenticate(w, s.(channel := s.channel.(open := true)), w.config.value.clientName);
    auth.value && |auth.next.aesKey| != 32 && Run(w, s).events == auth.events
  }

  /**
   * A run, against any server, returns false only without a configuration or a connection, for a failed
   * send, a refused response or a failed save, for a key of another length, or for the last file it started.
   */
  lemma RunFails(w: World, s: State)
    requires !Run(w, s).value
    ensures
      var e := Run(w, s).events;
      || w.config.None? || !w.connects
      || EndsBad(e)
      || WrongKey(w, s)
      || FilesCause(w, EndToEnd.Authenticated(w, s).id, EndToEnd.Authenticated(w, s).aesKey, e)
  {
    hide Authenticate, SendFiles, FilesCause;
    if w.config.Some? && w.connects {
      var s0 := s.(channel := s.channel.(open := true));
      var auth := Authenticate(w, s0, w.config.value.clientName);
      AuthenticationFails(w, s0, w.config.value.clientName);
      if auth.value && |auth.next.aesKey| == 32 {
        var files := SendFiles(w, auth.next, w.config.value.files);
        FilesFail(w, auth.next, w.config.value.files);
        LaterFilesCause(w, auth.next.id, auth.next.aesKey, auth.events, files.events);
      }
    }
  }
}
