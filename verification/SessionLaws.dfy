/** Every step of a run stops at its first failure and keeps both directions of the wire framed. */
module SessionLaws {
  import opened Types
  import opened Protocol
  import opened Config
  import opened Session
  import opened SessionFacts

  lemma Exchange(s: State, r: Request, codes: seq<uint16>)
    requires Send(s, r).value
    ensures
      var sent := Send(s, r);
      var received := Receive(sent.next, codes);
      Lawful(s, sent.events + received.events, received.value.Some?, received.next)
  {
    hide Send, Receive, Lawful;
    var sent := Send(s, r);
    var received := Receive(sent.next, codes);
    SendLawful(s, r);
    ReceiveLawful(sent.next, codes);
    LawfulThen(s, sent.events, sent.next, received.events, received.value.Some?, received.next);
  }

  /** A lawful trace says nothing of the fields a step keeps beside the channel. */
  lemma SameChannel(s: State, e: seq<Event>, ok: bool, s': State, t: State, t': State)
    requires Lawful(s, e, ok, s') && t.channel == s.channel && t'.channel == s'.channel
    ensures Lawful(t, e, ok, t')
  {
  }

  lemma TakeAesKeyLawful(w: World, s: State, payload: Bytes)
    ensures
      var r := TakeAesKey(w, s, payload);
      Lawful(s, r.events, r.value, r.next)
  {
    hide Lawful, ParseAesKey, DecryptAesKey;
    var r := TakeAesKey(w, s, payload);
    LawfulNothing(s, r.next, r.value);
  }

  lemma SendPublicKeyLawful(w: World, s: State, name: Bytes)
    ensures
      var r := SendPublicKey(w, s, name);
      Lawful(s, r.events, r.value, r.next)
  {
    hide Send, Receive, Lawful, TakeAesKey;
    var r := PublicKey(s.id, name, w.crypto.publicDer(w.crypto.generated));
    var sent := Send(s, r);
    SendLawful(s, r);
    if sent.value {
      var received := Receive(sent.next, [AES_KEY_RECEIVED]);
      Exchange(s, r, [AES_KEY_RECEIVED]);
      if received.value.Some? {
        var taken := TakeAesKey(w, received.next, received.value.value.payload);
        TakeAesKeyLawful(w, received.next, received.value.value.payload);
        LawfulThen(s, sent.events + received.events, received.next, taken.events, taken.value, taken.next);
      }
    }
  }

  lemma SaveAndSendKeyLawful(w: World, s: State, name: Bytes)
    ensures
      var r := SaveAndSendKey(w, s, name);
      Lawful(s, r.events, r.value, r.next)
  {
    hide Lawful, SendPublicKey, SaveClientInfo;
    var (saved, disk) := SaveClientInfo(s.disk, w.access, name, s.id, w.crypto.toBase64(w.crypto.generated));
    var s' := s.(privateKey := Some(w.crypto.generated), disk := disk);
    if saved {
      var rest := SendPublicKey(w, s', name);
      LawfulNote(s, CredentialsSaved, true, s');
      SendPublicKeyLawful(w, s', name);
      LawfulThen(s, [CredentialsSaved], s', rest.events, rest.value, rest.next);
    } else {
      LawfulNote(s, SaveFailed, false, s');
    }
  }

  lemma RegisterLawful(w: World, s: State, name: Bytes)
    ensures
      var r := RegisterAndExchangeKeys(w, s, name);
      Lawful(s, r.events, r.value, r.next)
  {
    hide Send, Receive, Lawful, SaveAndSendKey, ParseClientId;
    var sent := Send(s, Registration(name));
    SendLawful(s, Registration(name));
    if sent.value {
      var received := Receive(sent.next, [REGISTRATION_SUCCESS]);
      var so := sent.events + received.events;
      Exchange(s, Registration(name), [REGISTRATION_SUCCESS]);
      if received.value.Some? {
        match ParseClientId(received.value.value.payload)
        case None => LawfulFailure(s, so, received.next);
        case Some(id) =>
          var t := received.next.(id := id);
          var rest := SaveAndSendKey(w, t, name);
          SaveAndSendKeyLawful(w, t, name);
          SameChannel(s, so, true, received.next, s, t);
          LawfulThen(s, so, t, rest.events, rest.value, rest.next);
      }
    }
  }

  lemma ReconnectingLawful(w: World, s: State, name: Bytes)
    ensures
      var r := Reconnecting(w, s, name);
      Lawful(s, r.events, r.value != ReconnectFailed, r.next)
  {
    hide Send, Receive, Lawful, TakeAesKey;
    var codes := [RECONNECT_APPROVED, RECONNECT_REJECTED];
    var sent := Send(s, Reconnect(s.id, name));
    SendLawful(s, Reconnect(s.id, name));
    if sent.value {
      var received := Receive(sent.next, codes);
      var so := sent.events + received.events;
      Exchange(s, Reconnect(s.id, name), codes);
      if received.value.Some? {
        var forget := Forget(w, received.next);
        LawfulNote(received.next, CredentialsRemoved, true, forget.next);
        LawfulThen(s, so, received.next, forget.events, true, forget.next);
        var taken := TakeAesKey(w, received.next, received.value.value.payload);
        TakeAesKeyLawful(w, received.next, received.value.value.payload);
        AssertTaken(w, received.next, received.value.value.payload);
        LawfulThen(s, so, received.next, taken.events, taken.value, taken.next);
        assert so + [] == so;
      }
    }
  }

  lemma AssertTaken(w: World, s: State, payload: Bytes)
    ensures TakeAesKey(w, s, payload).events == []
  {
  }

  lemma TryReconnectLawful(w: World, s: State)
    ensures
      var r := TryReconnect(w, s);
      Lawful(s, r.events, r.value != ReconnectFailed, r.next)
  {
    hide Lawful, Reconnecting, LoadCredentials;
    match LoadCredentials(w, s.disk)
    case None => LawfulNote(s, CredentialsRemoved, true, Forget(w, s).next);
    case Some((info, key)) =>
      var t := s.(privateKey := Some(key), id := info.uuid);
      ReconnectingLawful(w, t, info.name);
      var r := Reconnecting(w, t, info.name);
      SameChannel(t, r.events, r.value != ReconnectFailed, r.next, s, r.next);
  }

  lemma AuthenticateLawful(w: World, s: State, name: Bytes)
    ensures
      var r := Authenticate(w, s, name);
      Lawful(s, r.events, r.value, r.next)
  {
    hide Lawful, TryReconnect, RegisterAndExchangeKeys;
    RegisterLawful(w, s, name);
    if s.disk.meInfo.Some? {
      var tried := TryReconnect(w, s);
      TryReconnectLawful(w, s);
      var r := RegisterAndExchangeKeys(w, tried.next, name);
      RegisterLawful(w, tried.next, name);
      if tried.value == NeedsRegistration {
        LawfulThen(s, tried.events, tried.next, r.events, r.value, r.next);
      }
    }
  }

  lemma ConfirmLawful(s: State, f: FileData, v: Verdict)
    ensures Lawful(s, Confirm(s, f, v).events, Confirm(s, f, v).value, Confirm(s, f, v).next)
  {
    hide Send, Receive, Lawful;
    var r := CrcStatus(s.id, v, f.fileName);
    var sent := Send(s, r);
    SendLawful(s, r);
    if sent.value {
      var received := Receive(sent.next, [MESSAGE_CONFIRMED]);
      Exchange(s, r, [MESSAGE_CONFIRMED]);
      if received.value.Some? {
        LawfulFailure(s, sent.events + received.events, received.next);
      }
    }
  }

  lemma ReportLawful(s: State, f: FileData)
    ensures Lawful(s, Report(s, f).events, Report(s, f).value.Some?, Report(s, f).next)
  {
    hide Send, Receive, Lawful, ParseFileCrc, FileRequest;
    var r := FileRequest(s.id, f);
    var sent := Send(s, r);
    SendLawful(s, r);
    if sent.value {
      var received := Receive(sent.next, [FILE_RECEIVED_WITH_CRC]);
      Exchange(s, r, [FILE_RECEIVED_WITH_CRC]);
      if received.value.Some? {
        LawfulFailure(s, sent.events + received.events, received.next);
      }
    }
  }

  lemma {:induction false} AttemptsLawful(s: State, f: FileData, left: nat)
    requires 1 <= left <= MAX_CRC_ATTEMPTS
    ensures Lawful(s, Attempts(s, f, left).events, Attempts(s, f, left).value, Attempts(s, f, left).next)
    decreases left, 0
  {
    hide Send, Lawful, Confirm, Report;
    var report := Report(s, f);
    ReportLawful(s, f);
    if report.value.Some? {
      ThenConfirm(s, report.events, report.next, f, CrcValid);
      ThenConfirm(s, report.events, report.next, f, CrcInvalidAbort);
      if left > 1 {
        ThenRetry(s, report.events, report.next, CrcStatus(s.id, CrcInvalidRetry, f.fileName), f, left - 1);
      }
    }
  }

  lemma ThenConfirm(s: State, so: seq<Event>, s1: State, f: FileData, v: Verdict)
    requires Lawful(s, so, true, s1)
    ensures Lawful(s, so + Confirm(s1, f, v).events, Confirm(s1, f, v).value, Confirm(s1, f, v).next)
  {
    hide Lawful, Confirm;
    ConfirmLawful(s1, f, v);
    var c := Confirm(s1, f, v);
    LawfulThen(s, so, s1, c.events, c.value, c.next);
  }

  lemma ThenRetry(s: State, so: seq<Event>, s1: State, r: Request, f: FileData, left: nat)
    requires Lawful(s, so, true, s1) && 1 <= left <= MAX_CRC_ATTEMPTS
    ensures
      var retry := Send(s1, r);
      var rest := Attempts(retry.next, f, left);
      && Lawful(s, so + retry.events, retry.value, retry.next)
      && (retry.value ==> Lawful(s, so + retry.events + rest.events, rest.value, rest.next))
    decreases left, 1
  {
    hide Send, Lawful, Attempts;
    var retry := Send(s1, r);
    SendLawful(s1, r);
    LawfulThen(s, so, s1, retry.events, retry.value, retry.next);
    if retry.value {
      AttemptsLawful(retry.next, f, left);
      var rest := Attempts(retry.next, f, left);
      LawfulThen(s, so + retry.events, retry.next, rest.events, rest.value, rest.next);
    }
  }

  lemma SendSingleFileLawful(w: World, s: State, path: Bytes)
    ensures
      var r := SendSingleFile(w, s, path);
      Lawful(s, r.events, r.value, r.next)
  {
    hide Lawful, Attempts, Prepare;
    LawfulNote(s, FileStarted(path), true, s);
    LawfulNote(s, FileStarted(path), false, s);
    match Prepare(w, s.aesKey, path)
    case None =>
    case Some(f) =>
      AttemptsLawful(s, f, MAX_CRC_ATTEMPTS);
      var r := Attempts(s, f, MAX_CRC_ATTEMPTS);
      LawfulThen(s, [FileStarted(path)], s, r.events, r.value, r.next);
  }

  lemma {:induction false} SendFilesLawful(w: World, s: State, paths: seq<Bytes>)
    ensures Lawful(s, SendFiles(w, s, paths).events, SendFiles(w, s, paths).value, SendFiles(w, s, paths).next)
    decreases |paths|
  {
    hide Lawful, SendSingleFile;
    if paths == [] {
      LawfulNothing(s, s, true);
    } else {
      var first := SendSingleFile(w, s, paths[0]);
      SendSingleFileLawful(w, s, paths[0]);
      if first.value {
        var rest := SendFiles(w, first.next, paths[1..]);
        SendFilesLawful(w, first.next, paths[1..]);
        LawfulThen(s, first.events, first.next, rest.events, rest.value, rest.next);
      }
    }
  }

  /** The state a run starts to work in, once it is connected. */
  function Opened(w: World, s: State): State {
    if w.config.None? || !w.connects then s else s.(channel := s.channel.(open := true))
  }

  /** The state a run ends in but for a last disconnect, which it makes after the files or when it cannot connect. */
  function BeforeDisconnect(w: World, s: State): State {
    if w.config.None? || !w.connects then s
    else
      var auth := Authenticate(w, Opened(w, s), w.config.value.clientName);
      if !auth.value || |auth.next.aesKey| != 32 then auth.next
      else SendFiles(w, auth.next, w.config.value.files).next
  }

  /** A run closes the socket itself if it cannot connect, or if it authenticated with a 32-byte key. */
  predicate Disconnects(w: World, s: State) {
    w.config.Some? &&
    (!w.connects ||
     var auth := Authenticate(w, Opened(w, s), w.config.value.clientName);
     auth.value && |auth.next.aesKey| == 32)
  }

  /**
   * A whole run, against any server, network and disk, is lawful even before its last disconnect: a socket
   * found closed there was closed by the read that was cut short.
   */
  lemma RunLawful(w: World, s: State)
    ensures Lawful(Opened(w, s), Run(w, s).events, Run(w, s).value, BeforeDisconnect(w, s))
    ensures Run(w, s).next == if Disconnects(w, s) then Close(BeforeDisconnect(w, s)) else BeforeDisconnect(w, s)
    ensures Disconnects(w, s) ==> !Run(w, s).next.channel.open
    ensures Run(w, s).value ==> Disconnects(w, s)
  {
    hide Lawful, Authenticate, SendFiles;
    if w.config.None? || !w.connects {
      LawfulNothing(s, s, false);
    } else {
      var s0 := Opened(w, s);
      var name := w.config.value.clientName;
      var auth := Authenticate(w, s0, name);
      AuthenticateLawful(w, s0, name);
      if auth.value {
        LawfulFailure(s0, auth.events, auth.next);
        var paths := w.config.value.files;
        var files := SendFiles(w, auth.next, paths);
        SendFilesLawful(w, auth.next, paths);
        LawfulThen(s0, auth.events, auth.next, files.events, files.value, files.next);
      }
    }
  }
}
