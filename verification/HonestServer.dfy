/** A whole run against a server that answers every request properly succeeds. */
module HonestServer {
  import opened Types
  import opened Protocol
  import opened Config
  import opened Session
  import opened SessionFacts
  import opened FileExchange
  import opened Completeness
  import Authentication
  import RunLaws
  import Credentials

  /** The answers to one file: so many wrong reports, the right one, and the confirmation. */
  datatype Script = Script(wrong: seq<ServerResponse>, last: ServerResponse, confirm: ServerResponse)

  function ScriptBytes(script: Script): Bytes {
    Frames(script.wrong) + (FrameBytes(script.last) + FrameBytes(script.confirm))
  }

  function ScriptsBytes(scripts: seq<Script>): Bytes {
    if scripts == [] then [] else ScriptBytes(scripts[0]) + ScriptsBytes(scripts[1..])
  }

  ghost predicate Serves(script: Script, w: World, s: State, path: Bytes) {
    var prepared := Prepare(w, s.aesKey, path);
    && prepared.Some?
    && |script.wrong| < MAX_CRC_ATTEMPTS
    && (forall i :: 0 <= i < |script.wrong| ==>
        Answers(script.wrong[i], s, prepared.value) && Mismatches(script.wrong[i], prepared.value))
    && Answers(script.last, s, prepared.value) && Matches(script.last, prepared.value)
    && Confirms(script.confirm, s)
  }

  lemma FileCompletes(w: World, s: State, path: Bytes, script: Script, rest: Bytes)
    requires Reliable(s.channel) && s.channel.incoming == ScriptBytes(script) + rest && Serves(script, w, s, path)
    ensures
      var step := SendSingleFile(w, s, path);
      && step.value && step.next == s.(channel := step.next.channel)
      && Reliable(step.next.channel) && step.next.channel.incoming == rest
      && Requests(step.events) ==
         FullExchange(s.id, Prepare(w, s.aesKey, path).value, |script.wrong|, CrcValid)
  {
    hide Attempts, FrameBytes, Frames, Reliable, Answers, Matches, Mismatches, Confirms, Prepare, Sound, Requests,
         FullExchange;
    var f := Prepare(w, s.aesKey, path).value;
    assert s.channel.incoming == Frames(script.wrong) + (FrameBytes(script.last) + (FrameBytes(script.confirm) + rest));
    ExchangeCompletes(s, f, MAX_CRC_ATTEMPTS, script.wrong, script.last, script.confirm, rest);
    AttemptsSound(s, f, MAX_CRC_ATTEMPTS);
    SoundFrame(s, f, MAX_CRC_ATTEMPTS, Attempts(s, f, MAX_CRC_ATTEMPTS));
    RunLaws.StartEvent(path);
    RequestsAppend([FileStarted(path)], Attempts(s, f, MAX_CRC_ATTEMPTS).events);
    NotBoth(script.last, f);
    assert forall rs: seq<Request> :: [] + rs == rs;
  }

  predicate Prepared(w: World, key: Bytes, paths: seq<Bytes>) {
    forall i :: 0 <= i < |paths| ==> Prepare(w, key, paths[i]).Some?
  }

  /** One confirmed exchange for each file, after so many refusals each. */
  function Exchanges(w: World, key: Bytes, id: ClientId, paths: seq<Bytes>, counts: seq<nat>): seq<Request>
    requires |counts| == |paths| && Prepared(w, key, paths)
  {
    if paths == [] then []
    else
      FullExchange(id, Prepare(w, key, paths[0]).value, counts[0], CrcValid) +
      Exchanges(w, key, id, paths[1..], counts[1..])
  }

  function Counts(scripts: seq<Script>): (r: seq<nat>)
    ensures |r| == |scripts|
  {
    if scripts == [] then [] else [|scripts[0].wrong|] + Counts(scripts[1..])
  }

  lemma SoundFrame(s: State, f: FileData, left: nat, step: Step<bool>)
    requires Sound(s, f, left, step)
    ensures step.next == s.(channel := step.next.channel)
  {
  }

  lemma {:induction false} FilesComplete(w: World, s: State, paths: seq<Bytes>, scripts: seq<Script>, rest: Bytes)
    requires |scripts| == |paths| && Reliable(s.channel) && s.channel.incoming == ScriptsBytes(scripts) + rest
    requires forall i :: 0 <= i < |paths| ==> Serves(scripts[i], w, s, paths[i])
    ensures SendFiles(w, s, paths).value && SendFiles(w, s, paths).next.channel.incoming == rest
    ensures SendFiles(w, s, paths).next.disk == s.disk && Prepared(w, s.aesKey, paths)
    ensures Requests(SendFiles(w, s, paths).events) == Exchanges(w, s.aesKey, s.id, paths, Counts(scripts))
    decreases |paths|
  {
    hide SendSingleFile, ScriptBytes, Reliable, Serves, Prepare, FullExchange;
    forall i | 0 <= i < |paths| ensures Prepare(w, s.aesKey, paths[i]).Some? {
      ServesPrepared(scripts[i], w, s, paths[i]);
    }
    if paths == [] {
      assert [] + rest == rest;
    } else {
      var more := ScriptsBytes(scripts[1..]) + rest;
      assert s.channel.incoming == ScriptBytes(scripts[0]) + more;
      FileCompletes(w, s, paths[0], scripts[0], more);
      var s1 := SendSingleFile(w, s, paths[0]).next;
      forall i | 0 <= i < |paths[1..]| ensures Serves(scripts[1..][i], w, s1, paths[1..][i]) {
        assert Serves(scripts[i + 1], w, s, paths[i + 1]);
        SameServes(scripts[i + 1], w, s, s1, paths[i + 1]);
      }
      FilesComplete(w, s1, paths[1..], scripts[1..], rest);
      RequestsAppend(SendSingleFile(w, s, paths[0]).events, SendFiles(w, s1, paths[1..]).events);
    }
  }

  lemma ServesPrepared(script: Script, w: World, s: State, path: Bytes)
    requires Serves(script, w, s, path)
    ensures Prepare(w, s.aesKey, path).Some?
  {
  }

  lemma SameServes(script: Script, w: World, s: State, s1: State, path: Bytes)
    requires s1.id == s.id && s1.aesKey == s.aesKey && Serves(script, w, s, path)
    ensures Serves(script, w, s1, path)
  {
    hide Prepare, Matches, Mismatches, Reports, WellSized;
  }

  /** A response of this code, of the right size, for this client. */
  predicate Proper(r: ServerResponse, code: uint16, id: ClientId) {
    r.header.code == code && WellSized(r) && Take(r.payload, UUID_SIZE) == id
  }

  lemma KeyTaken(w: World, s: State, r: ServerResponse)
    requires WellSized(r) && r.header.code in [AES_KEY_RECEIVED, RECONNECT_APPROVED] && s.privateKey.Some?
    ensures |r.payload| == AES_KEY_PAYLOAD_SIZE
    ensures TakeAesKey(w, s, r.payload) ==
            Step(true, [], s.(aesKey := w.crypto.rsaDecrypt(s.privateKey.value, r.payload[16..])))
  {
  }

  lemma SendKeyCompletes(w: World, s: State, name: Bytes, key: ServerResponse, rest: Bytes)
    requires Reliable(s.channel) && s.channel.incoming == FrameBytes(key) + rest
    requires Proper(key, 1602, s.id) && s.privateKey.Some?
    ensures
      var step := SendPublicKey(w, s, name);
      && step.value && step.next == s.(channel := step.next.channel, aesKey := step.next.aesKey)
      && |key.payload| == AES_KEY_PAYLOAD_SIZE
      && step.next.aesKey == w.crypto.rsaDecrypt(s.privateKey.value, key.payload[16..])
      && Reliable(step.next.channel) && step.next.channel.incoming == rest
  {
    hide Send, Receive, FrameBytes, Encode, TakeAesKey, WellSized;
    var r := PublicKey(s.id, name, w.crypto.publicDer(w.crypto.generated));
    SendGetsThrough(s, r);
    var sent := Send(s, r);
    ReceiveTakesFrame(sent.next, [AES_KEY_RECEIVED], key, rest);
    KeyTaken(w, Receive(sent.next, [AES_KEY_RECEIVED]).next, key);
  }

  /** The disk after a complete save of this run's key. */
  function Saved(w: World, name: Bytes, id: ClientId): Disk {
    var key := w.crypto.toBase64(w.crypto.generated);
    Disk(Some(InfoText(name, id, key)), Some(key))
  }

  lemma RegistrationCompletes(w: World, s: State, name: Bytes, id: ClientId, registered: ServerResponse,
                              key: ServerResponse, rest: Bytes)
    requires Reliable(s.channel) && s.channel.incoming == FrameBytes(registered) + (FrameBytes(key) + rest)
    requires Proper(registered, 1600, id) && Proper(key, 1602, id)
    requires w.access.meCreates && w.access.keyCreates
    ensures
      var step := RegisterAndExchangeKeys(w, s, name);
      && step.value && step.next.id == id && |key.payload| == AES_KEY_PAYLOAD_SIZE
      && step.next.aesKey == w.crypto.rsaDecrypt(w.crypto.generated, key.payload[16..])
      && step.next.disk == Saved(w, name, id)
      && Requests(step.events) == [Registration(name), Authentication.PublicKeyRequest(w, id, name)]
      && Reliable(step.next.channel) && step.next.channel.incoming == rest
  {
    hide Send, Receive, FrameBytes, Encode, SendPublicKey, Reliable, Requests, Authentication.RegistrationLaw;
    Authentication.RegistrationShape(w, s, name);
    SendGetsThrough(s, Registration(name));
    var sent := Send(s, Registration(name));
    ReliableOpen(sent.next.channel);
    ReceiveTakesFrame(sent.next, [REGISTRATION_SUCCESS], registered, FrameBytes(key) + rest);
    var t := Receive(sent.next, [REGISTRATION_SUCCESS]).next.(id := id);
    ReliableKept(sent.next.channel, t.channel);
    var (saved, disk) := SaveClientInfo(t.disk, w.access, name, id, w.crypto.toBase64(w.crypto.generated));
    SendKeyCompletes(w, t.(privateKey := Some(w.crypto.generated), disk := disk), name, key, rest);
    RegistrationRequests(w, s, name, RegisterAndExchangeKeys(w, s, name));
  }

  lemma RegistrationRequests(w: World, s: State, name: Bytes, step: Step<bool>)
    requires Authentication.RegistrationLaw(w, s, name, step) && step.value
    ensures Requests(step.events) == [Registration(name), Authentication.PublicKeyRequest(w, step.next.id, name)]
  {
  }

  lemma ReliableOpen(c: Channel)
    requires Reliable(c)
    ensures c.open
  {
  }

  lemma ReliableKept(c: Channel, d: Channel)
    requires Reliable(c) && d.open == c.open && d.attempts == c.attempts && d.faults == c.faults
    ensures Reliable(d)
  {
  }

  /**
   * A new client whose disk works and whose line holds, against a server that assigns an identifier,
   * sends a 32-byte key that decrypts, and answers every file in at most four attempts: the run succeeds,
   * reads exactly those answers and leaves its credentials for the next.
   */
  lemma FreshRunCompletes(w: World, s: State, id: ClientId, registered: ServerResponse, key: ServerResponse,
                          scripts: seq<Script>, rest: Bytes)
    requires w.config.Some? && w.connects && s.disk.meInfo.None? && w.access.meCreates && w.access.keyCreates
    requires Reliable(s.channel.(open := true))
    requires s.channel.incoming == FrameBytes(registered) + (FrameBytes(key) + (ScriptsBytes(scripts) + rest))
    requires Proper(registered, 1600, id) && Proper(key, 1602, id)
    requires |key.payload| == AES_KEY_PAYLOAD_SIZE && |w.crypto.rsaDecrypt(w.crypto.generated, key.payload[16..])| == 32
    requires |scripts| == |w.config.value.files|
    requires forall i :: 0 <= i < |scripts| ==>
      Serves(scripts[i], w, s.(id := id, aesKey := w.crypto.rsaDecrypt(w.crypto.generated, key.payload[16..])),
             w.config.value.files[i])
    ensures Run(w, s).value && Run(w, s).next.channel.incoming == rest
    ensures Run(w, s).next.disk == Saved(w, w.config.value.clientName, id)
    ensures
      var info, aesKey := w.config.value, w.crypto.rsaDecrypt(w.crypto.generated, key.payload[16..]);
      && Prepared(w, aesKey, info.files)
      && Requests(Run(w, s).events) ==
         [Registration(info.clientName), Authentication.PublicKeyRequest(w, id, info.clientName)] +
         Exchanges(w, aesKey, id, info.files, Counts(scripts))
  {
    hide Requests, Exchanges, Counts, Prepared, RegisterAndExchangeKeys, SendFiles, FrameBytes, ScriptsBytes, Serves,
         Reliable, Proper;
    var s0 := s.(channel := s.channel.(open := true));
    var files := w.config.value.files;
    RegistrationCompletes(w, s0, w.config.value.clientName, id, registered, key, ScriptsBytes(scripts) + rest);
    var s1 := RegisterAndExchangeKeys(w, s0, w.config.value.clientName).next;
    var t := s.(id := id, aesKey := w.crypto.rsaDecrypt(w.crypto.generated, key.payload[16..]));
    forall i | 0 <= i < |files| ensures Serves(scripts[i], w, s1, files[i]) {
      SameServes(scripts[i], w, t, s1, files[i]);
    }
    FilesComplete(w, s1, files, scripts, rest);
    RequestsAppend(RegisterAndExchangeKeys(w, s0, w.config.value.clientName).events, SendFiles(w, s1, files).events);
  }

  lemma ReconnectionCompletes(w: World, s: State, approved: ServerResponse, rest: Bytes)
    requires Reliable(s.channel) && s.channel.incoming == FrameBytes(approved) + rest
    requires LoadCredentials(w, s.disk).Some?
    requires Proper(approved, 1605, LoadCredentials(w, s.disk).value.0.uuid)
    ensures
      var (info, key) := LoadCredentials(w, s.disk).value;
      var step := TryReconnect(w, s);
      && step.value == Reconnected && step.next.id == info.uuid && |approved.payload| == AES_KEY_PAYLOAD_SIZE
      && step.next.aesKey == w.crypto.rsaDecrypt(key, approved.payload[16..])
      && Reliable(step.next.channel) && step.next.channel.incoming == rest
  {
    hide Send, Receive, FrameBytes, Encode, Reliable, TakeAesKey, LoadCredentials;
    var (info, key) := LoadCredentials(w, s.disk).value;
    var t := s.(privateKey := Some(key), id := info.uuid);
    var r := Reconnect(info.uuid, info.name);
    SendGetsThrough(t, r);
    var sent := Send(t, r);
    ReliableOpen(sent.next.channel);
    ReceiveTakesFrame(sent.next, [RECONNECT_APPROVED, RECONNECT_REJECTED], approved, rest);
    var received := Receive(sent.next, [RECONNECT_APPROVED, RECONNECT_REJECTED]);
    ReliableKept(sent.next.channel, received.next.channel);
    KeyTaken(w, received.next, approved);
  }

  /**
   * A returning client whose credentials load and whose line holds, against a server that approves the
   * stored identifier and answers every file: the run succeeds and reads exactly those answers.
   */
  lemma ReturningRunCompletes(w: World, s: State, approved: ServerResponse, scripts: seq<Script>, rest: Bytes)
    requires w.config.Some? && w.connects && s.disk.meInfo.Some? && LoadCredentials(w, s.disk).Some?
    requires Reliable(s.channel.(open := true))
    requires s.channel.incoming == FrameBytes(approved) + (ScriptsBytes(scripts) + rest)
    requires Proper(approved, 1605, LoadCredentials(w, s.disk).value.0.uuid)
    requires |approved.payload| == AES_KEY_PAYLOAD_SIZE
    requires |w.crypto.rsaDecrypt(LoadCredentials(w, s.disk).value.1, approved.payload[16..])| == 32
    requires |scripts| == |w.config.value.files|
    requires
      var (info, key) := LoadCredentials(w, s.disk).value;
      var t := s.(id := info.uuid, aesKey := w.crypto.rsaDecrypt(key, approved.payload[16..]));
      forall i :: 0 <= i < |scripts| ==> Serves(scripts[i], w, t, w.config.value.files[i])
    ensures Run(w, s).value && Run(w, s).next.channel.incoming == rest
  {
    hide TryReconnect, RegisterAndExchangeKeys, SendFiles, FrameBytes, ScriptsBytes, Serves, Reliable, Proper,
         LoadCredentials;
    var s0 := s.(channel := s.channel.(open := true));
    var files := w.config.value.files;
    var (info, key) := LoadCredentials(w, s.disk).value;
    ReconnectionCompletes(w, s0, approved, ScriptsBytes(scripts) + rest);
    var s1 := TryReconnect(w, s0).next;
    var t := s.(id := info.uuid, aesKey := w.crypto.rsaDecrypt(key, approved.payload[16..]));
    forall i | 0 <= i < |files| ensures Serves(scripts[i], w, s1, files[i]) {
      SameServes(scripts[i], w, t, s1, files[i]);
    }
    FilesComplete(w, s1, files, scripts, rest);
  }

  /**
   * So the client of such a first run is known again: the next run that finds the disk as it was left,
   * against a server that approves the identifier it assigned, succeeds without registering.
   */
  lemma SecondRunCompletes(w: World, id: ClientId, w': World, s': State, key': PrivateKey,
                           approved: ServerResponse, scripts: seq<Script>, rest: Bytes)
    requires w.config.Some? && s'.disk == Saved(w, w.config.value.clientName, id)
    requires
      var key := w.crypto.toBase64(w.crypto.generated);
      OneLine(w.config.value.clientName) && key != [] && OneLine(key) && w'.crypto.fromBase64(key) == Some(key')
    requires w'.config.Some? && w'.connects && w'.access.meOpens
    requires Reliable(s'.channel.(open := true))
    requires s'.channel.incoming == FrameBytes(approved) + (ScriptsBytes(scripts) + rest)
    requires Proper(approved, 1605, id) && |approved.payload| == AES_KEY_PAYLOAD_SIZE
    requires |w'.crypto.rsaDecrypt(key', approved.payload[16..])| == 32
    requires |scripts| == |w'.config.value.files|
    requires
      var t := s'.(id := id, aesKey := w'.crypto.rsaDecrypt(key', approved.payload[16..]));
      forall i :: 0 <= i < |scripts| ==> Serves(scripts[i], w', t, w'.config.value.files[i])
    ensures Run(w', s').value && Run(w', s').next.channel.incoming == rest
    ensures Credentials.Starts(w', s', Reconnect(id, w.config.value.clientName))
  {
    hide Run, FrameBytes, ScriptsBytes, Serves, Reliable, Proper, LoadClientInfo, LoadPrivateKey, InfoText;
    var name, key := w.config.value.clientName, w.crypto.toBase64(w.crypto.generated);
    Credentials.SavedIsLoaded(s'.disk, w'.access, name, id, key);
    assert LoadCredentials(w', s'.disk) == Some((ClientInfo(name, id, key), key'));
    ReturningRunCompletes(w', s', approved, scripts, rest);
    Credentials.RunStarts(w', s');
  }

  // ---- a client whose credentials are of no use ----

  /** A 1606, of the right size. */
  predicate Rejection(r: ServerResponse) {
    WellSized(r) && r.header.code == 1606
  }

  /** What such a client is sent first: nothing if it cannot load its credentials, else a 1606. */
  function RejectionBytes(w: World, d: Disk, rejected: ServerResponse): Bytes {
    if LoadCredentials(w, d).None? then [] else FrameBytes(rejected)
  }

  /** What it sends first: nothing, or an 827 under the stored name and identifier. */
  function Reconnection827(w: World, d: Disk): seq<Request> {
    match LoadCredentials(w, d)
    case None => []
    case Some((info, _)) => [Reconnect(info.uuid, info.name)]
  }

  lemma RejectedIsForgotten(w: World, s: State, rejected: ServerResponse, rest: Bytes)
    requires Reliable(s.channel) && s.disk.meInfo.Some? && Rejection(rejected)
    requires s.channel.incoming == RejectionBytes(w, s.disk, rejected) + rest
    ensures
      var step := TryReconnect(w, s);
      && step.value == NeedsRegistration && Requests(step.events) == Reconnection827(w, s.disk)
      && Reliable(step.next.channel) && step.next.channel.incoming == rest
  {
    hide Send, Receive, FrameBytes, Encode, Reliable, TakeAesKey, LoadCredentials, Requests;
    match LoadCredentials(w, s.disk)
    case None =>
      OneEvent(CredentialsRemoved);
      assert [] + rest == rest;
    case Some((info, key)) =>
      var t := s.(privateKey := Some(key), id := info.uuid);
      var r := Reconnect(info.uuid, info.name);
      SendGetsThrough(t, r);
      var sent := Send(t, r);
      ReliableOpen(sent.next.channel);
      ReceiveTakesFrame(sent.next, [RECONNECT_APPROVED, RECONNECT_REJECTED], rejected, rest);
      var received := Receive(sent.next, [RECONNECT_APPROVED, RECONNECT_REJECTED]);
      ReliableKept(sent.next.channel, received.next.channel);
      Authentication.ReconnectionShape(w, s);
      Authentication.TriedFirst(w, s);
  }

  /**
   * A client whose stored credentials are of no use, or are rejected, registers again on a line and a disk
   * that work: it sends exactly [827] 825 826 and ends up with the new identifier, key and credentials.
   */
  lemma AuthenticationStartsAgain(w: World, s: State, name: Bytes, id: ClientId, rejected: ServerResponse,
                                  registered: ServerResponse, key: ServerResponse, rest: Bytes)
    requires Reliable(s.channel) && s.disk.meInfo.Some? && w.access.meCreates && w.access.keyCreates
    requires
      s.channel.incoming ==
      RejectionBytes(w, s.disk, rejected) + (FrameBytes(registered) + (FrameBytes(key) + rest))
    requires Rejection(rejected) && Proper(registered, 1600, id) && Proper(key, 1602, id)
    ensures
      var step := Authenticate(w, s, name);
      && step.value && step.next.id == id && |key.payload| == 144
      && step.next.aesKey == w.crypto.rsaDecrypt(w.crypto.generated, key.payload[16..])
      && step.next.disk == Saved(w, name, id)
      && Requests(step.events) ==
         Reconnection827(w, s.disk) + [Registration(name), Authentication.PublicKeyRequest(w, id, name)]
      && Reliable(step.next.channel) && step.next.channel.incoming == rest
  {
    hide TryReconnect, RegisterAndExchangeKeys, FrameBytes, Reliable, Requests, RejectionBytes, Reconnection827,
         Proper, Rejection, Saved;
    RejectedIsForgotten(w, s, rejected, FrameBytes(registered) + (FrameBytes(key) + rest));
    var t := TryReconnect(w, s).next;
    RegistrationCompletes(w, t, name, id, registered, key, rest);
    RequestsAppend(TryReconnect(w, s).events, RegisterAndExchangeKeys(w, t, name).events);
  }

  /** So a whole run of such a client returns true, with the exchanges of its files after that. */
  lemma RejectedRunCompletes(w: World, s: State, id: ClientId, rejected: ServerResponse, registered: ServerResponse,
                             key: ServerResponse, scripts: seq<Script>, rest: Bytes)
    requires w.config.Some? && w.connects && s.disk.meInfo.Some? && w.access.meCreates && w.access.keyCreates
    requires Reliable(s.channel.(open := true))
    requires
      s.channel.incoming ==
      RejectionBytes(w, s.disk, rejected) +
      (FrameBytes(registered) + (FrameBytes(key) + (ScriptsBytes(scripts) + rest)))
    requires Rejection(rejected) && Proper(registered, 1600, id) && Proper(key, 1602, id)
    requires |key.payload| == 144 && |w.crypto.rsaDecrypt(w.crypto.generated, key.payload[16..])| == 32
    requires |scripts| == |w.config.value.files|
    requires forall i :: 0 <= i < |scripts| ==>
      Serves(scripts[i], w, s.(id := id, aesKey := w.crypto.rsaDecrypt(w.crypto.generated, key.payload[16..])),
             w.config.value.files[i])
    ensures Run(w, s).value && Run(w, s).next.channel.incoming == rest
    ensures Run(w, s).next.disk == Saved(w, w.config.value.clientName, id)
    ensures
      var info, aesKey := w.config.value, w.crypto.rsaDecrypt(w.crypto.generated, key.payload[16..]);
      && Prepared(w, aesKey, info.files)
      && Requests(Run(w, s).events) ==
         Reconnection827(w, s.disk) +
         [Registration(info.clientName), Authentication.PublicKeyRequest(w, id, info.clientName)] +
         Exchanges(w, aesKey, id, info.files, Counts(scripts))
  {
    hide Requests, Exchanges, Counts, Prepared, Authenticate, SendFiles, FrameBytes, ScriptsBytes, Serves,
         Reliable, Proper, Rejection, RejectionBytes, Reconnection827, Saved;
    var s0 := s.(channel := s.channel.(open := true));
    var info := w.config.value;
    var files := info.files;
    AuthenticationStartsAgain(w, s0, info.clientName, id, rejected, registered, key, ScriptsBytes(scripts) + rest);
    var auth := Authenticate(w, s0, info.clientName);
    var s1 := auth.next;
    var t := s.(id := id, aesKey := w.crypto.rsaDecrypt(w.crypto.generated, key.payload[16..]));
    forall i | 0 <= i < |files| ensures Serves(scripts[i], w, s1, files[i]) {
      SameServes(scripts[i], w, t, s1, files[i]);
    }
    FilesComplete(w, s1, files, scripts, rest);
    RequestsAppend(auth.events, SendFiles(w, s1, files).events);
  }
}
