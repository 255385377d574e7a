/** One run of the client as a function of what the server, the disk and the network do. */
module Session {
  import opened Types
  import opened Bitwise
  import opened Protocol
  import opened Config
  import Cksum
  import CrcNumber

  // ---- the world a run meets ----

  datatype PrivateKey = PrivateKey(der: Bytes)

  /** The cryptographic library, as functions that may fail by returning nothing. */
  datatype Crypto = Crypto(
    generated: PrivateKey,
    publicDer: PrivateKey -> Bytes,
    toBase64: PrivateKey -> Bytes,
    fromBase64: Bytes -> Option<PrivateKey>,
    rsaDecrypt: (PrivateKey, Bytes) -> Bytes,
    aesEncrypt: (Bytes, Octets) -> Bytes)

  datatype TransferInfo = TransferInfo(clientName: Bytes, files: seq<Bytes>)

  datatype LocalFile = LocalFile(name: Bytes, content: Octets, opens: bool)

  datatype World = World(config: Option<TransferInfo>, connects: bool, access: DiskAccess,
                         crypto: Crypto, files: map<Bytes, LocalFile>)

  datatype FileData = FileData(fileName: Bytes, origFileSize: uint32, crc: uint32, encryptedContent: Bytes)

  // ---- the channel ----

  /** incoming is all the server will ever deliver; faults[i] = Some(k) makes the i-th send break after k bytes. */
  datatype Channel = Channel(open: bool, incoming: Bytes, faults: seq<Option<nat>>, attempts: nat,
                             wire: Bytes, consumed: Bytes)

  function FaultOf(c: Channel): Option<nat> {
    if c.attempts < |c.faults| then c.faults[c.attempts] else None
  }

  function ChannelSend(c: Channel, data: Bytes): (bool, Channel) {
    if !c.open then (false, c.(attempts := c.attempts + 1))
    else if data == [] then (true, c.(attempts := c.attempts + 1))
    else match FaultOf(c)
      case None => (true, c.(attempts := c.attempts + 1, wire := c.wire + data))
      case Some(k) => (false, c.(attempts := c.attempts + 1, wire := c.wire + Take(data, k)))
  }

  function ChannelReceive(c: Channel, n: nat): (Bytes, Channel) {
    if !c.open || n == 0 then ([], c)
    else if |c.incoming| >= n then
      (c.incoming[..n], c.(incoming := c.incoming[n..], consumed := c.consumed + c.incoming[..n]))
    else ([], c.(open := false, incoming := [], consumed := c.consumed + c.incoming))
  }

  // ---- events and state ----

  datatype Event =
    | Sent(request: Request)
    | SendFailed(request: Request)
    | Accepted(response: ServerResponse)
    | Refused
    | CredentialsSaved
    | SaveFailed
    | CredentialsRemoved
    | FileStarted(path: Bytes)

  datatype State = State(channel: Channel, id: ClientId, aesKey: Bytes, privateKey: Option<PrivateKey>, disk: Disk)

  /** What a step answers, what it did in order, and the state it leaves. */
  datatype Step<T> = Step(value: T, events: seq<Event>, next: State)

  function Then<T>(events: seq<Event>, step: Step<T>): Step<T> {
    step.(events := events + step.events)
  }

  // ---- requests and responses ----

  function Send(s: State, r: Request): Step<bool> {
    var (ok, channel) := ChannelSend(s.channel, Encode(r));
    Step(ok, [if ok then Sent(r) else SendFailed(r)], s.(channel := channel))
  }

  function Refuse(s: State, c: Channel): Step<Option<ServerResponse>> {
    Step(None, [Refused], s.(channel := c))
  }

  predicate EchoesId(code: uint16) {
    code != REGISTRATION_SUCCESS && code != RECONNECT_REJECTED
  }

  function Receive(s: State, codes: seq<uint16>): Step<Option<ServerResponse>> {
    var (head, c1) := ChannelReceive(s.channel, RESPONSE_HEADER_SIZE);
    match ParseHeader(head)
    case None => Refuse(s, c1)
    case Some(h) =>
      if ExpectedPayloadSize(h.code) != Some(h.payloadSize) then Refuse(s, c1.(open := false))
      else
        var (payload, c2) := ChannelReceive(c1, h.payloadSize);
        if |payload| != h.payloadSize then Refuse(s, c2)
        else if h.code !in codes then Refuse(s, c2)
        else if EchoesId(h.code) && Take(payload, UUID_SIZE) != s.id then Refuse(s, c2)
        else
          var response := ServerResponse(h, payload);
          Step(Some(response), [Accepted(response)], s.(channel := c2))
  }

  // ---- authentication ----

  function DecryptAesKey(w: World, key: Option<PrivateKey>, cipher: Bytes): Bytes {
    if key.None? || cipher == [] then [] else w.crypto.rsaDecrypt(key.value, cipher)
  }

  /** The last step of both ways to authenticate: the key payload of an accepted 1602 or 1605. */
  function TakeAesKey(w: World, s: State, payload: Bytes): Step<bool> {
    match ParseAesKey(payload)
    case None => Step(false, [], s)
    case Some(r) => Step(true, [], s.(aesKey := DecryptAesKey(w, s.privateKey, r.encryptedAesKey)))
  }

  function SendPublicKey(w: World, s: State, name: Bytes): Step<bool> {
    var sent := Send(s, PublicKey(s.id, name, w.crypto.publicDer(w.crypto.generated)));
    if !sent.value then sent
    else
      var received := Receive(sent.next, [AES_KEY_RECEIVED]);
      if received.value.None? then Step(false, sent.events + received.events, received.next)
      else Then(sent.events + received.events, TakeAesKey(w, received.next, received.value.value.payload))
  }

  function SaveAndSendKey(w: World, s: State, name: Bytes): Step<bool> {
    var (saved, disk) := SaveClientInfo(s.disk, w.access, name, s.id, w.crypto.toBase64(w.crypto.generated));
    var s' := s.(privateKey := Some(w.crypto.generated), disk := disk);
    if !saved then Step(false, [SaveFailed], s')
    else Then([CredentialsSaved], SendPublicKey(w, s', name))
  }

  function RegisterAndExchangeKeys(w: World, s: State, name: Bytes): Step<bool> {
    var sent := Send(s, Registration(name));
    if !sent.value then sent
    else
      var received := Receive(sent.next, [REGISTRATION_SUCCESS]);
      var so := sent.events + received.events;
      if received.value.None? then Step(false, so, received.next)
      else match ParseClientId(received.value.value.payload)
        case None => Step(false, so, received.next)
        case Some(id) => Then(so, SaveAndSendKey(w, received.next.(id := id), name))
  }

  /** The stored identity with the key it can be used with. */
  function LoadCredentials(w: World, d: Disk): Option<(ClientInfo, PrivateKey)> {
    match LoadClientInfo(d, w.access)
    case None => None
    case Some(info) =>
      match w.crypto.fromBase64(KeyText(d, w.access, info))
      case None => None
      case Some(key) => Some((info, key))
  }

  datatype Reconnection = Reconnected | NeedsRegistration | ReconnectFailed

  function Forget(w: World, s: State): Step<Reconnection> {
    Step(NeedsRegistration, [CredentialsRemoved], s.(disk := RemoveClientInfo(s.disk, w.access)))
  }

  function Reconnecting(w: World, s: State, name: Bytes): Step<Reconnection> {
    var sent := Send(s, Reconnect(s.id, name));
    if !sent.value then Step(ReconnectFailed, sent.events, sent.next)
    else
      var received := Receive(sent.next, [RECONNECT_APPROVED, RECONNECT_REJECTED]);
      var so := sent.events + received.events;
      if received.value.None? then Step(ReconnectFailed, so, received.next)
      else if received.value.value.header.code == RECONNECT_REJECTED then Then(so, Forget(w, received.next))
      else
        var taken := TakeAesKey(w, received.next, received.value.value.payload);
        Step(if taken.value then Reconnected else ReconnectFailed, so, taken.next)
  }

  function TryReconnect(w: World, s: State): Step<Reconnection> {
    match LoadCredentials(w, s.disk)
    case None => Forget(w, s)
    case Some((info, key)) => Reconnecting(w, s.(privateKey := Some(key), id := info.uuid), info.name)
  }

  function Authenticate(w: World, s: State, name: Bytes): Step<bool> {
    if s.disk.meInfo.None? then RegisterAndExchangeKeys(w, s, name)
    else
      var tried := TryReconnect(w, s);
      match tried.value
      case Reconnected => Step(true, tried.events, tried.next)
      case ReconnectFailed => Step(false, tried.events, tried.next)
      case NeedsRegistration => Then(tried.events, RegisterAndExchangeKeys(w, tried.next, name))
  }

  // ---- files ----

  function FileRequest(id: ClientId, f: FileData): Request {
    SendFile(id, f.origFileSize, 1, 1, f.fileName, f.encryptedContent)
  }

  function Confirm(s: State, f: FileData, verdict: Verdict): Step<bool> {
    var sent := Send(s, CrcStatus(s.id, verdict, f.fileName));
    if !sent.value then sent
    else
      var received := Receive(sent.next, [MESSAGE_CONFIRMED]);
      Step(verdict == CrcValid && received.value.Some?, sent.events + received.events, received.next)
  }

  /** One 828 and the report on it, when an acceptable one with the right size comes. */
  function Report(s: State, f: FileData): Step<Option<FileCrcResponse>> {
    var sent := Send(s, FileRequest(s.id, f));
    if !sent.value then Step(None, sent.events, sent.next)
    else
      var received := Receive(sent.next, [FILE_RECEIVED_WITH_CRC]);
      var so := sent.events + received.events;
      if received.value.None? then Step(None, so, received.next)
      else
        var reply := ParseFileCrc(received.value.value.payload);
        if reply.None? || reply.value.contentSize != |f.encryptedContent| then Step(None, so, received.next)
        else Step(reply, so, received.next)
  }

  /** The attempts from the given one on, when so many are left. */
  function Attempts(s: State, f: FileData, left: nat): Step<bool>
    requires 1 <= left <= MAX_CRC_ATTEMPTS
    decreases left
  {
    var report := Report(s, f);
    if report.value.None? then Step(false, report.events, report.next)
    else if report.value.value.cksum == f.crc then Then(report.events, Confirm(report.next, f, CrcValid))
    else if left == 1 then Then(report.events, Confirm(report.next, f, CrcInvalidAbort))
    else
      var retry := Send(report.next, CrcStatus(s.id, CrcInvalidRetry, f.fileName));
      if !retry.value then Then(report.events, retry)
      else Then(report.events + retry.events, Attempts(retry.next, f, left - 1))
  }

  function TransferAndVerify(s: State, f: FileData): Step<bool> {
    Attempts(s, f, MAX_CRC_ATTEMPTS)
  }

  function EncryptAesCbc(w: World, key: Bytes, content: Octets): Bytes {
    if |key| != 32 then [] else w.crypto.aesEncrypt(key, content)
  }

  function Prepare(w: World, key: Bytes, path: Bytes): Option<FileData> {
    if path !in w.files || !w.files[path].opens then None
    else
      var file := w.files[path];
      var encrypted := EncryptAesCbc(w, key, file.content);
      if encrypted == [] && |file.content| > 0 then None
      else Some(FileData(file.name, Narrow(|file.content|), CrcNumber.Number(Cksum.Crc(file.content)), encrypted))
  }

  function SendSingleFile(w: World, s: State, path: Bytes): Step<bool> {
    match Prepare(w, s.aesKey, path)
    case None => Step(false, [FileStarted(path)], s)
    case Some(f) => Then([FileStarted(path)], TransferAndVerify(s, f))
  }

  function SendFiles(w: World, s: State, paths: seq<Bytes>): Step<bool>
    decreases |paths|
  {
    if paths == [] then Step(true, [], s)
    else
      var first := SendSingleFile(w, s, paths[0]);
      if !first.value then first else Then(first.events, SendFiles(w, first.next, paths[1..]))
  }

  // ---- a run ----

  function Close(s: State): State {
    s.(channel := s.channel.(open := false))
  }

  function Run(w: World, s: State): Step<bool> {
    if w.config.None? then Step(false, [], s)
    else if !w.connects then Step(false, [], Close(s))
    else
      var s0 := s.(channel := s.channel.(open := true));
      var auth := Authenticate(w, s0, w.config.value.clientName);
      if !auth.value || |auth.next.aesKey| != 32 then Step(false, auth.events, auth.next)
      else
        var files := SendFiles(w, auth.next, w.config.value.files);
        Step(files.value, auth.events + files.events, Close(files.next))
  }
}
