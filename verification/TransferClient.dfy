/** The client's classes, which do what the Session module says, step by step. */
module TransferClient {
  import opened Types
  import opened Bitwise
  import opened Protocol
  import opened Config
  import opened Session
  import opened PacketBuilder
  import Cksum
  import CrcNumber
  import Hex

  /** The socket of NetworkClient.cpp. */
  class NetworkClient {
    const faults: seq<Option<nat>>
    var open: bool
    var incoming: Bytes
    var attempts: nat
    ghost var wire: Bytes
    ghost var consumed: Bytes

    ghost function View(): Channel
      reads this
    {
      Channel(open, incoming, faults, attempts, wire, consumed)
    }

    constructor (faults: seq<Option<nat>>, incoming: Bytes)
      ensures View() == Channel(false, incoming, faults, 0, [], [])
    {
      this.faults, this.incoming := faults, incoming;
      open, attempts, wire, consumed := false, 0, [], [];
    }

    method Connect(reachable: bool) returns (ok: bool)
      modifies this
      ensures ok == reachable && (ok ==> View() == old(View()).(open := true))
      ensures !ok ==> View() == old(View()).(open := false)
    {
      if open {
        Disconnect();
      }
      open := reachable;
      ok := reachable;
    }

    method Send(data: Bytes) returns (ok: bool)
      modifies this
      ensures (ok, View()) == ChannelSend(old(View()), data)
    {
      var fault := if attempts < |faults| then faults[attempts] else None;
      attempts := attempts + 1;
      if !open {
        return false;
      }
      if data == [] {
        return true;
      }
      match fault {
        case None =>
          wire := wire + data;
          return true;
        case Some(k) =>
          wire := wire + Take(data, k);
          return false;
      }
    }

    method ReceiveExact(n: nat) returns (buffer: Bytes)
      modifies this
      ensures (buffer, View()) == ChannelReceive(old(View()), n)
    {
      if !open || n == 0 {
        return [];
      }
      if |incoming| < n {
        consumed := consumed + incoming;
        incoming := [];
        Disconnect();
        return [];
      }
      buffer := incoming[..n];
      incoming := incoming[n..];
      consumed := consumed + buffer;
    }

    method Disconnect()
      modifies this`open
      ensures !open
    {
      if open {
        open := false;
      }
    }
  }

  /** The two credential files and the record loaded from them. */
  class ConfigManager {
    const access: DiskAccess
    const transferInfo: Option<TransferInfo>
    var meInfo: Option<Bytes>
    var privKey: Option<Bytes>
    var clientInfo: ClientInfo

    ghost function View(): Disk
      reads this
    {
      Disk(meInfo, privKey)
    }

    constructor (access: DiskAccess, transferInfo: Option<TransferInfo>, disk: Disk)
      ensures View() == disk && this.access == access && this.transferInfo == transferInfo
    {
      this.access, this.transferInfo := access, transferInfo;
      meInfo, privKey := disk.meInfo, disk.privKey;
      clientInfo := ClientInfo([], ZERO_ID, []);
    }

    method LoadClientInfo() returns (ok: bool)
      modifies this`clientInfo
      ensures Config.LoadClientInfo(View(), access) == if ok then Some(clientInfo) else None
      ensures !ok ==> clientInfo == old(clientInfo)
    {
      if meInfo.None? || !access.meOpens {
        return false;
      }
      var first := GetLine(meInfo.value);
      if first.None? {
        return false;
      }
      var second := GetLine(first.value.1);
      if second.None? {
        return false;
      }
      var third := GetLine(second.value.1);
      if third.None? {
        return false;
      }
      var uuid := Hex.ToBytesLoop(second.value.0);
      if uuid.None? {
        return false;
      }
      clientInfo := ClientInfo(first.value.0, uuid.value, third.value.0);
      ok := true;
    }

    method LoadPrivateKey() returns (key: Option<Bytes>)
      ensures key == Config.LoadPrivateKey(View(), access)
    {
      if privKey.None? || !access.keyOpens {
        return None;
      }
      var line := GetLine(privKey.value);
      if line.None? || line.value.0 == [] {
        return None;
      }
      key := Some(line.value.0);
    }

    method SaveClientInfo(name: Bytes, uuid: ClientId, key: Bytes) returns (ok: bool)
      modifies this`meInfo, this`privKey
      ensures (ok, View()) == Config.SaveClientInfo(old(View()), access, name, uuid, key)
    {
      if !access.meCreates {
        return false;
      }
      var hex := Hex.ToHexLoop(uuid);
      var text := name + [NEWLINE];
      text := text + hex + [NEWLINE];
      text := text + key + [NEWLINE];
      meInfo := Some(text);
      if !access.keyCreates {
        return false;
      }
      privKey := Some(key);
      ok := true;
    }

    method RemoveClientInfo()
      modifies this`meInfo, this`privKey
      ensures View() == Config.RemoveClientInfo(old(View()), access)
    {
      if access.meRemoves {
        meInfo := None;
      }
      if access.keyRemoves {
        privKey := None;
      }
    }
  }

  /** The keys CryptoHelper.cpp holds; the algorithms are the library's. */
  class CryptoHelper {
    const lib: Crypto
    var privateKey: Option<PrivateKey>
    var publicKey: Option<PrivateKey>

    constructor (lib: Crypto)
      ensures this.lib == lib && privateKey == None && publicKey == None
    {
      this.lib := lib;
      privateKey, publicKey := None, None;
    }

    method GenerateRsaKeys()
      modifies this
      ensures privateKey == publicKey == Some(lib.generated)
    {
      privateKey, publicKey := Some(lib.generated), Some(lib.generated);
    }

    method GetPublicKeyDER() returns (der: Bytes)
      ensures der == if publicKey.None? then [] else lib.publicDer(publicKey.value)
    {
      der := if publicKey.None? then [] else lib.publicDer(publicKey.value);
    }

    method GetPrivateKeyBase64() returns (text: Bytes)
      ensures text == if privateKey.None? then [] else lib.toBase64(privateKey.value)
    {
      text := if privateKey.None? then [] else lib.toBase64(privateKey.value);
    }

    method LoadPrivateKeyBase64(text: Bytes) returns (ok: bool)
      modifies this`privateKey
      ensures ok == lib.fromBase64(text).Some?
      ensures privateKey == if ok then lib.fromBase64(text) else old(privateKey)
    {
      var key := lib.fromBase64(text);
      ok := key.Some?;
      if ok {
        privateKey := key;
      }
    }

    method DecryptAesKey(cipher: Bytes) returns (key: Bytes)
      ensures privateKey.None? || cipher == [] ==> key == []
      ensures privateKey.Some? && cipher != [] ==> key == lib.rsaDecrypt(privateKey.value, cipher)
    {
      key := if privateKey.None? || cipher == [] then [] else lib.rsaDecrypt(privateKey.value, cipher);
    }
  }

  class TransferClient {
    const world: World
    const config: ConfigManager
    const client: NetworkClient
    const crypto: CryptoHelper
    var clientId: ClientId
    var decryptedAesKey: Bytes
    // What the client did so far, in order.
    ghost var trace: seq<Event>

    ghost predicate Valid()
    {
      config.access == world.access && config.transferInfo == world.config && crypto.lib == world.crypto
    }

    ghost function View(): State
      reads this, config, client, crypto
    {
      State(client.View(), clientId, decryptedAesKey, crypto.privateKey, config.View())
    }

    constructor (world: World, disk: Disk, incoming: Bytes, faults: seq<Option<nat>>)
      ensures Valid() && fresh(config) && fresh(client) && fresh(crypto)
      ensures View() == State(Channel(false, incoming, faults, 0, [], []), ZERO_ID, [], None, disk)
      ensures trace == [] && this.world == world
    {
      this.world := world;
      config := new ConfigManager(world.access, world.config, disk);
      client := new NetworkClient(faults, incoming);
      crypto := new CryptoHelper(world.crypto);
      clientId, decryptedAesKey, trace := ZERO_ID, [], [];
    }

    /** Sends a built packet and notes it in the trace. */
    method SendPacket(packet: Bytes, ghost request: Request) returns (ok: bool)
      requires packet == Encode(request)
      modifies this`trace, client
      ensures
        var step := Send(old(View()), request);
        ok == step.value && View() == step.next && trace == old(trace) + step.events
    {
      hide Encode;
      ok := client.Send(packet);
      trace := trace + [if ok then Sent(request) else SendFailed(request)];
    }

    method ReceiveResponse(acceptedCodes: seq<uint16>) returns (response: Option<ServerResponse>)
      modifies this`trace, client
      ensures
        var step := Receive(old(View()), acceptedCodes);
        response == step.value && View() == step.next && trace == old(trace) + step.events
    {
      var head := client.ReceiveExact(RESPONSE_HEADER_SIZE);
      var header := ParseHeader(head);
      if header.None? {
        trace := trace + [Refused];
        return None;
      }
      var expected := ExpectedPayloadSize(header.value.code);
      if expected.None? || header.value.payloadSize != expected.value {
        client.Disconnect();
        trace := trace + [Refused];
        return None;
      }
      var payload := client.ReceiveExact(header.value.payloadSize);
      if |payload| != header.value.payloadSize {
        trace := trace + [Refused];
        return None;
      }
      if header.value.code !in acceptedCodes {
        trace := trace + [Refused];
        return None;
      }
      if EchoesId(header.value.code) && Take(payload, UUID_SIZE) != clientId {
        trace := trace + [Refused];
        return None;
      }
      response := Some(ServerResponse(header.value, payload));
      trace := trace + [Accepted(response.value)];
    }

    /** The second half of registering: 826, its answer and the key in it. */
    method ExchangeKeys(clientName: Bytes) returns (ok: bool)
      requires Valid() && crypto.publicKey == Some(world.crypto.generated)
      modifies this`trace, this`decryptedAesKey, client
      ensures
        var step := SendPublicKey(world, old(View()), clientName);
        ok == step.value && View() == step.next && trace == old(trace) + step.events
    {
      hide Encode, Send, Receive, TakeAesKey;
      var der := crypto.GetPublicKeyDER();
      var packet := BuildPublicKeyExchange(clientId, clientName, der);
      var sent := SendPacket(packet, PublicKey(clientId, clientName, der));
      if !sent {
        return false;
      }
      var response := ReceiveResponse([AES_KEY_RECEIVED]);
      if response.None? {
        return false;
      }
      TakeUnfolds(world, View(), response.value.payload);
      var aes := ParseAesKey(response.value.payload);
      if aes.None? {
        return false;
      }
      decryptedAesKey := crypto.DecryptAesKey(aes.value.encryptedAesKey);
      ok := true;
    }

    /** The first half after an identifier was assigned: new keys, saved with it before 826 goes out. */
    method SaveAndExchangeKeys(clientName: Bytes) returns (ok: bool)
      requires Valid()
      modifies this`trace, this`decryptedAesKey, client, crypto, config
      ensures
        var step := SaveAndSendKey(world, old(View()), clientName);
        ok == step.value && View() == step.next && trace == old(trace) + step.events
    {
      hide Config.SaveClientInfo, SendPublicKey;
      ghost var t := trace;
      crypto.GenerateRsaKeys();
      var text := crypto.GetPrivateKeyBase64();
      var saved := config.SaveClientInfo(clientName, clientId, text);
      trace := trace + [if saved then CredentialsSaved else SaveFailed];
      if !saved {
        return false;
      }
      Join(t, [], [CredentialsSaved], SendPublicKey(world, View(), clientName).events);
      ok := ExchangeKeys(clientName);
    }

    method RegisterAndExchangeKeys(clientName: Bytes) returns (ok: bool)
      requires Valid()
      modifies this`trace, this`clientId, this`decryptedAesKey, client, crypto, config
      ensures
        var step := Session.RegisterAndExchangeKeys(world, old(View()), clientName);
        ok == step.value && View() == step.next && trace == old(trace) + step.events
    {
      hide Encode, Send, Receive, SaveAndSendKey;
      ghost var t := trace;
      var packet := BuildRegistration(clientName);
      var sent := SendPacket(packet, Registration(clientName));
      if !sent {
        return false;
      }
      var registration := ReceiveResponse([REGISTRATION_SUCCESS]);
      if registration.None? {
        return false;
      }
      var newId := ParseClientId(registration.value.payload);
      if newId.None? {
        return false;
      }
      clientId := newId.value;
      ghost var t1 := trace;
      Join(t, [], t1[|t|..], SaveAndSendKey(world, View(), clientName).events);
      ok := SaveAndExchangeKeys(clientName);
    }

    lemma Join(t: seq<Event>, a: seq<Event>, b: seq<Event>, c: seq<Event>)
      ensures t + (a + (b + c)) == t + a + b + c
    {
    }

    lemma TakeUnfolds(w: World, s: State, payload: Bytes)
      ensures TakeAesKey(w, s, payload) ==
        if |payload| < UUID_SIZE then Step(false, [], s)
        else Step(true, [], s.(aesKey := DecryptAesKey(w, s.privateKey, payload[16..])))
    {
    }

    /** Reconnecting once the stored credentials are loaded. */
    method ReconnectAs(name: Bytes) returns (ok: bool, needsRegistration: bool)
      requires Valid()
      modifies this`trace, this`decryptedAesKey, client, config
      ensures
        var step := Reconnecting(world, old(View()), name);
        ok == (step.value == Reconnected) && needsRegistration == (step.value == NeedsRegistration) &&
        View() == step.next && trace == old(trace) + step.events
    {
      hide Encode, Send, Receive, Config.RemoveClientInfo, TakeAesKey;
      ok, needsRegistration := false, false;
      var packet := BuildReconnect(clientId, name);
      var sent := SendPacket(packet, Reconnect(clientId, name));
      if !sent {
        return;
      }
      var response := ReceiveResponse([RECONNECT_APPROVED, RECONNECT_REJECTED]);
      if response.None? {
        return;
      }
      if response.value.header.code == RECONNECT_REJECTED {
        config.RemoveClientInfo();
        trace := trace + [CredentialsRemoved];
        return false, true;
      }
      TakeUnfolds(world, View(), response.value.payload);
      var aes := ParseAesKey(response.value.payload);
      if aes.None? {
        return;
      }
      decryptedAesKey := crypto.DecryptAesKey(aes.value.encryptedAesKey);
      ok := true;
    }

    method TryReconnect() returns (ok: bool, needsRegistration: bool)
      requires Valid()
      modifies this`trace, this`clientId, this`decryptedAesKey, client, crypto, config
      ensures
        var step := Session.TryReconnect(world, old(View()));
        ok == (step.value == Reconnected) && needsRegistration == (step.value == NeedsRegistration) &&
        View() == step.next && trace == old(trace) + step.events
    {
      hide Reconnecting, Config.RemoveClientInfo, Config.LoadClientInfo, Config.LoadPrivateKey;
      var stored := config.LoadPrivateKey();
      var loaded := config.LoadClientInfo();
      if loaded {
        loaded := crypto.LoadPrivateKeyBase64(if stored.Some? then stored.value else config.clientInfo.privateKey);
      }
      if !loaded {
        config.RemoveClientInfo();
        trace := trace + [CredentialsRemoved];
        return false, true;
      }
      clientId := config.clientInfo.uuid;
      ok, needsRegistration := ReconnectAs(config.clientInfo.name);
    }

    method Authenticate(clientName: Bytes) returns (ok: bool)
      requires Valid()
      modifies this`trace, this`clientId, this`decryptedAesKey, client, crypto, config
      ensures
        var step := Session.Authenticate(world, old(View()), clientName);
        ok == step.value && View() == step.next && trace == old(trace) + step.events
    {
      hide Session.TryReconnect, Session.RegisterAndExchangeKeys;
      var needsRegistration := config.meInfo.None?;
      if !needsRegistration {
        ok, needsRegistration := TryReconnect();
        if ok {
          return true;
        }
      }
      ok := false;
      if needsRegistration {
        ok := RegisterAndExchangeKeys(clientName);
      }
    }

    /** The loop so far and the attempts still to come make up the whole exchange. */
    ghost predicate Remaining(start: State, before: seq<Event>, f: FileData, left: nat)
      requires 1 <= left <= MAX_CRC_ATTEMPTS
      reads this, config, client, crypto
    {
      var whole := Attempts(start, f, MAX_CRC_ATTEMPTS);
      var rest := Attempts(View(), f, left);
      whole.value == rest.value && whole.next == rest.next && before + whole.events == trace + rest.events
    }

    method SendFileOnce(f: FileData) returns (sent: bool)
      modifies this`trace, client
      ensures
        var step := Send(old(View()), FileRequest(old(clientId), f));
        sent == step.value && View() == step.next && trace == old(trace) + step.events
    {
      hide Encode, Send;
      var packet := BuildSendFile(clientId, f.origFileSize, 1, 1, f.fileName, f.encryptedContent);
      sent := SendPacket(packet, FileRequest(clientId, f));
    }

    method SendStatus(f: FileData, verdict: Verdict) returns (sent: bool)
      modifies this`trace, client
      ensures
        var step := Send(old(View()), CrcStatus(old(clientId), verdict, f.fileName));
        sent == step.value && View() == step.next && trace == old(trace) + step.events
    {
      hide Encode, Send;
      var packet := BuildCrcStatus(clientId, verdict, f.fileName);
      sent := SendPacket(packet, CrcStatus(clientId, verdict, f.fileName));
    }

    /** Sends the verdict that ends the exchange and awaits its 1604. */
    method Conclude(f: FileData, verdict: Verdict) returns (ok: bool)
      modifies this`trace, client
      ensures
        var step := Confirm(old(View()), f, verdict);
        ok == step.value && View() == step.next && trace == old(trace) + step.events
    {
      hide Send, Receive;
      var sent := SendStatus(f, verdict);
      if !sent {
        return false;
      }
      var response := ReceiveResponse([MESSAGE_CONFIRMED]);
      ok := verdict == CrcValid && response.Some?;
    }

    /** Sends the file and awaits a report on it with the right size. */
    method AwaitReport(f: FileData) returns (reply: Option<FileCrcResponse>)
      modifies this`trace, client
      ensures
        var step := Report(old(View()), f);
        reply == step.value && View() == step.next && trace == old(trace) + step.events
    {
      hide Send, Receive, FileRequest, ParseFileCrc;
      var sent := SendFileOnce(f);
      if !sent {
        return None;
      }
      var response := ReceiveResponse([FILE_RECEIVED_WITH_CRC]);
      if response.None? {
        return None;
      }
      reply := ParseFileCrcPayload(response.value.payload);
      if reply.Some? && reply.value.contentSize != |f.encryptedContent| {
        reply := None;
      }
    }

    /** The body of the loop of transferAndVerify(): one attempt, which may end the exchange. */
    method TryOnce(f: FileData, attempt: nat) returns (ended: bool, ok: bool)
      requires 1 <= attempt <= MAX_CRC_ATTEMPTS
      modifies this`trace, client
      ensures
        var step := Attempts(old(View()), f, MAX_CRC_ATTEMPTS + 1 - attempt);
        if ended then ok == step.value && View() == step.next && trace == old(trace) + step.events
        else
          && attempt < MAX_CRC_ATTEMPTS
          && var rest := Attempts(View(), f, MAX_CRC_ATTEMPTS - attempt);
             step.value == rest.value && step.next == rest.next && old(trace) + step.events == trace + rest.events
    {
      hide Send, Report, Attempts, Confirm;
      ghost var s, t := View(), trace;
      AttemptsUnfold(s, f, MAX_CRC_ATTEMPTS + 1 - attempt);
      ok := false;
      var reply := AwaitReport(f);
      if reply.None? {
        return true, false;
      }
      ghost var s1, t1 := View(), trace;
      ended := true;
      if reply.value.cksum == f.crc {
        Rejoin(t, [], t1[|t|..], Confirm(s1, f, CrcValid).events);
        ok := Conclude(f, CrcValid);
      } else if attempt < MAX_CRC_ATTEMPTS {
        ended := false;
        var sent := SendStatus(f, CrcInvalidRetry);
        if !sent {
          return true, false;
        }
        Rejoin(t, t1[|t|..], trace[|t1|..], Attempts(View(), f, MAX_CRC_ATTEMPTS - attempt).events);
      } else {
        Rejoin(t, [], t1[|t|..], Confirm(s1, f, CrcInvalidAbort).events);
        ok := Conclude(f, CrcInvalidAbort);
      }
    }

    method TransferAndVerify(f: FileData) returns (ok: bool)
      modifies this`trace, client
      ensures
        var step := Session.TransferAndVerify(old(View()), f);
        ok == step.value && View() == step.next && trace == old(trace) + step.events
    {
      hide Attempts;
      ghost var start, before := View(), trace;
      for attempt := 1 to MAX_CRC_ATTEMPTS + 1
        invariant attempt <= MAX_CRC_ATTEMPTS
        invariant Remaining(start, before, f, MAX_CRC_ATTEMPTS + 1 - attempt)
      {
        var ended, verified := TryOnce(f, attempt);
        if ended {
          return verified;
        }
      }
      assert false;
    }

    lemma Rejoin(t: seq<Event>, a: seq<Event>, b: seq<Event>, c: seq<Event>)
      ensures t + (a + b + c) == t + a + b + c
    {
    }

    lemma AttemptsUnfold(s: State, f: FileData, left: nat)
      requires 1 <= left <= MAX_CRC_ATTEMPTS
      ensures
        var report := Report(s, f);
        var again := Send(report.next, CrcStatus(s.id, CrcInvalidRetry, f.fileName));
        Attempts(s, f, left) ==
          if report.value.None? then Step(false, report.events, report.next)
          else if report.value.value.cksum == f.crc then Then(report.events, Confirm(report.next, f, CrcValid))
          else if left == 1 then Then(report.events, Confirm(report.next, f, CrcInvalidAbort))
          else if !again.value then Then(report.events, again)
          else Then(report.events + again.events, Attempts(again.next, f, left - 1))
    {
      hide Send, Report, Confirm;
    }

    method CreateEncryptedFile(path: Bytes) returns (data: Option<FileData>)
      ensures data == Prepare(world, decryptedAesKey, path)
    {
      if path !in world.files || !world.files[path].opens {
        return None;
      }
      var file := world.files[path];
      var computed := Cksum.Memcrc(file.content);
      Cksum.TruncateWidened(Cksum.Crc(file.content));
      var encrypted := EncryptAesCbc(world, decryptedAesKey, file.content);
      if encrypted == [] && |file.content| > 0 {
        return None;
      }
      data := Some(FileData(file.name, Narrow(|file.content|), CrcNumber.Number(Cksum.Truncate(computed)), encrypted));
    }

    method SendSingleFile(path: Bytes) returns (ok: bool)
      modifies this`trace, client
      ensures
        var step := Session.SendSingleFile(world, old(View()), path);
        ok == step.value && View() == step.next && trace == old(trace) + step.events
    {
      hide Attempts, Prepare;
      trace := trace + [FileStarted(path)];
      var data := CreateEncryptedFile(path);
      if data.None? {
        return false;
      }
      ok := TransferAndVerify(data.value);
    }

    /** The files sent so far and those still to come make up all of them. */
    ghost predicate FilesRemaining(start: State, before: seq<Event>, paths: seq<Bytes>, i: nat)
      requires i <= |paths|
      reads this, config, client, crypto
    {
      var whole := SendFiles(world, start, paths);
      var rest := SendFiles(world, View(), paths[i..]);
      whole.value == rest.value && whole.next == rest.next && before + whole.events == trace + rest.events
    }

    lemma SendFilesUnfolds(s: State, paths: seq<Bytes>)
      ensures paths == [] ==> SendFiles(world, s, paths) == Step(true, [], s)
      ensures paths != [] ==>
        var first := Session.SendSingleFile(world, s, paths[0]);
        SendFiles(world, s, paths) ==
          if first.value then Then(first.events, SendFiles(world, first.next, paths[1..])) else first
    {
      hide Session.SendSingleFile;
    }

    /** The loop of run(). */
    method SendAll(paths: seq<Bytes>) returns (allSuccess: bool)
      modifies this`trace, client
      ensures
        var step := SendFiles(world, old(View()), paths);
        allSuccess == step.value && View() == step.next && trace == old(trace) + step.events
    {
      hide Session.SendSingleFile, SendFiles;
      ghost var start, before := View(), trace;
      allSuccess := true;
      assert paths[0..] == paths;
      for i := 0 to |paths|
        invariant allSuccess && FilesRemaining(start, before, paths, i)
      {
        SendFilesUnfolds(View(), paths[i..]);
        assert paths[i..][1..] == paths[i + 1..];
        ghost var t := trace;
        var sent := SendSingleFile(paths[i]);
        if !sent {
          return false;
        }
        Rejoin(t, [], trace[|t|..], SendFiles(world, View(), paths[i + 1..]).events);
      }
      SendFilesUnfolds(View(), []);
      assert paths[|paths|..] == [];
    }

    method Run() returns (ok: bool)
      requires Valid()
      modifies this`trace, this`clientId, this`decryptedAesKey, client, crypto, config
      ensures
        var step := Session.Run(world, old(View()));
        ok == step.value && View() == step.next && trace == old(trace) + step.events
    {
      hide Session.Authenticate, SendFiles;
      if config.transferInfo.None? {
        return false;
      }
      var info := config.transferInfo.value;
      var connected := client.Connect(world.connects);
      if !connected {
        return false;
      }
      var authenticated := Authenticate(info.clientName);
      if !authenticated {
        return false;
      }
      if |decryptedAesKey| != 32 {
        return false;
      }
      ok := SendAll(info.files);
      client.Disconnect();
    }
  }
}
