/** What authenticating can send, under which identifier, and where the AES key comes from. */
module Authentication {
  import opened Types
  import opened Protocol
  import opened Config
  import opened Session
  import opened SessionFacts
  import opened FileExchange

  function PublicKeyRequest(w: World, id: ClientId, name: Bytes): Request {
    PublicKey(id, name, w.crypto.publicDer(w.crypto.generated))
  }

  /** The AES key is what decrypting the last response, accepted under this code, gives with this private key. */
  predicate KeyFrom(w: World, code: uint16, key: PrivateKey, events: seq<Event>, s: State) {
    && events != [] && events[|events| - 1].Accepted?
    && events[|events| - 1].response.header.code == code
    && |events[|events| - 1].response.payload| == AES_KEY_PAYLOAD_SIZE
    && Take(events[|events| - 1].response.payload, UUID_SIZE) == s.id
    && s.privateKey == Some(key)
    && s.aesKey == w.crypto.rsaDecrypt(key, events[|events| - 1].response.payload[16..])
  }

  predicate Assigns(e: Event, id: ClientId) {
    e.Accepted? && e.response.header.code == REGISTRATION_SUCCESS && Take(e.response.payload, UUID_SIZE) == id
  }

  predicate Rejects(e: Event) {
    e.Accepted? && e.response.header.code == RECONNECT_REJECTED
  }

  /** What must come just before each event of a registration. */
  predicate RegistrationOrderedAt(id: ClientId, events: seq<Event>, j: nat)
    requires j < |events|
  {
    match events[j]
    case Sent(r) => RegistrationRequestAt(id, events, j, r)
    case SendFailed(r) => RegistrationRequestAt(id, events, j, r)
    case CredentialsSaved => j > 0 && Assigns(events[j - 1], id)
    case SaveFailed => j > 0 && Assigns(events[j - 1], id)
    case CredentialsRemoved => false
    case FileStarted(_) => false
    case _ => true
  }

  predicate RegistrationRequestAt(id: ClientId, events: seq<Event>, j: nat, r: Request)
    requires j < |events|
  {
    (r.Registration? && j == 0) || (r.PublicKey? && r.id == id && j > 0 && events[j - 1].CredentialsSaved?)
  }

  ghost predicate RegistrationOrdered(id: ClientId, events: seq<Event>) {
    forall j :: 0 <= j < |events| ==> RegistrationOrderedAt(id, events, j)
  }

  // ---- registration ----

  /** The disk after a save was tried or not, as the trace tells. */
  predicate SaveLaw(w: World, events: seq<Event>, d: Disk, name: Bytes, id: ClientId, d': Disk) {
    var tried := SaveClientInfo(d, w.access, name, id, w.crypto.toBase64(w.crypto.generated));
    && CredentialsRemoved !in events
    && !(CredentialsSaved in events && SaveFailed in events)
    && (if CredentialsSaved in events then tried == (true, d')
        else if SaveFailed in events then tried == (false, d')
        else d' == d)
  }

  ghost predicate RegistrationLaw(w: World, s: State, name: Bytes, step: Step<bool>) {
    var all := [Registration(name), PublicKeyRequest(w, step.next.id, name)];
    && Requests(step.events) <= all
    && RegistrationOrdered(step.next.id, step.events)
    && (step.value ==> Requests(step.events) == all && CredentialsSaved in step.events)
    && (step.value ==> KeyFrom(w, AES_KEY_RECEIVED, w.crypto.generated, step.events, step.next))
    && SaveLaw(w, step.events, s.disk, name, step.next.id, step.next.disk)
    && step.next.channel.attempts <= s.channel.attempts + 2
    && CountReads(step.events) <= 2
  }

  lemma TwoEvents(a: Event, b: Event)
    ensures Requests([a] + [b]) == Requests([a]) + Requests([b])
    ensures CountReads([a] + [b]) == CountReads([a]) + CountReads([b])
  {
    RequestsAppend([a], [b]);
    CountReadsAppend([a], [b]);
  }

  lemma PublicKeyShape(w: World, s: State, name: Bytes)
    requires s.privateKey == Some(w.crypto.generated)
    ensures
      var step := SendPublicKey(w, s, name);
      var r := PublicKeyRequest(w, s.id, name);
      && step.next == s.(channel := step.next.channel, aesKey := step.next.aesKey)
      && Requests(step.events) <= [r]
      && (step.value ==> Requests(step.events) == [r])
      && (step.value ==> KeyFrom(w, AES_KEY_RECEIVED, w.crypto.generated, step.events, step.next))
      && step.next.channel.attempts == s.channel.attempts + 1
      && CountReads(step.events) <= 1
      && step.events != [] && (step.events[0] == Sent(r) || step.events[0] == SendFailed(r))
      && (forall i :: 1 <= i < |step.events| ==> step.events[i].Accepted? || step.events[i].Refused?)
  {
    hide Send, Receive, Requests, CountReads;
    var r := PublicKeyRequest(w, s.id, name);
    var sent := Send(s, r);
    SendFacts(s, r);
    OneEvent(sent.events[0]);
    if sent.value {
      ReceiveFacts(sent.next, [AES_KEY_RECEIVED]);
      var received := Receive(sent.next, [AES_KEY_RECEIVED]);
      OneEvent(received.events[0]);
      TwoEvents(sent.events[0], received.events[0]);
      assert sent.events + received.events + [] == sent.events + received.events;
    }
  }

  lemma SaveShape(w: World, s: State, name: Bytes)
    ensures
      var step := SaveAndSendKey(w, s, name);
      var r := PublicKeyRequest(w, s.id, name);
      && step.next.id == s.id
      && Requests(step.events) <= [r]
      && (forall j :: 1 <= j < |step.events| ==> RegistrationOrderedAt(s.id, step.events, j))
      && step.events != [] && (step.events[0] == CredentialsSaved || step.events[0] == SaveFailed)
      && (step.value ==> Requests(step.events) == [r] && CredentialsSaved in step.events)
      && (step.value ==> KeyFrom(w, AES_KEY_RECEIVED, w.crypto.generated, step.events, step.next))
      && SaveLaw(w, step.events, s.disk, name, s.id, step.next.disk)
      && step.next.channel.attempts <= s.channel.attempts + 1
      && CountReads(step.events) <= 1
  {
    hide SendPublicKey, SaveClientInfo, KeyFrom, Requests, CountReads;
    var (saved, disk) := SaveClientInfo(s.disk, w.access, name, s.id, w.crypto.toBase64(w.crypto.generated));
    var s' := s.(privateKey := Some(w.crypto.generated), disk := disk);
    if saved {
      PublicKeyShape(w, s', name);
      var rest := SendPublicKey(w, s', name);
      OneEvent(CredentialsSaved);
      RequestsAppend([CredentialsSaved], rest.events);
      CountReadsAppend([CredentialsSaved], rest.events);
      LastOf([CredentialsSaved], rest.events);
      KeyFromLater(w, AES_KEY_RECEIVED, w.crypto.generated, [CredentialsSaved], rest.events, rest.next);
      assert ([CredentialsSaved] + rest.events)[0] == CredentialsSaved;
    } else {
      OneEvent(SaveFailed);
    }
  }

  lemma LastOf(a: seq<Event>, b: seq<Event>)
    ensures b != [] ==> (a + b)[|a + b| - 1] == b[|b| - 1]
    ensures forall e :: e in a + b <==> e in a || e in b
  {
  }

  lemma RegistrationEarly(w: World, s: State, name: Bytes, step: Step<bool>)
    requires !step.value && step.next.disk == s.disk && step.next.channel.attempts == s.channel.attempts + 1
    requires step.events == [SendFailed(Registration(name))] || step.events == [Sent(Registration(name))] + [Refused]
    ensures RegistrationLaw(w, s, name, step)
  {
    hide SaveClientInfo, PublicKeyRequest, Requests, CountReads;
    OneEvent(step.events[0]);
    OneEvent(Refused);
    TwoEvents(Sent(Registration(name)), Refused);
  }

  lemma RegistrationShape(w: World, s: State, name: Bytes)
    ensures RegistrationLaw(w, s, name, RegisterAndExchangeKeys(w, s, name))
  {
    hide Send, Receive, SaveAndSendKey, RegistrationLaw;
    var r := Registration(name);
    var sent := Send(s, r);
    SendFacts(s, r);
    if sent.value {
      var received := Receive(sent.next, [REGISTRATION_SUCCESS]);
      ReceiveFacts(sent.next, [REGISTRATION_SUCCESS]);
      if received.value.Some? {
        var id: ClientId := received.value.value.payload[..16];
        var t := received.next.(id := id);
        RegistrationJoined(w, s, name, sent.events[0], received.value.value, t, SaveAndSendKey(w, t, name));
      } else {
        RegistrationEarly(w, s, name, RegisterAndExchangeKeys(w, s, name));
      }
    } else {
      RegistrationEarly(w, s, name, RegisterAndExchangeKeys(w, s, name));
    }
  }

  lemma RegistrationJoined(w: World, s: State, name: Bytes, sent: Event, c: ServerResponse, t: State, rest: Step<bool>)
    requires sent == Sent(Registration(name))
    requires c.header.code == REGISTRATION_SUCCESS && |c.payload| == 16 && t.id == c.payload[..16]
    requires t.disk == s.disk && t.channel.attempts == s.channel.attempts + 1
    requires rest == SaveAndSendKey(w, t, name)
    ensures RegistrationLaw(w, s, name, Then([sent] + [Accepted(c)], rest))
  {
    hide SaveAndSendKey, SaveClientInfo, PublicKeyRequest, KeyFrom, RegistrationOrdered, Assigns, Requests,
         CountReads;
    var so := [sent] + [Accepted(c)];
    SaveShape(w, t, name);
    OneEvent(sent);
    OneEvent(Accepted(c));
    TwoEvents(sent, Accepted(c));
    RequestsAppend(so, rest.events);
    CountReadsAppend(so, rest.events);
    LastOf(so, rest.events);
    KeyFromLater(w, AES_KEY_RECEIVED, w.crypto.generated, so, rest.events, rest.next);
    AssignsPrefix(c, t.id);
    RegistrationOrder(t.id, so, rest.events);
  }

  lemma AssignsPrefix(c: ServerResponse, id: ClientId)
    requires c.header.code == REGISTRATION_SUCCESS && |c.payload| == 16 && id == c.payload[..16]
    ensures Assigns(Accepted(c), id)
  {
  }

  lemma RegistrationOrder(id: ClientId, so: seq<Event>, rest: seq<Event>)
    requires |so| == 2 && so[0].Sent? && so[0].request.Registration? && Assigns(so[1], id)
    requires rest != [] && (rest[0] == CredentialsSaved || rest[0] == SaveFailed)
    requires forall j :: 1 <= j < |rest| ==> RegistrationOrderedAt(id, rest, j)
    ensures RegistrationOrdered(id, so + rest)
  {
    hide Assigns;
    forall j | 0 <= j < |so + rest| ensures RegistrationOrderedAt(id, so + rest, j) {
      if j > 2 {
        assert RegistrationOrderedAt(id, rest, j - 2);
      }
      assert Assigns(so[1], id) ==> so[1].Accepted? by { RevealAssigns(so[1], id); }
    }
  }

  lemma RevealAssigns(e: Event, id: ClientId)
    ensures Assigns(e, id) ==> e.Accepted?
  {
  }

  // ---- reconnection ----

  /** One 827, then at most one response; a rejection is followed by the removal of the credentials. */
  predicate ReconnectionEvents(r: Request, events: seq<Event>, value: Reconnection) {
    && 1 <= |events| <= 3
    && (events[0] == Sent(r) || events[0] == SendFailed(r))
    && (|events| > 1 ==> events[0].Sent? && (events[1].Accepted? || events[1].Refused?))
    && (|events| == 3 <==> value == NeedsRegistration)
    && (|events| == 3 ==> Rejects(events[1]) && events[2] == CredentialsRemoved)
    && (value != ReconnectFailed ==> |events| > 1)
    && (|events| > 1 && Rejects(events[1]) ==> value == NeedsRegistration)
    && (value == ReconnectFailed ==> Bad(events[|events| - 1]))
  }

  ghost predicate ReconnectionLaw(w: World, s: State, step: Step<Reconnection>) {
    match LoadCredentials(w, s.disk)
    case None => step == Forget(w, s)
    case Some((info, key)) =>
      && ReconnectionEvents(Reconnect(info.uuid, info.name), step.events, step.value)
      && step.next.id == info.uuid
      && (step.value == Reconnected ==> KeyFrom(w, RECONNECT_APPROVED, key, step.events, step.next))
      && step.next.disk == (if step.value == NeedsRegistration then RemoveClientInfo(s.disk, w.access) else s.disk)
      && step.next.channel.attempts == s.channel.attempts + 1
  }

  lemma ReconnectingShape(w: World, s: State, name: Bytes)
    requires s.privateKey.Some?
    ensures
      var step := Reconnecting(w, s, name);
      && ReconnectionEvents(Reconnect(s.id, name), step.events, step.value)
      && step.next.id == s.id
      && (step.value == Reconnected ==>
          KeyFrom(w, RECONNECT_APPROVED, s.privateKey.value, step.events, step.next))
      && step.next.disk == (if step.value == NeedsRegistration then RemoveClientInfo(s.disk, w.access) else s.disk)
      && step.next.channel.attempts == s.channel.attempts + 1
  {
    hide Send, Receive, RemoveClientInfo;
    var r := Reconnect(s.id, name);
    SendFacts(s, r);
    ReceiveFacts(Send(s, r).next, [RECONNECT_APPROVED, RECONNECT_REJECTED]);
  }

  lemma ReconnectionShape(w: World, s: State)
    ensures ReconnectionLaw(w, s, TryReconnect(w, s))
  {
    hide Reconnecting, LoadCredentials, KeyFrom, RemoveClientInfo, ReconnectionEvents;
    match LoadCredentials(w, s.disk)
    case None =>
    case Some((info, key)) =>
      ReconnectingShape(w, s.(privateKey := Some(key), id := info.uuid), info.name);
  }

  lemma {:induction false} ReconnectionCounts(r: Request, events: seq<Event>, value: Reconnection)
    requires ReconnectionEvents(r, events, value)
    ensures Requests(events) == if events[0].Sent? then [r] else []
    ensures CountReads(events) <= 1
  {
    hide Requests, CountReads, Rejects;
    OneEvent(events[0]);
    if |events| == 1 {
      assert events == [events[0]];
    } else {
      OneEvent(events[1]);
      TwoEvents(events[0], events[1]);
      var tail := if |events| == 2 then [] else [events[2]];
      assert events == [events[0]] + [events[1]] + tail;
      RequestsAppend([events[0]] + [events[1]], tail);
      CountReadsAppend([events[0]] + [events[1]], tail);
      OneEvent(CredentialsRemoved);
      NoEvents();
    }
  }

  lemma NoEvents()
    ensures Requests([]) == [] && CountReads([]) == 0
  {
  }

  // ---- both ----

  /** The stored credentials a run starts from, if it finds any it can use. */
  function Stored(w: World, d: Disk): Option<(ClientInfo, PrivateKey)> {
    if d.meInfo.None? then None else LoadCredentials(w, d)
  }

  /** What must come just before each event of authenticating from disk d as id. */
  predicate OrderedAt(w: World, d: Disk, id: ClientId, events: seq<Event>, j: nat)
    requires j < |events|
  {
    match events[j]
    case Sent(r) => RequestOrderedAt(w, d, id, events, j, r)
    case SendFailed(r) => RequestOrderedAt(w, d, id, events, j, r)
    case CredentialsSaved => j > 0 && Assigns(events[j - 1], id)
    case SaveFailed => j > 0 && Assigns(events[j - 1], id)
    case CredentialsRemoved => d.meInfo.Some? && if j == 0 then LoadCredentials(w, d).None? else Rejects(events[j - 1])
    case FileStarted(_) => false
    case _ => true
  }

  predicate RequestOrderedAt(w: World, d: Disk, id: ClientId, events: seq<Event>, j: nat, r: Request)
    requires j < |events|
  {
    match r
    case Reconnect(_, _) => j == 0 && Stored(w, d).Some?
    case Registration(_) => if j == 0 then d.meInfo.None? else events[j - 1].CredentialsRemoved?
    case PublicKey(key, _, _) => key == id && j > 0 && events[j - 1].CredentialsSaved?
    case _ => false
  }

  /**
   * 825 comes first only without stored credentials, and otherwise right after they were removed; they are
   * removed only when unusable or right after an accepted 1606; 826 comes right after saving the identifier
   * that the response just before assigned.
   */
  ghost predicate Ordered(w: World, d: Disk, id: ClientId, events: seq<Event>) {
    forall j :: 0 <= j < |events| ==> OrderedAt(w, d, id, events, j)
  }

  /** The requests are a prefix of [827] 825 826 with the right names and identifiers, all of it on success. */
  ghost predicate AuthLanguage(w: World, d: Disk, name: Bytes, rs: seq<Request>, id: ClientId, ok: bool) {
    var register := [Registration(name), PublicKeyRequest(w, id, name)];
    match Stored(w, d)
    case None => rs <= register && (ok ==> rs == register)
    case Some((info, _)) =>
      var reconnect := [Reconnect(info.uuid, info.name)];
      && rs <= reconnect + register
      && (ok ==> rs == reconnect + register || (rs == reconnect && id == info.uuid))
  }

  /** The AES key came in a 1602, for the keys of this run, or in a 1605, for the stored key. */
  predicate KeyAccepted(w: World, d: Disk, events: seq<Event>, s: State) {
    || KeyFrom(w, AES_KEY_RECEIVED, w.crypto.generated, events, s)
    || (Stored(w, d).Some? && KeyFrom(w, RECONNECT_APPROVED, Stored(w, d).value.1, events, s))
  }

  /** The disk once the credentials were removed, if they were. */
  function AfterRemoval(w: World, d: Disk, events: seq<Event>): Disk {
    if CredentialsRemoved in events then RemoveClientInfo(d, w.access) else d
  }

  /** The disk authentication leaves, after a save, after a save that failed part way, and without one. */
  predicate DiskLaw(w: World, s: State, name: Bytes, step: Step<bool>) {
    var key := w.crypto.toBase64(w.crypto.generated);
    var d := AfterRemoval(w, s.disk, step.events);
    && (CredentialsSaved in step.events ==>
        && w.access.meCreates && w.access.keyCreates
        && step.next.disk == Disk(Some(InfoText(name, step.next.id, key)), Some(key)))
    && (SaveFailed in step.events ==> SaveClientInfo(d, w.access, name, step.next.id, key) == (false, step.next.disk))
    && (CredentialsSaved !in step.events && SaveFailed !in step.events ==> step.next.disk == d)
  }

  ghost predicate AuthLaw(w: World, s: State, name: Bytes, step: Step<bool>) {
    && AuthLanguage(w, s.disk, name, Requests(step.events), step.next.id, step.value)
    && Ordered(w, s.disk, step.next.id, step.events)
    && (step.value ==> KeyAccepted(w, s.disk, step.events, step.next))
    && DiskLaw(w, s, name, step)
    && step.next.channel.attempts <= s.channel.attempts + 3
    && CountReads(step.events) <= 3
  }

  lemma SavedDisk(w: World, events: seq<Event>, d: Disk, name: Bytes, id: ClientId, d': Disk)
    requires SaveLaw(w, events, d, name, id, d')
    ensures CredentialsRemoved !in events
    ensures CredentialsSaved in events ==>
      var key := w.crypto.toBase64(w.crypto.generated);
      w.access.meCreates && w.access.keyCreates && d' == Disk(Some(InfoText(name, id, key)), Some(key))
    ensures SaveFailed in events ==>
      SaveClientInfo(d, w.access, name, id, w.crypto.toBase64(w.crypto.generated)) == (false, d')
    ensures CredentialsSaved !in events && SaveFailed !in events ==> d' == d
  {
  }

  lemma AuthFresh(w: World, s: State, name: Bytes)
    requires s.disk.meInfo.None?
    ensures AuthLaw(w, s, name, Authenticate(w, s, name))
  {
    hide RegisterAndExchangeKeys, KeyFrom, LoadCredentials, PublicKeyRequest, SaveLaw, Assigns;
    var step := RegisterAndExchangeKeys(w, s, name);
    RegistrationShape(w, s, name);
    SavedDisk(w, step.events, s.disk, name, step.next.id, step.next.disk);
    forall j | 0 <= j < |step.events| ensures OrderedAt(w, s.disk, step.next.id, step.events, j) {
      assert RegistrationOrderedAt(step.next.id, step.events, j);
    }
  }

  lemma OrderAgain(w: World, d: Disk, id: ClientId, tried: seq<Event>, rest: seq<Event>)
    requires tried != [] && tried[|tried| - 1] == CredentialsRemoved
    requires Ordered(w, d, id, tried) && RegistrationOrdered(id, rest)
    ensures Ordered(w, d, id, tried + rest)
  {
    hide Assigns, Rejects, LoadCredentials;
    var all := tried + rest;
    forall j | 0 <= j < |all| ensures OrderedAt(w, d, id, all, j) {
      if j < |tried| {
        assert OrderedAt(w, d, id, tried, j);
      } else {
        assert RegistrationOrderedAt(id, rest, j - |tried|);
      }
    }
  }

  lemma OrderTried(w: World, s: State, id: ClientId)
    requires s.disk.meInfo.Some?
    ensures Ordered(w, s.disk, id, TryReconnect(w, s).events)
  {
    hide TryReconnect, KeyFrom, LoadCredentials, Rejects, RemoveClientInfo;
    ReconnectionShape(w, s);
  }

  lemma AuthAgain(w: World, s: State, name: Bytes)
    requires s.disk.meInfo.Some? && TryReconnect(w, s).value == NeedsRegistration
    ensures AuthLaw(w, s, name, Authenticate(w, s, name))
  {
    hide RegisterAndExchangeKeys, TryReconnect, KeyFrom, PublicKeyRequest, SaveLaw, RegistrationOrdered, Ordered,
         AuthLanguage, LoadCredentials, RemoveClientInfo, Rejects;
    var tried := TryReconnect(w, s);
    var rest := RegisterAndExchangeKeys(w, tried.next, name);
    var id := rest.next.id;
    RegistrationShape(w, tried.next, name);
    TriedFirst(w, s);
    SavedDisk(w, rest.events, tried.next.disk, name, id, rest.next.disk);
    RequestsAppend(tried.events, rest.events);
    CountReadsAppend(tried.events, rest.events);
    LastOf(tried.events, rest.events);
    KeyFromLater(w, AES_KEY_RECEIVED, w.crypto.generated, tried.events, rest.events, rest.next);
    OrderTried(w, s, id);
    OrderAgain(w, s.disk, id, tried.events, rest.events);
    LanguageAgain(w, s.disk, name, Requests(tried.events), Requests(rest.events), id, rest.value);
  }

  /** A reconnection that gives way to a registration. */
  lemma TriedFirst(w: World, s: State)
    requires s.disk.meInfo.Some? && TryReconnect(w, s).value == NeedsRegistration
    ensures
      var tried := TryReconnect(w, s);
      && tried.events != [] && tried.events[|tried.events| - 1] == CredentialsRemoved
      && CredentialsSaved !in tried.events && SaveFailed !in tried.events
      && tried.next.disk == RemoveClientInfo(s.disk, w.access)
      && tried.next.channel.attempts <= s.channel.attempts + 1 && CountReads(tried.events) <= 1
      && Requests(tried.events) ==
         match Stored(w, s.disk) case None => [] case Some((info, _)) => [Reconnect(info.uuid, info.name)]
  {
    hide TryReconnect, KeyFrom, LoadCredentials, RemoveClientInfo, Rejects;
    ReconnectionShape(w, s);
    var tried := TryReconnect(w, s);
    match LoadCredentials(w, s.disk)
    case None => OneEvent(CredentialsRemoved);
    case Some((info, key)) => ReconnectionCounts(Reconnect(info.uuid, info.name), tried.events, tried.value);
  }

  lemma LanguageAgain(w: World, d: Disk, name: Bytes, first: seq<Request>, rest: seq<Request>, id: ClientId, ok: bool)
    requires first == match Stored(w, d) case None => [] case Some((info, _)) => [Reconnect(info.uuid, info.name)]
    requires rest <= [Registration(name), PublicKeyRequest(w, id, name)]
    requires ok ==> rest == [Registration(name), PublicKeyRequest(w, id, name)]
    ensures AuthLanguage(w, d, name, first + rest, id, ok)
  {
    hide Stored, PublicKeyRequest;
  }

  lemma KeyFromLater(w: World, code: uint16, key: PrivateKey, a: seq<Event>, b: seq<Event>, s: State)
    ensures KeyFrom(w, code, key, b, s) ==> KeyFrom(w, code, key, a + b, s)
  {
    LastOf(a, b);
  }

  lemma AuthReconnects(w: World, s: State, name: Bytes)
    requires s.disk.meInfo.Some? && TryReconnect(w, s).value != NeedsRegistration
    ensures AuthLaw(w, s, name, Authenticate(w, s, name))
  {
    hide TryReconnect, KeyFrom, LoadCredentials, PublicKeyRequest, Rejects, RemoveClientInfo, Ordered, Requests,
         CountReads;
    var tried := TryReconnect(w, s);
    ReconnectionShape(w, s);
    OrderTried(w, s, tried.next.id);
    match LoadCredentials(w, s.disk)
    case None =>
    case Some((info, key)) => ReconnectionCounts(Reconnect(info.uuid, info.name), tried.events, tried.value);
  }

  /** Authentication with any server and any stored credentials keeps its law. */
  lemma AuthenticateKeepsLaw(w: World, s: State, name: Bytes)
    ensures AuthLaw(w, s, name, Authenticate(w, s, name))
  {
    hide AuthLaw, TryReconnect, Authenticate;
    if s.disk.meInfo.None? {
      AuthFresh(w, s, name);
    } else if TryReconnect(w, s).value == NeedsRegistration {
      AuthAgain(w, s, name);
    } else {
      AuthReconnects(w, s, name);
    }
  }

  // ---- a client that lost its credentials registers ----

  lemma RegistrationBegins(w: World, s: State, name: Bytes)
    ensures
      var e := RegisterAndExchangeKeys(w, s, name).events;
      e != [] && (e[0] == Sent(Registration(name)) || e[0] == SendFailed(Registration(name)))
  {
    hide Send, Receive, SaveAndSendKey, ParseClientId;
    SendFacts(s, Registration(name));
  }

  /** Each removal is followed at once by an attempt to send 825 under the configured name. */
  ghost predicate RegistersAfterRemoval(events: seq<Event>, name: Bytes) {
    forall i :: 0 <= i < |events| && events[i] == CredentialsRemoved ==>
      && i + 1 < |events|
      && (events[i + 1] == Sent(Registration(name)) || events[i + 1] == SendFailed(Registration(name)))
  }

  lemma RegistersAgain(w: World, s: State, name: Bytes)
    ensures RegistersAfterRemoval(Authenticate(w, s, name).events, name)
  {
    hide TryReconnect, RegisterAndExchangeKeys, Requests, CountReads, LoadCredentials, RemoveClientInfo, KeyFrom,
         RegistrationOrdered, PublicKeyRequest, Rejects, SaveClientInfo;
    if s.disk.meInfo.None? {
      RegistrationShape(w, s, name);
    } else {
      var tried := TryReconnect(w, s);
      ReconnectionShape(w, s);
      RegistrationShape(w, tried.next, name);
      RegistrationBegins(w, tried.next, name);
    }
  }
}
