/** Stored credentials, from the run that saves them to the run that uses them. */
module Credentials {
  import opened Types
  import opened Protocol
  import opened Config
  import opened Session
  import opened SessionFacts
  import opened FileExchange
  import opened Authentication
  import opened RunLaws
  import Hex

  /** Completely saved credentials are the ones a later run finds, whether or not it can open priv.key. */
  lemma SavedIsLoaded(d: Disk, a: DiskAccess, name: Bytes, id: ClientId, key: Bytes)
    requires d == Disk(Some(InfoText(name, id, key)), Some(key))
    requires OneLine(name) && OneLine(key) && key != [] && a.meOpens
    ensures LoadClientInfo(d, a) == Some(ClientInfo(name, id, key))
    ensures KeyText(d, a, ClientInfo(name, id, key)) == key
  {
    InfoRoundTrip(name, id, key);
    if a.keyOpens {
      KeyRoundTrip(d, a, key);
    }
  }

  /**
   * After a save that wrote me.info, a later run pairs the new identity with the new key exactly when
   * priv.key was written too, or what it held before gives no key or the same one.
   */
  lemma SavedPairsUp(d: Disk, a: DiskAccess, name: Bytes, id: ClientId, key: Bytes, later: DiskAccess)
    requires a.meCreates && later.meOpens && OneLine(name) && OneLine(key) && key != []
    ensures
      var d' := SaveClientInfo(d, a, name, id, key).1;
      && LoadClientInfo(d', later) == Some(ClientInfo(name, id, key))
      && (KeyText(d', later, ClientInfo(name, id, key)) == key
          <==> a.keyCreates || LoadPrivateKey(d, later) in {None, Some(key)})
  {
    InfoRoundTrip(name, id, key);
    if a.keyCreates && later.keyOpens {
      KeyRoundTrip(SaveClientInfo(d, a, name, id, key).1, later, key);
    }
  }

  /** So a save that fails on priv.key can leave a new identity beside an old key. */
  lemma StaleKeySurvives()
    ensures
      var d := Disk(None, Some([79]));
      var a := DiskAccess(true, true, true, false, true, true);
      var saved := SaveClientInfo(d, a, [65], ZERO_ID, [78]);
      && !saved.0
      && LoadClientInfo(saved.1, a) == Some(ClientInfo([65], ZERO_ID, [78]))
      && KeyText(saved.1, a, ClientInfo([65], ZERO_ID, [78])) == [79]
  {
    var d := Disk(None, Some([79]));
    var a := DiskAccess(true, true, true, false, true, true);
    SavedPairsUp(d, a, [65], ZERO_ID, [78], a);
    KeyRoundTrip(d, a, [79]);
  }

  /** The run's credentials were saved under an identifier that an accepted 1600 carried. */
  lemma RunSaves(w: World, s: State) returns (id: ClientId, i: nat)
    requires CredentialsSaved in Run(w, s).events
    ensures w.config.Some? && w.access.meCreates && w.access.keyCreates
    ensures
      var key := w.crypto.toBase64(w.crypto.generated);
      Run(w, s).next.disk == Disk(Some(InfoText(w.config.value.clientName, id, key)), Some(key))
    ensures i < |Run(w, s).events| && Assigns(Run(w, s).events[i], id)
  {
    hide Run, Authenticate, AuthLanguage, KeyAccepted, Assigns, CountReads, FilesLanguage, LoadCredentials,
         Requests, Started;
    NoConfigNoEvents(w, s);
    var auth, files := RunShape(w, s);
    id := auth.next.id;
    assert CredentialsSaved !in files.events;
    var j: nat :| j < |Run(w, s).events| && Run(w, s).events[j] == CredentialsSaved;
    assert j < |auth.events| && auth.events[j] == CredentialsSaved;
    assert OrderedAt(w, s.disk, id, auth.events, j);
    i := j - 1;
  }

  lemma NoConfigNoEvents(w: World, s: State)
    ensures w.config.None? || !w.connects ==> Run(w, s).events == []
  {
    hide Authenticate, SendFiles;
  }

  /** The first thing the run does on its new connection is to send r, which works or fails. */
  predicate Starts(w: World, s: State, r: Request) {
    var sent := Send(s.(channel := s.channel.(open := true)), r).value;
    Run(w, s).events != [] && Run(w, s).events[0] == if sent then Sent(r) else SendFailed(r)
  }

  lemma RunStarts(w: World, s: State)
    requires w.config.Some? && w.connects && s.disk.meInfo.Some? && LoadCredentials(w, s.disk).Some?
    ensures
      var info := LoadCredentials(w, s.disk).value.0;
      Starts(w, s, Reconnect(info.uuid, info.name))
  {
    hide Receive, SendFiles, RegisterAndExchangeKeys, LoadCredentials, Encode, DecryptAesKey;
    var (info, key) := LoadCredentials(w, s.disk).value;
    var s0 := s.(channel := s.channel.(open := true), privateKey := Some(key), id := info.uuid);
    SendFacts(s0, Reconnect(info.uuid, info.name));
    ReconnectingStarts(w, s0, info.name);
  }

  lemma ReconnectingStarts(w: World, s: State, name: Bytes)
    ensures
      var e := Reconnecting(w, s, name).events;
      var r := Reconnect(s.id, name);
      e != [] && e[0] == if Send(s, r).value then Sent(r) else SendFailed(r)
  {
    hide Receive, Send, DecryptAesKey, ParseAesKey;
    SendFacts(s, Reconnect(s.id, name));
  }

  /**
   * After a run that saved its credentials, the next run that finds the disk as it was left, can open
   * me.info and reload the key starts with 827, under the registered name and the identifier that an
   * accepted 1600 of the first run assigned.
   */
  lemma NextRunReconnects(w: World, s: State, w': World, s': State) returns (id: ClientId, i: nat)
    requires CredentialsSaved in Run(w, s).events && s'.disk == Run(w, s).next.disk
    requires w.config.Some? && OneLine(w.config.value.clientName)
    requires
      var key := w.crypto.toBase64(w.crypto.generated);
      key != [] && OneLine(key) && w'.crypto.fromBase64(key).Some?
    requires w'.config.Some? && w'.connects && w'.access.meOpens
    ensures i < |Run(w, s).events| && Assigns(Run(w, s).events[i], id)
    ensures Starts(w', s', Reconnect(id, w.config.value.clientName))
  {
    hide Run, Send, InfoText, LoadClientInfo, LoadPrivateKey, Assigns;
    var key, name := w.crypto.toBase64(w.crypto.generated), w.config.value.clientName;
    id, i := RunSaves(w, s);
    SavedIsLoaded(s'.disk, w'.access, name, id, key);
    RunStarts(w', s');
  }

  /** Every removal of stored credentials comes first, because they are of no use, or right after an accepted 1606. */
  lemma RunRemoves(w: World, s: State)
    ensures
      var e := Run(w, s).events;
      forall i :: 0 <= i < |e| && e[i] == CredentialsRemoved ==>
        && s.disk.meInfo.Some?
        && if i == 0 then LoadCredentials(w, s.disk).None? else Rejects(e[i - 1])
  {
    hide Run, Authenticate, AuthLanguage, KeyAccepted, Assigns, CountReads, FilesLanguage, LoadCredentials,
         Requests, Started, Rejects, DiskLaw;
    NoConfigNoEvents(w, s);
    if w.config.Some? && w.connects {
      var auth, files := RunShape(w, s);
      forall i | 0 <= i < |Run(w, s).events| && Run(w, s).events[i] == CredentialsRemoved
        ensures s.disk.meInfo.Some?
        ensures if i == 0 then LoadCredentials(w, s.disk).None? else Rejects(Run(w, s).events[i - 1])
      {
        assert i < |auth.events| && auth.events[i] == CredentialsRemoved;
        assert OrderedAt(w, s.disk, auth.next.id, auth.events, i);
      }
    }
  }

  /** Credentials that are neither saved nor removed nor half saved stay as they were. */
  lemma RunKeeps(w: World, s: State)
    requires CredentialsSaved !in Run(w, s).events && SaveFailed !in Run(w, s).events
    requires CredentialsRemoved !in Run(w, s).events
    ensures Run(w, s).next.disk == s.disk
  {
    if w.config.Some? && w.connects {
      hide Run, Authenticate, AuthLanguage, Ordered, KeyAccepted, CountReads, FilesLanguage, LoadCredentials,
         Requests, Started;
      var auth, files := RunShape(w, s);
    }
  }

  lemma FreshRunStarts(w: World, s: State)
    requires w.config.Some? && w.connects && s.disk.meInfo.None?
    ensures Starts(w, s, Registration(w.config.value.clientName))
  {
    hide Send, Receive, SendFiles, SaveAndSendKey, TryReconnect, ParseClientId;
    SendFacts(s.(channel := s.channel.(open := true)), Registration(w.config.value.clientName));
  }

  /**
   * After a run that removed the stored credentials and saved no others, the next run that finds the
   * disk as it was left registers as a new client.
   */
  lemma NextRunRegisters(w: World, s: State, w': World, s': State)
    requires CredentialsRemoved in Run(w, s).events && s'.disk == Run(w, s).next.disk
    requires CredentialsSaved !in Run(w, s).events && SaveFailed !in Run(w, s).events
    requires w.access.meRemoves && w'.config.Some? && w'.connects
    ensures Starts(w', s', Registration(w'.config.value.clientName))
  {
    hide Run, Send, Authenticate, AuthLanguage, Ordered, KeyAccepted, CountReads, FilesLanguage, LoadCredentials,
         Requests, Started;
    NoConfigNoEvents(w, s);
    var auth, files := RunShape(w, s);
    assert CredentialsRemoved in auth.events;
    FreshRunStarts(w', s');
  }

  // ---- after a save that failed ----

  /** What a failed save leaves: at most me.info is new, under the identifier that an accepted 1600 assigned. */
  lemma FailedSave(w: World, s: State) returns (id: ClientId, i: nat)
    requires SaveFailed in Run(w, s).events
    ensures w.config.Some? && i < |Run(w, s).events| && Assigns(Run(w, s).events[i], id)
    ensures
      var before := AfterRemoval(w, s.disk, Run(w, s).events);
      SaveClientInfo(before, w.access, w.config.value.clientName, id, w.crypto.toBase64(w.crypto.generated)) ==
      (false, Run(w, s).next.disk)
  {
    hide Run, Authenticate, AuthLanguage, KeyAccepted, Assigns, CountReads, FilesLanguage, LoadCredentials,
         Requests, Started, SaveClientInfo, RemoveClientInfo;
    NoConfigNoEvents(w, s);
    var auth, files := RunShape(w, s);
    id := auth.next.id;
    assert SaveFailed !in files.events;
    var j: nat :| j < |Run(w, s).events| && Run(w, s).events[j] == SaveFailed;
    assert j < |auth.events| && auth.events[j] == SaveFailed;
    assert OrderedAt(w, s.disk, id, auth.events, j);
    i := j - 1;
    assert CredentialsRemoved in Run(w, s).events <==> CredentialsRemoved in auth.events;
  }

  /** The key text the next run takes when me.info is new and priv.key is as it was before. */
  function TextLeft(w: World, before: Disk, later: DiskAccess): Bytes {
    match LoadPrivateKey(before, later)
    case None => w.crypto.toBase64(w.crypto.generated)
    case Some(line) => line
  }

  /**
   * A run saved me.info and then failed on priv.key. The next run that finds the disk as it was left takes
   * the identity that an accepted 1600 just assigned, with the key that priv.key held before, and with this
   * run's own key exactly when priv.key held nothing to load or the same text. If that text is no key, the
   * new identity is lost: the next run removes it. Otherwise it begins with 827 under it.
   */
  lemma NextRunAfterFailedSave(w: World, s: State, w': World, s': State) returns (id: ClientId, i: nat)
    requires SaveFailed in Run(w, s).events && w.access.meCreates && s'.disk == Run(w, s).next.disk
    requires w.config.Some? && OneLine(w.config.value.clientName)
    requires
      var key := w.crypto.toBase64(w.crypto.generated);
      key != [] && OneLine(key)
    requires w'.config.Some? && w'.connects && w'.access.meOpens
    ensures i < |Run(w, s).events| && Assigns(Run(w, s).events[i], id)
    ensures
      var before := AfterRemoval(w, s.disk, Run(w, s).events);
      var name, key := w.config.value.clientName, w.crypto.toBase64(w.crypto.generated);
      var text := TextLeft(w, before, w'.access);
      && (text == key <==> LoadPrivateKey(before, w'.access) in {None, Some(key)})
      && (match w'.crypto.fromBase64(text)
         case None =>
           Stored(w', s'.disk) == None && Run(w', s').events != [] && Run(w', s').events[0] == CredentialsRemoved
         case Some(k) =>
           Stored(w', s'.disk) == Some((ClientInfo(name, id, key), k)) && Starts(w', s', Reconnect(id, name)))
  {
    hide Run, Send, InfoText, LoadClientInfo, LoadPrivateKey, Assigns;
    var key, name := w.crypto.toBase64(w.crypto.generated), w.config.value.clientName;
    id, i := FailedSave(w, s);
    var before := AfterRemoval(w, s.disk, Run(w, s).events);
    var info := ClientInfo(name, id, key);
    SavedPairsUp(before, w.access, name, id, key, w'.access);
    SameKeyFile(before, s'.disk, w'.access);
    if w'.crypto.fromBase64(TextLeft(w, before, w'.access)).Some? {
      RunStarts(w', s');
    } else {
      UnusableStarts(w', s');
    }
  }

  lemma SameKeyFile(d: Disk, d': Disk, a: DiskAccess)
    requires d.privKey == d'.privKey
    ensures LoadPrivateKey(d, a) == LoadPrivateKey(d', a)
  {
  }

  lemma UnusableStarts(w: World, s: State)
    requires w.config.Some? && w.connects && s.disk.meInfo.Some? && LoadCredentials(w, s.disk).None?
    ensures Run(w, s).events != [] && Run(w, s).events[0] == CredentialsRemoved
  {
    hide SendFiles, RegisterAndExchangeKeys, LoadCredentials, RemoveClientInfo;
  }

  // ---- after a removal ----

  lemma EventsOfFiles(w: World, s: State)
    requires w.config.Some? && w.connects
    ensures
      var auth := Authenticate(w, s.(channel := s.channel.(open := true)), w.config.value.clientName);
      && auth.events <= Run(w, s).events
      && forall i :: 0 <= i < |Run(w, s).events| && Run(w, s).events[i] == CredentialsRemoved ==> i < |auth.events|
  {
    hide Run, Authenticate, AuthLanguage, KeyAccepted, Assigns, CountReads, FilesLanguage, LoadCredentials,
         Requests, Started, DiskLaw, Ordered;
    var auth, files := RunShape(w, s);
    assert CredentialsRemoved !in files.events;
  }

  /** A run that removes its credentials then at once tries to send 825 under the configured name. */
  lemma RunRegistersAgain(w: World, s: State)
    requires w.config.Some?
    ensures RegistersAfterRemoval(Run(w, s).events, w.config.value.clientName)
  {
    hide Run, Authenticate;
    NoConfigNoEvents(w, s);
    if w.connects {
      var name := w.config.value.clientName;
      var auth := Authenticate(w, s.(channel := s.channel.(open := true)), name);
      EventsOfFiles(w, s);
      RegistersAgain(w, s.(channel := s.channel.(open := true)), name);
      var e := Run(w, s).events;
      forall i | 0 <= i < |e| && e[i] == CredentialsRemoved
        ensures i + 1 < |e| && (e[i + 1] == Sent(Registration(name)) || e[i + 1] == SendFailed(Registration(name)))
      {
        assert auth.events[i] == CredentialsRemoved;
        assert e[i + 1] == auth.events[i + 1];
      }
    }
  }

  /** Both files are removed together, each unless removing it fails, when nothing is saved after that. */
  lemma RunRemovesBoth(w: World, s: State)
    requires CredentialsRemoved in Run(w, s).events
    requires CredentialsSaved !in Run(w, s).events && SaveFailed !in Run(w, s).events
    ensures Run(w, s).next.disk.meInfo == if w.access.meRemoves then None else s.disk.meInfo
    ensures Run(w, s).next.disk.privKey == if w.access.keyRemoves then None else s.disk.privKey
  {
    hide Run, Authenticate, AuthLanguage, Ordered, KeyAccepted, CountReads, FilesLanguage, LoadCredentials,
         Requests, Started;
    NoConfigNoEvents(w, s);
    var auth, files := RunShape(w, s);
    assert CredentialsRemoved in auth.events;
  }

  /** What a save does to each file, and when it fails: both files are written, me.info first. */
  lemma SaveWrites(w: World, s: State) returns (id: ClientId)
    requires SaveFailed in Run(w, s).events || CredentialsSaved in Run(w, s).events
    ensures w.config.Some?
    ensures exists i :: 0 <= i < |Run(w, s).events| && Assigns(Run(w, s).events[i], id)
    ensures CredentialsSaved in Run(w, s).events <==> w.access.meCreates && w.access.keyCreates
    ensures
      var name, key := w.config.value.clientName, w.crypto.toBase64(w.crypto.generated);
      var removed := CredentialsRemoved in Run(w, s).events;
      && Run(w, s).next.disk.meInfo ==
         (if w.access.meCreates then Some(name + [10] + Hex.ToHex(id) + [10] + key + [10])
          else if removed && w.access.meRemoves then None else s.disk.meInfo)
      && Run(w, s).next.disk.privKey ==
         (if w.access.meCreates && w.access.keyCreates then Some(key)
          else if removed && w.access.keyRemoves then None else s.disk.privKey)
  {
    hide Run, Assigns, Hex.ToHex;
    if CredentialsSaved in Run(w, s).events {
      var i: nat;
      id, i := RunSaves(w, s);
      assert Assigns(Run(w, s).events[i], id);
    } else {
      var i: nat;
      id, i := FailedSave(w, s);
      assert Assigns(Run(w, s).events[i], id);
    }
  }

  /**
   * Once a run removed priv.key and then failed to write a new one, the next run takes the failed run's own
   * key with the new identity, and begins with 827 under it if it can reload that key.
   */
  lemma NextRunAfterRemoval(w: World, s: State, w': World, s': State) returns (id: ClientId)
    requires CredentialsRemoved in Run(w, s).events && w.access.keyRemoves
    requires SaveFailed in Run(w, s).events && w.access.meCreates && s'.disk == Run(w, s).next.disk
    requires w.config.Some? && OneLine(w.config.value.clientName)
    requires
      var key := w.crypto.toBase64(w.crypto.generated);
      key != [] && OneLine(key) && w'.crypto.fromBase64(key).Some?
    requires w'.config.Some? && w'.connects && w'.access.meOpens
    ensures exists i :: 0 <= i < |Run(w, s).events| && Assigns(Run(w, s).events[i], id)
    ensures
      var name, key := w.config.value.clientName, w.crypto.toBase64(w.crypto.generated);
      && s'.disk.privKey == None
      && Stored(w', s'.disk) == Some((ClientInfo(name, id, key), w'.crypto.fromBase64(key).value))
      && Starts(w', s', Reconnect(id, name))
  {
    hide Run, Starts, Stored, Assigns, SaveClientInfo;
    var i: nat;
    id, i := NextRunAfterFailedSave(w, s, w', s');
    assert Assigns(Run(w, s).events[i], id);
    var same := SaveWrites(w, s);
    var saved, _ := FailedSave(w, s);
    NotBothCreate(w, AfterRemoval(w, s.disk, Run(w, s).events), w.config.value.clientName, saved);
  }

  lemma NotBothCreate(w: World, d: Disk, name: Bytes, id: ClientId)
    requires !SaveClientInfo(d, w.access, name, id, w.crypto.toBase64(w.crypto.generated)).0
    ensures !(w.access.meCreates && w.access.keyCreates)
  {
  }
}
