/** One run speaks under one identifier, and its bytes can be told apart again. */
module Identity {
  import opened Types
  import opened Protocol
  import opened Config
  import opened Session
  import opened SessionFacts
  import opened FileExchange
  import opened Authentication
  import opened RunLaws
  import SessionLaws
  import WireReader

  ghost predicate AllCarry(rs: seq<Request>, id: ClientId) {
    forall i :: 0 <= i < |rs| ==> IdOf(rs[i]) == id
  }

  lemma {:induction false} RoundsCarry(file: Request, retry: Request, k: nat, id: ClientId)
    requires IdOf(file) == id && IdOf(retry) == id
    ensures AllCarry(Rounds(file, retry, k), id)
  {
    if k > 0 {
      RoundsCarry(file, retry, k - 1, id);
    }
  }

  lemma ExchangeCarries(rs: seq<Request>, id: ClientId, f: FileData, left: nat, ok: bool)
    requires InExchange(rs, id, f, left, ok)
    ensures AllCarry(rs, id)
  {
    var k: nat, v: Verdict :| k < left && v != CrcInvalidRetry && rs <= FullExchange(id, f, k, v);
    RoundsCarry(FileRequest(id, f), Status(id, f, CrcInvalidRetry), k, id);
    forall i | 0 <= i < |rs| ensures IdOf(rs[i]) == id { assert rs[i] == FullExchange(id, f, k, v)[i]; }
  }

  lemma {:induction false} FilesCarry(w: World, rs: seq<Request>, id: ClientId, key: Bytes, paths: seq<Bytes>, ok: bool)
    requires FilesLanguage(w, rs, id, key, paths, ok)
    ensures AllCarry(rs, id)
    decreases |paths|
  {
    hide InExchange, Prepare, IdOf;
    if paths != [] && Prepare(w, key, paths[0]).Some? {
      var f := Prepare(w, key, paths[0]).value;
      if InExchange(rs, id, f, MAX_CRC_ATTEMPTS, false) {
        ExchangeCarries(rs, id, f, MAX_CRC_ATTEMPTS, false);
      } else {
        var n: nat :| n <= |rs| &&
          InExchange(rs[..n], id, f, MAX_CRC_ATTEMPTS, true) && FilesLanguage(w, rs[n..], id, key, paths[1..], ok);
        ExchangeCarries(rs[..n], id, f, MAX_CRC_ATTEMPTS, true);
        FilesCarry(w, rs[n..], id, key, paths[1..], ok);
        assert rs == rs[..n] + rs[n..];
      }
    }
  }

  /** 825 carries no identifier, 827 the stored one, and every other request the session's. */
  predicate CarriesId(w: World, d: Disk, r: Request, id: ClientId) {
    match r
    case Registration(_) => IdOf(r) == ZERO_ID
    case Reconnect(_, _) => Stored(w, d).Some? && IdOf(r) == Stored(w, d).value.0.uuid
    case _ => IdOf(r) == id
  }

  ghost predicate OneIdentity(w: World, d: Disk, rs: seq<Request>, id: ClientId) {
    forall i :: 0 <= i < |rs| ==> CarriesId(w, d, rs[i], id)
  }

  /** The identifier is the stored one, or the one an accepted 1600 assigned. */
  ghost predicate GivenId(w: World, d: Disk, events: seq<Event>, id: ClientId) {
    || (Stored(w, d).Some? && Stored(w, d).value.0.uuid == id)
    || exists i :: 0 <= i < |events| && Assigns(events[i], id)
  }

  lemma {:induction false} SentSomewhere(events: seq<Event>, r: Request) returns (j: nat)
    requires r in Requests(events)
    ensures j < |events| && events[j] == Sent(r)
  {
    var n := |events| - 1;
    if r in Requests(events[..n]) {
      j := SentSomewhere(events[..n], r);
    } else {
      j := n;
    }
  }

  lemma AuthGivesId(w: World, d: Disk, name: Bytes, events: seq<Event>, id: ClientId)
    requires AuthLanguage(w, d, name, Requests(events), id, true) && Ordered(w, d, id, events)
    ensures GivenId(w, d, events, id)
  {
    hide Stored, Requests, Assigns, Rejects, LoadCredentials;
    var rs := Requests(events);
    if Stored(w, d).None? || Stored(w, d).value.0.uuid != id {
      var r := rs[|rs| - 1];
      assert r == PublicKeyRequest(w, id, name);
      var j := SentSomewhere(events, r);
      assert OrderedAt(w, d, id, events, j);
      AfterSave(w, d, id, events, j);
      assert OrderedAt(w, d, id, events, j - 1);
    }
  }

  lemma AfterSave(w: World, d: Disk, id: ClientId, events: seq<Event>, j: nat)
    requires j < |events| && events[j].Sent? && events[j].request.PublicKey? && OrderedAt(w, d, id, events, j)
    ensures j > 0 && events[j - 1] == CredentialsSaved
  {
  }

  lemma AuthCarries(w: World, d: Disk, name: Bytes, rs: seq<Request>, id: ClientId, ok: bool)
    requires AuthLanguage(w, d, name, rs, id, ok)
    ensures OneIdentity(w, d, rs, id)
  {
    hide LoadCredentials;
  }

  /** Requests about files, and no others. */
  ghost predicate OnlyFiles(rs: seq<Request>) {
    forall i :: 0 <= i < |rs| ==> rs[i].SendFile? || rs[i].CrcStatus?
  }

  lemma {:induction false} FilesAreOther(w: World, rs: seq<Request>, id: ClientId, key: Bytes,
                                         paths: seq<Bytes>, ok: bool)
    requires FilesLanguage(w, rs, id, key, paths, ok)
    ensures OnlyFiles(rs)
    decreases |paths|
  {
    hide InExchange, Prepare;
    if paths != [] && Prepare(w, key, paths[0]).Some? {
      var f := Prepare(w, key, paths[0]).value;
      if InExchange(rs, id, f, MAX_CRC_ATTEMPTS, false) {
        ExchangeIsOther(rs, id, f, MAX_CRC_ATTEMPTS, false);
      } else {
        var n: nat :| n <= |rs| &&
          InExchange(rs[..n], id, f, MAX_CRC_ATTEMPTS, true) && FilesLanguage(w, rs[n..], id, key, paths[1..], ok);
        ExchangeIsOther(rs[..n], id, f, MAX_CRC_ATTEMPTS, true);
        FilesAreOther(w, rs[n..], id, key, paths[1..], ok);
        assert rs == rs[..n] + rs[n..];
      }
    }
  }

  lemma {:induction false} RoundsAreOther(file: Request, retry: Request, k: nat)
    requires file.SendFile? && retry.CrcStatus?
    ensures OnlyFiles(Rounds(file, retry, k))
  {
    if k > 0 {
      RoundsAreOther(file, retry, k - 1);
    }
  }

  lemma ExchangeIsOther(rs: seq<Request>, id: ClientId, f: FileData, left: nat, ok: bool)
    requires InExchange(rs, id, f, left, ok)
    ensures OnlyFiles(rs)
  {
    var k: nat, v: Verdict :| k < left && v != CrcInvalidRetry && rs <= FullExchange(id, f, k, v);
    RoundsAreOther(FileRequest(id, f), Status(id, f, CrcInvalidRetry), k);
    forall i | 0 <= i < |rs| ensures rs[i].SendFile? || rs[i].CrcStatus? {
      assert rs[i] == FullExchange(id, f, k, v)[i];
    }
  }

  /**
   * A whole run, against any server: every request carries the one identifier it should, and file
   * requests go out only after a 32-byte key came from the last accepted 1602 or 1605.
   */
  lemma RunHasOneIdentity(w: World, s: State) returns (auth: Step<bool>, files: Step<bool>)
    requires w.config.Some? && w.connects
    ensures auth == Authenticate(w, s.(channel := s.channel.(open := true)), w.config.value.clientName)
    ensures Run(w, s).events == auth.events + files.events
    ensures Requests(Run(w, s).events) == Requests(auth.events) + Requests(files.events)
    ensures OneIdentity(w, s.disk, Requests(Run(w, s).events), auth.next.id)
    ensures Ordered(w, s.disk, auth.next.id, auth.events)
    ensures OnlyFiles(Requests(files.events))
    ensures files.events != [] ==>
      && |auth.next.aesKey| == 32 && KeyAccepted(w, s.disk, auth.events, auth.next)
      && GivenId(w, s.disk, auth.events, auth.next.id)
  {
    hide Authenticate, CarriesId, AuthLanguage, FilesLanguage, KeyAccepted, Ordered, Requests, CountReads, DiskLaw,
         LoadCredentials, GivenId;
    var s0 := s.(channel := s.channel.(open := true));
    auth, files := RunShape(w, s);
    var id, name := auth.next.id, w.config.value.clientName;
    RequestsAppend(auth.events, files.events);
    AuthCarries(w, s.disk, name, Requests(auth.events), id, auth.value);
    if files.events == [] {
      NoEvents();
    } else {
      FilesCarry(w, Requests(files.events), id, auth.next.aesKey, w.config.value.files, files.value);
      FilesAreOther(w, Requests(files.events), id, auth.next.aesKey, w.config.value.files, files.value);
      OtherCarry(w, s.disk, Requests(files.events), id);
      AuthGivesId(w, s.disk, name, auth.events, id);
    }
  }

  lemma OtherCarry(w: World, d: Disk, rs: seq<Request>, id: ClientId)
    requires AllCarry(rs, id) && OnlyFiles(rs)
    ensures OneIdentity(w, d, rs, id)
  {
    hide Stored;
  }

  /** What a whole run puts on the wire is read back as its requests, with at most a part of one more left over. */
  lemma RunStreamReadsBack(w: World, s: State) returns (part: Bytes)
    requires forall i :: 0 <= i < |Requests(Run(w, s).events)| ==> WireReader.Fits(Requests(Run(w, s).events)[i])
    ensures
      var rs := Requests(Run(w, s).events);
      && Run(w, s).next.channel.wire == s.channel.wire + EncodeAll(rs) + part
      && WireReader.ReadAll(EncodeAll(rs)) == Some(WireReader.FramesOf(rs))
      && PartialPacket(part, Run(w, s).events)
  {
    hide Run, Encode, ReadLaw, Requests, StopsAtFailure;
    var run := Run(w, s);
    SessionLaws.RunLawful(w, s);
    assert SessionLaws.Opened(w, s).channel.wire == s.channel.wire;
    part :| PartialPacket(part, run.events) &&
      SessionLaws.BeforeDisconnect(w, s).channel.wire == s.channel.wire + EncodeAll(Requests(run.events)) + part;
    WireReader.StreamReadsBack(Requests(run.events));
  }
}
