/** What a whole run sends, in what order, under which identifier and key. */
module RunLaws {
  import opened Types
  import opened Protocol
  import opened Config
  import opened Session
  import opened SessionFacts
  import opened FileExchange
  import opened Authentication

  /** The files whose sending was started, in order. */
  function Started(events: seq<Event>): seq<Bytes> {
    if events == [] then []
    else
      var last := events[|events| - 1];
      Started(events[..|events| - 1]) + if last.FileStarted? then [last.path] else []
  }

  lemma {:induction false} StartedAppend(a: seq<Event>, b: seq<Event>)
    ensures Started(a + b) == Started(a) + Started(b)
    decreases |b|
  {
    if b == [] {
      assert a + b == a;
    } else {
      StartedAppend(a, b[..|b| - 1]);
      assert (a + b)[..|a + b| - 1] == a + b[..|b| - 1];
    }
  }

  lemma {:induction false} NoneStarted(events: seq<Event>)
    requires forall e :: e in events ==> !e.FileStarted?
    ensures Started(events) == []
  {
    if events != [] {
      NoneStarted(events[..|events| - 1]);
    }
  }

  // ---- one file ----

  ghost predicate FileLaw(w: World, s: State, path: Bytes, step: Step<bool>) {
    && step.next == s.(channel := step.next.channel)
    && (match Prepare(w, s.aesKey, path)
        case None => Requests(step.events) == [] && !step.value
        case Some(f) => InExchange(Requests(step.events), s.id, f, MAX_CRC_ATTEMPTS, step.value))
    && Started(step.events) == [path]
    && step.next.channel.attempts <= s.channel.attempts + 8
    && CountReads(step.events) <= 5
    && (forall e :: e in step.events ==> !e.CredentialsSaved? && !e.CredentialsRemoved? && !e.SaveFailed?)
  }

  /** An exchange touches neither the files to come nor the stored credentials. */
  lemma {:induction false} ExchangeEvents(s: State, f: FileData, left: nat)
    requires 1 <= left <= MAX_CRC_ATTEMPTS
    ensures forall e :: e in Attempts(s, f, left).events ==> e.Sent? || e.SendFailed? || e.Accepted? || e.Refused?
    decreases left
  {
    hide Send, Report, Confirm;
    ReportShape(s, f);
    var s1 := Report(s, f).next;
    SendFacts(s1, Status(s.id, f, CrcInvalidRetry));
    ConfirmEvents(s1, f, CrcValid);
    ConfirmEvents(s1, f, CrcInvalidAbort);
    if left > 1 {
      ExchangeEvents(Send(s1, Status(s.id, f, CrcInvalidRetry)).next, f, left - 1);
    }
  }

  lemma ConfirmEvents(s: State, f: FileData, v: Verdict)
    ensures forall e :: e in Confirm(s, f, v).events ==> e.Sent? || e.SendFailed? || e.Accepted? || e.Refused?
  {
    hide Send, Receive;
    SendFacts(s, Status(s.id, f, v));
    ReceiveFacts(Send(s, Status(s.id, f, v)).next, [MESSAGE_CONFIRMED]);
  }

  lemma StartEvent(path: Bytes)
    ensures Requests([FileStarted(path)]) == [] && CountReads([FileStarted(path)]) == 0
    ensures Started([FileStarted(path)]) == [path]
  {
    OneEvent(FileStarted(path));
    assert [FileStarted(path)][..0] == [];
  }

  lemma SendSingleFileKeepsLaw(w: World, s: State, path: Bytes)
    ensures FileLaw(w, s, path, SendSingleFile(w, s, path))
  {
    hide Prepare, Attempts, InExchange, Requests, CountReads, Started, Justified;
    StartEvent(path);
    assert forall e :: e in [FileStarted(path)] ==> e == FileStarted(path);
    match Prepare(w, s.aesKey, path)
    case None =>
    case Some(f) =>
      var step := Attempts(s, f, MAX_CRC_ATTEMPTS);
      AttemptsSound(s, f, MAX_CRC_ATTEMPTS);
      ExchangeEvents(s, f, MAX_CRC_ATTEMPTS);
      RequestsAppend([FileStarted(path)], step.events);
      CountReadsAppend([FileStarted(path)], step.events);
      StartedAppend([FileStarted(path)], step.events);
      NoneStarted(step.events);
      assert [] + Requests(step.events) == Requests(step.events) && [path] + [] == [path];
  }

  // ---- all files ----

  /**
   * The requests for the files are one full confirmed exchange for each file in order, up to the first
   * file that fails, which contributes a prefix of its exchange or, when it cannot be prepared, nothing.
   */
  ghost predicate FilesLanguage(w: World, rs: seq<Request>, id: ClientId, key: Bytes, paths: seq<Bytes>, ok: bool)
    decreases |paths|
  {
    if paths == [] then rs == [] && ok
    else match Prepare(w, key, paths[0])
      case None => rs == [] && !ok
      case Some(f) =>
        || (InExchange(rs, id, f, MAX_CRC_ATTEMPTS, false) && !ok)
        || exists n: nat :: n <= |rs| &&
             InExchange(rs[..n], id, f, MAX_CRC_ATTEMPTS, true) && FilesLanguage(w, rs[n..], id, key, paths[1..], ok)
  }

  ghost predicate FilesLaw(w: World, s: State, paths: seq<Bytes>, step: Step<bool>) {
    && step.next == s.(channel := step.next.channel)
    && FilesLanguage(w, Requests(step.events), s.id, s.aesKey, paths, step.value)
    && Started(step.events) <= paths && (step.value ==> Started(step.events) == paths)
    && step.next.channel.attempts <= s.channel.attempts + 8 * |paths|
    && CountReads(step.events) <= 5 * |paths|
    && (forall e :: e in step.events ==> !e.CredentialsSaved? && !e.CredentialsRemoved? && !e.SaveFailed?)
  }

  lemma FilesLanguageMore(w: World, first: seq<Request>, rest: seq<Request>, id: ClientId, key: Bytes,
                          paths: seq<Bytes>, f: FileData, ok: bool)
    requires paths != [] && Prepare(w, key, paths[0]) == Some(f)
    requires InExchange(first, id, f, MAX_CRC_ATTEMPTS, true) && FilesLanguage(w, rest, id, key, paths[1..], ok)
    ensures FilesLanguage(w, first + rest, id, key, paths, ok)
  {
    hide Prepare, InExchange;
    var rs := first + rest;
    assert rs[..|first|] == first && rs[|first|..] == rest;
  }

  lemma FilesStop(w: World, s: State, paths: seq<Bytes>, first: Step<bool>)
    requires paths != [] && FileLaw(w, s, paths[0], first) && !first.value
    ensures FilesLaw(w, s, paths, first)
  {
    hide Prepare, InExchange, Requests, CountReads, Started;
  }

  lemma FilesGoOn(w: World, s: State, paths: seq<Bytes>, first: Step<bool>, rest: Step<bool>)
    requires paths != [] && FileLaw(w, s, paths[0], first) && first.value
    requires FilesLaw(w, first.next, paths[1..], rest)
    ensures FilesLaw(w, s, paths, Then(first.events, rest))
  {
    hide Prepare, InExchange, FilesLanguage, Requests, CountReads, Started;
    RequestsAppend(first.events, rest.events);
    CountReadsAppend(first.events, rest.events);
    StartedAppend(first.events, rest.events);
    assert paths == [paths[0]] + paths[1..];
    match Prepare(w, s.aesKey, paths[0])
    case Some(f) =>
      FilesLanguageMore(w, Requests(first.events), Requests(rest.events), s.id, s.aesKey, paths, f, rest.value);
  }

  lemma {:induction false} SendFilesKeepsLaw(w: World, s: State, paths: seq<Bytes>)
    ensures FilesLaw(w, s, paths, SendFiles(w, s, paths))
    decreases |paths|
  {
    hide SendSingleFile, FileLaw, FilesLaw;
    if paths == [] {
      NoFiles(w, s);
    } else {
      var first := SendSingleFile(w, s, paths[0]);
      SendSingleFileKeepsLaw(w, s, paths[0]);
      if first.value {
        SendFilesKeepsLaw(w, first.next, paths[1..]);
        FilesGoOn(w, s, paths, first, SendFiles(w, first.next, paths[1..]));
      } else {
        FilesStop(w, s, paths, first);
      }
    }
  }

  lemma NoFiles(w: World, s: State)
    ensures FilesLaw(w, s, [], Step(true, [], s))
  {
  }

  // ---- a run ----

  /** A run that reads its configuration and connects: authentication, the key check, then the files. */
  ghost predicate RunLaw(w: World, s: State, auth: Step<bool>, files: Step<bool>, run: Step<bool>)
    requires w.config.Some?
  {
    var info := w.config.value;
    var keyOk := auth.value && |auth.next.aesKey| == 32;
    && AuthLaw(w, s, info.clientName, auth)
    && (if keyOk then FilesLaw(w, auth.next, info.files, files) && KeyAccepted(w, s.disk, auth.events, auth.next)
        else files.events == [] && !files.value)
    && run.events == auth.events + files.events
    && run.value == (keyOk && files.value)
  }

  lemma RunShape(w: World, s: State) returns (auth: Step<bool>, files: Step<bool>)
    requires w.config.Some? && w.connects
    ensures auth == Authenticate(w, s.(channel := s.channel.(open := true)), w.config.value.clientName)
    ensures RunLaw(w, s.(channel := s.channel.(open := true)), auth, files, Run(w, s))
    ensures Run(w, s).next.disk == auth.next.disk
    ensures Run(w, s).next.channel.attempts <= s.channel.attempts + 3 + 8 * |w.config.value.files|
    ensures CountReads(Run(w, s).events) <= 3 + 5 * |w.config.value.files|
  {
    hide Authenticate, SendFiles, AuthLaw, FilesLaw, KeyAccepted, CountReads;
    var s0 := s.(channel := s.channel.(open := true));
    var info := w.config.value;
    auth := Authenticate(w, s0, info.clientName);
    AuthenticateKeepsLaw(w, s0, info.clientName);
    AuthGivesKey(w, s0, info.clientName, auth);
    if auth.value && |auth.next.aesKey| == 32 {
      files := SendFiles(w, auth.next, info.files);
      SendFilesKeepsLaw(w, auth.next, info.files);
      FilesKeepDisk(w, auth.next, info.files, files);
      CountReadsAppend(auth.events, files.events);
    } else {
      files := Step(false, [], auth.next);
      assert auth.events + [] == auth.events;
    }
  }

  /** Bounded work, and the files in their order: all of them exactly when the run gets through them. */
  lemma RunIsBounded(w: World, s: State)
    requires w.config.Some?
    ensures
      var run := Run(w, s);
      var n := |w.config.value.files|;
      && run.next.channel.attempts <= s.channel.attempts + 3 + 8 * n
      && CountReads(run.events) <= 3 + 5 * n
      && Started(run.events) <= w.config.value.files
      && (run.value ==> Started(run.events) == w.config.value.files)
  {
    hide Run, Authenticate, AuthLanguage, Ordered, KeyAccepted, DiskLaw, FilesLanguage, CountReads, Started;
    if w.connects {
      var auth, files := RunShape(w, s);
      StartedAppend(auth.events, files.events);
      AuthStartsNothing(w, s.(channel := s.channel.(open := true)), w.config.value.clientName, auth);
      NoneStarted(auth.events);
      assert [] + Started(files.events) == Started(files.events);
      NoneStarted([]);
    } else {
      Unconnected(w, s);
    }
  }

  lemma Unconnected(w: World, s: State)
    requires w.config.Some? && !w.connects
    ensures Run(w, s) == Step(false, [], Close(s)) && Started([]) == [] && CountReads([]) == 0
  {
  }

  lemma AuthStartsNothing(w: World, s: State, name: Bytes, auth: Step<bool>)
    requires AuthLaw(w, s, name, auth)
    ensures forall e :: e in auth.events ==> !e.FileStarted?
  {
    hide AuthLanguage, KeyAccepted, DiskLaw, CountReads, Requests, LoadCredentials, Rejects, Assigns, Stored;
    forall e | e in auth.events ensures !e.FileStarted? {
      var j :| 0 <= j < |auth.events| && auth.events[j] == e;
      assert OrderedAt(w, s.disk, auth.next.id, auth.events, j);
    }
  }

  lemma AuthGivesKey(w: World, s: State, name: Bytes, auth: Step<bool>)
    requires AuthLaw(w, s, name, auth)
    ensures auth.value ==> KeyAccepted(w, s.disk, auth.events, auth.next)
    ensures auth.next.channel.attempts <= s.channel.attempts + 3 && CountReads(auth.events) <= 3
  {
    hide KeyAccepted, AuthLanguage, Ordered, DiskLaw;
  }

  lemma FilesKeepDisk(w: World, s: State, paths: seq<Bytes>, files: Step<bool>)
    requires FilesLaw(w, s, paths, files)
    ensures files.next.disk == s.disk
    ensures files.next.channel.attempts <= s.channel.attempts + 8 * |paths| && CountReads(files.events) <= 5 * |paths|
  {
    hide FilesLanguage;
  }
}
