/** A server that reads the requests off the wire and answers each, joined to the client that sent them. */
module ReplyingServer {
  import opened Types
  import opened Words
  import opened Bitwise
  import opened Protocol
  import opened Session
  import opened SessionFacts
  import opened WireReader
  import opened WireFields
  import opened FileExchange
  import opened Completeness
  import opened HonestServer
  import Authentication
  import SessionLaws
  import Cksum
  import CrcNumber
  import Detection

  /**
   * The identifier it gives a new client, the encrypted AES key it makes for a public key, and the copy it
   * makes of the encrypted content of its n-th packet.
   */
  datatype Server = Server(version: uint8, newId: ClientId, wrap: Bytes -> Bytes, store: (nat, Bytes) -> Octets)

  function Response(server: Server, code: uint16, payload: Bytes): ServerResponse {
    ServerResponse(ResponseHeader(server.version, code, Narrow(|payload|)), payload)
  }

  /** The 1603 on a file that was received: its size as sent, and the checksum of the copy. */
  function ReportOn(server: Server, n: nat, id: ClientId, name: Bytes, content: Bytes): ServerResponse {
    var cksum := CrcNumber.Number(Cksum.Crc(server.store(n, content)));
    Response(server, 1603, EncodeFileCrc(FileCrcResponse(id, Narrow(|content|), name, cksum)))
  }

  /** What it answers to its n-th packet. */
  function Reply(server: Server, n: nat, r: Request): seq<ServerResponse> {
    match r
    case Registration(_) => [Response(server, 1600, server.newId)]
    case PublicKey(id, _, key) => [Response(server, 1602, id + server.wrap(key))]
    case Reconnect(id, _) => [Response(server, 1606, id)]
    case SendFile(id, _, _, _, name, content) => [ReportOn(server, n, id, name, content)]
    case CrcStatus(id, v, _) => if v == CrcInvalidRetry then [] else [Response(server, 1604, id)]
  }

  function ReplyToFrames(server: Server, n: nat, frames: seq<Frame>): seq<ServerResponse>
    decreases |frames|
  {
    if frames == [] then []
    else
      (match RequestOf(frames[0]) case None => [] case Some(r) => Reply(server, n, r)) +
      ReplyToFrames(server, n + 1, frames[1..])
  }

  /** What it sends back for the bytes it received. */
  function Replies(server: Server, wire: Bytes): Bytes {
    match ReadAll(wire)
    case None => []
    case Some(frames) => Frames(ReplyToFrames(server, 0, frames))
  }

  // ---- from the wire to the requests ----

  function ReplyToAll(server: Server, n: nat, rs: seq<Request>): seq<ServerResponse>
    decreases |rs|
  {
    if rs == [] then [] else Reply(server, n, Kept(rs[0])) + ReplyToAll(server, n + 1, rs[1..])
  }

  ghost predicate AllFit(rs: seq<Request>) {
    forall i :: 0 <= i < |rs| ==> Fits(rs[i])
  }

  lemma {:induction false} RepliesToFrames(server: Server, n: nat, rs: seq<Request>)
    requires AllFit(rs)
    ensures ReplyToFrames(server, n, FramesOf(rs)) == ReplyToAll(server, n, rs)
    decreases |rs|
  {
    hide RequestOf, FrameOf, Kept, Reply, Fits;
    if rs != [] {
      FieldsRead(rs[0]);
      RepliesToFrames(server, n + 1, rs[1..]);
      assert FramesOf(rs)[1..] == FramesOf(rs[1..]);
    }
  }

  /** The server answers the requests themselves, as far as their fields carry them. */
  lemma RepliesAreToRequests(server: Server, rs: seq<Request>)
    requires AllFit(rs)
    ensures Replies(server, EncodeAll(rs)) == Frames(ReplyToAll(server, 0, rs))
  {
    hide ReadAll, EncodeAll, FramesOf, Frames, ReplyToFrames, ReplyToAll, Fits;
    StreamReadsBack(rs);
    RepliesToFrames(server, 0, rs);
  }

  lemma {:induction false} ReplyAppend(server: Server, n: nat, a: seq<Request>, b: seq<Request>)
    ensures ReplyToAll(server, n, a + b) == ReplyToAll(server, n, a) + ReplyToAll(server, n + |a|, b)
    decreases |a|
  {
    hide Reply, Kept;
    if a == [] {
      assert a + b == b;
    } else {
      ReplyAppend(server, n + 1, a[1..], b);
      assert (a + b)[0] == a[0] && (a + b)[1..] == a[1..] + b;
    }
  }

  // ---- one file ----

  /** The copy has the file's length but not its content, and differs from it within 32 consecutive bits. */
  ghost predicate Damaged(content: Octets, copy: Octets) {
    |copy| == |content| && copy != content &&
    exists from: nat :: Detection.AgreeOutside(Cksum.BitsOf(content), Cksum.BitsOf(copy), from, 32)
  }

  /** From packet n on, the server damages k copies of this file and then decrypts one right. */
  ghost predicate Stores(server: Server, n: nat, content: Octets, encrypted: Bytes, k: nat) {
    && (forall j: nat :: j < k ==> Damaged(content, server.store(n + 2 * j, encrypted)))
    && server.store(n + 2 * k, encrypted) == content
  }

  function ReportAt(server: Server, n: nat, id: ClientId, f: FileData): ServerResponse {
    ReportOn(server, n, id, ReadText(f.fileName), f.encryptedContent)
  }

  function Refusals(server: Server, n: nat, id: ClientId, f: FileData, k: nat): (r: seq<ServerResponse>)
    ensures |r| == k
    ensures forall j: nat :: j < k ==> r[j] == ReportAt(server, n + 2 * j, id, f)
  {
    seq(k, j requires 0 <= j < k => ReportAt(server, n + 2 * j, id, f))
  }

  function ScriptFor(server: Server, n: nat, id: ClientId, f: FileData, k: nat): Script {
    Script(Refusals(server, n, id, f, k), ReportAt(server, n + 2 * k, id, f), Response(server, 1604, id))
  }

  lemma FileReply(server: Server, n: nat, id: ClientId, f: FileData, v: Verdict)
    ensures ReplyToAll(server, n, [FileRequest(id, f), Status(id, f, v)]) ==
            [ReportAt(server, n, id, f)] +
            if v == CrcInvalidRetry then [] else [Response(server, 1604, id)]
  {
    hide ReadText, ReportOn, Response;
    var rs := [FileRequest(id, f), Status(id, f, v)];
    assert rs[1..] == [Status(id, f, v)] && rs[1..][1..] == [];
    assert ReplyToAll(server, n + 2, []) == [];
    assert ReplyToAll(server, n + 1, rs[1..]) == Reply(server, n + 1, Kept(Status(id, f, v))) + [];
    assert Reply(server, n, Kept(FileRequest(id, f))) == [ReportAt(server, n, id, f)];
  }

  lemma RefusalsMore(server: Server, n: nat, id: ClientId, f: FileData, k: nat)
    requires k > 0
    ensures [ReportAt(server, n, id, f)] + Refusals(server, n + 2, id, f, k - 1) == Refusals(server, n, id, f, k)
  {
    hide ReportAt;
    var more := Refusals(server, n + 2, id, f, k - 1);
    var all := [ReportAt(server, n, id, f)] + more;
    forall j: nat | j < k ensures all[j] == ReportAt(server, n + 2 * j, id, f) {
      if j > 0 {
        assert more[j - 1] == ReportAt(server, n + 2 + 2 * (j - 1), id, f);
      }
    }
  }

  lemma NoReplies(server: Server, n: nat)
    ensures ReplyToAll(server, n, []) == [] && Frames([]) == []
  {
  }

  lemma {:induction false} RoundReplies(server: Server, n: nat, id: ClientId, f: FileData, k: nat)
    ensures ReplyToAll(server, n, Rounds(FileRequest(id, f), Status(id, f, CrcInvalidRetry), k)) ==
            Refusals(server, n, id, f, k)
    ensures |Rounds(FileRequest(id, f), Status(id, f, CrcInvalidRetry), k)| == 2 * k
    decreases k
  {
    hide FileRequest, Status, ReportAt, Refusals, ReplyToAll;
    if k == 0 {
      NoReplies(server, n);
    } else {
      var file, retry := FileRequest(id, f), Status(id, f, CrcInvalidRetry);
      RoundReplies(server, n + 2, id, f, k - 1);
      FileReply(server, n, id, f, CrcInvalidRetry);
      ReplyAppend(server, n, [file, retry], Rounds(file, retry, k - 1));
      RefusalsMore(server, n, id, f, k);
    }
  }

  /** What comes back for one exchange is its script. */
  lemma ExchangeReplies(server: Server, n: nat, id: ClientId, f: FileData, k: nat)
    ensures Frames(ReplyToAll(server, n, FullExchange(id, f, k, CrcValid))) ==
            ScriptBytes(ScriptFor(server, n, id, f, k))
    ensures |FullExchange(id, f, k, CrcValid)| == 2 * k + 2
  {
    hide FileRequest, Status, ReportAt, FrameBytes, Response, Refusals, ReplyToAll, Rounds;
    var file, retry := FileRequest(id, f), Status(id, f, CrcInvalidRetry);
    var script := ScriptFor(server, n, id, f, k);
    RoundReplies(server, n, id, f, k);
    FileReply(server, n + 2 * k, id, f, CrcValid);
    ReplyAppend(server, n, Rounds(file, retry, k), [file, Status(id, f, CrcValid)]);
    assert [script.last] + [script.confirm] == [script.last, script.confirm];
    FramesAppend(script.wrong, [script.last] + [script.confirm]);
    FramesFirst(script.last, [script.confirm]);
    FramesFirst(script.confirm, []);
    assert [script.confirm] + [] == [script.confirm];
    assert FrameBytes(script.confirm) + Frames([]) == FrameBytes(script.confirm);
  }

  lemma TextIsShort(s: Bytes)
    ensures |ReadText(s)| <= 254 && NulFree(ReadText(s))
  {
    CStringIsPrefix(Take(s, 254));
  }

  lemma ReportReads(server: Server, id: ClientId, size: uint32, name: Bytes, cksum: uint32)
    requires |name| <= 255 && NulFree(name)
    ensures
      var r := Response(server, 1603, EncodeFileCrc(FileCrcResponse(id, size, name, cksum)));
      && WellSized(r) && |r.payload| == CRC_PAYLOAD_SIZE && Take(r.payload, UUID_SIZE) == id
      && FileCrcOf(r.payload) == FileCrcResponse(id, size, name, cksum)
  {
    hide CString;
    FileCrcReads(FileCrcResponse(id, size, name, cksum));
    assert EncodeFileCrc(FileCrcResponse(id, size, name, cksum))[..16] == id;
  }

  /** A report is always acceptable; it matches exactly if the copy has the file's checksum. */
  lemma ReportFits(server: Server, n: nat, s: State, f: FileData)
    requires Fits(FileRequest(s.id, f))
    ensures
      var r := ReportAt(server, n, s.id, f);
      var cksum := CrcNumber.Number(Cksum.Crc(server.store(n, f.encryptedContent)));
      && Answers(r, s, f)
      && (Matches(r, f) <==> cksum == f.crc) && (Mismatches(r, f) <==> cksum != f.crc)
  {
    hide CString, ReadText, Cksum.Crc, CrcNumber.Number, EncodeFileCrc, FileCrcOf, Response, WellSized;
    var cksum := CrcNumber.Number(Cksum.Crc(server.store(n, f.encryptedContent)));
    TextIsShort(f.fileName);
    ReportReads(server, s.id, Narrow(|f.encryptedContent|), ReadText(f.fileName), cksum);
    FileCode(server, EncodeFileCrc(FileCrcResponse(s.id, Narrow(|f.encryptedContent|), ReadText(f.fileName), cksum)));
  }

  lemma FileCode(server: Server, payload: Bytes)
    ensures Response(server, 1603, payload).header.code == 1603
  {
  }

  lemma Confirmation(server: Server, s: State)
    ensures Confirms(Response(server, 1604, s.id), s)
  {
    assert s.id[..16] == s.id;
  }

  lemma DamageShows(content: Octets, copy: Octets)
    requires Damaged(content, copy)
    ensures CrcNumber.Number(Cksum.Crc(copy)) != CrcNumber.Number(Cksum.Crc(content))
  {
    hide Cksum.Crc, CrcNumber.Number, Cksum.BitsOf, Detection.AgreeOutside;
    var from: nat :| Detection.AgreeOutside(Cksum.BitsOf(content), Cksum.BitsOf(copy), from, 32);
    Detection.BitBurstDetected(content, copy, from);
    if CrcNumber.Number(Cksum.Crc(copy)) == CrcNumber.Number(Cksum.Crc(content)) {
      CrcNumber.NumberInjective(Cksum.Crc(copy), Cksum.Crc(content));
    }
  }

  /** Damage is refused each time, and the right copy goes through. */
  lemma ServerServes(server: Server, n: nat, w: World, s: State, path: Bytes, k: nat)
    requires k < MAX_CRC_ATTEMPTS && Prepare(w, s.aesKey, path).Some?
    requires
      var f := Prepare(w, s.aesKey, path).value;
      Fits(FileRequest(s.id, f)) && Stores(server, n, w.files[path].content, f.encryptedContent, k)
    ensures Serves(ScriptFor(server, n, s.id, Prepare(w, s.aesKey, path).value, k), w, s, path)
  {
    hide Cksum.Crc, CrcNumber.Number, EncryptAesCbc, Fits, FileRequest, Answers, Matches, Mismatches, Confirms,
         ReportAt, Response, Damaged;
    var f := Prepare(w, s.aesKey, path).value;
    forall j: nat | j < k
      ensures Answers(ReportAt(server, n + 2 * j, s.id, f), s, f) && Mismatches(ReportAt(server, n + 2 * j, s.id, f), f)
    {
      ReportFits(server, n + 2 * j, s, f);
      DamageShows(w.files[path].content, server.store(n + 2 * j, f.encryptedContent));
    }
    ReportFits(server, n + 2 * k, s, f);
    Confirmation(server, s);
  }

  // ---- all files ----

  function Scripts(server: Server, n: nat, w: World, key: Bytes, id: ClientId, paths: seq<Bytes>, counts: seq<nat>)
      : (r: seq<Script>)
    requires |counts| == |paths| && Prepared(w, key, paths)
    ensures |r| == |paths|
    decreases |paths|
  {
    if paths == [] then []
    else
      [ScriptFor(server, n, id, Prepare(w, key, paths[0]).value, counts[0])] +
      Scripts(server, n + 2 * counts[0] + 2, w, key, id, paths[1..], counts[1..])
  }

  /** The server's copies of all the files, each damaged so many times and then right, and few enough times. */
  ghost predicate StoresAll(server: Server, n: nat, w: World, key: Bytes, paths: seq<Bytes>, counts: seq<nat>)
    requires |counts| == |paths| && Prepared(w, key, paths)
    decreases |paths|
  {
    paths == [] ||
    (counts[0] < MAX_CRC_ATTEMPTS &&
     Stores(server, n, w.files[paths[0]].content, Prepare(w, key, paths[0]).value.encryptedContent, counts[0]) &&
     StoresAll(server, n + 2 * counts[0] + 2, w, key, paths[1..], counts[1..]))
  }

  ghost predicate FilesFit(w: World, key: Bytes, id: ClientId, paths: seq<Bytes>)
    requires Prepared(w, key, paths)
  {
    forall i :: 0 <= i < |paths| ==> Fits(FileRequest(id, Prepare(w, key, paths[i]).value))
  }

  lemma ScriptCount(server: Server, n: nat, id: ClientId, f: FileData, k: nat)
    ensures |ScriptFor(server, n, id, f, k).wrong| == k
  {
  }

  lemma {:induction false} FilesReplies(server: Server, n: nat, w: World, key: Bytes, id: ClientId,
                                        paths: seq<Bytes>, counts: seq<nat>)
    requires |counts| == |paths| && Prepared(w, key, paths)
    ensures Frames(ReplyToAll(server, n, Exchanges(w, key, id, paths, counts))) ==
            ScriptsBytes(Scripts(server, n, w, key, id, paths, counts))
    ensures Counts(Scripts(server, n, w, key, id, paths, counts)) == counts
    decreases |paths|
  {
    hide Prepare, FullExchange, ScriptBytes, Frames, ReplyToAll, ScriptFor;
    NoReplies(server, n);
    if paths != [] {
      var f, k := Prepare(w, key, paths[0]).value, counts[0];
      var m := n + 2 * k + 2;
      var first, more := FullExchange(id, f, k, CrcValid), Exchanges(w, key, id, paths[1..], counts[1..]);
      FilesReplies(server, m, w, key, id, paths[1..], counts[1..]);
      ExchangeReplies(server, n, id, f, k);
      ReplyAppend(server, n, first, more);
      FramesAppend(ReplyToAll(server, n, first), ReplyToAll(server, m, more));
      ScriptCount(server, n, id, f, k);
      assert counts == [k] + counts[1..];
    }
  }

  lemma {:induction false} ServerServesAll(server: Server, n: nat, w: World, s: State, paths: seq<Bytes>,
                                           counts: seq<nat>)
    requires |counts| == |paths| && Prepared(w, s.aesKey, paths) && FilesFit(w, s.aesKey, s.id, paths)
    requires StoresAll(server, n, w, s.aesKey, paths, counts)
    ensures
      var scripts := Scripts(server, n, w, s.aesKey, s.id, paths, counts);
      forall i :: 0 <= i < |paths| ==> Serves(scripts[i], w, s, paths[i])
    decreases |paths|
  {
    hide Prepare, Fits, Serves, Stores, ScriptFor;
    if paths != [] {
      var m := n + 2 * counts[0] + 2;
      ServerServes(server, n, w, s, paths[0], counts[0]);
      ServerServesAll(server, m, w, s, paths[1..], counts[1..]);
      var scripts := Scripts(server, n, w, s.aesKey, s.id, paths, counts);
      forall i | 0 <= i < |paths| ensures Serves(scripts[i], w, s, paths[i]) {
        assert i > 0 ==> scripts[i] == scripts[1..][i - 1] && paths[i] == paths[1..][i - 1];
      }
    }
  }

  // ---- a run ----

  /** The AES key a new client ends up with: what decrypts from the answer to its public key, as the field holds it. */
  function KeyGiven(server: Server, w: World): Bytes {
    w.crypto.rsaDecrypt(w.crypto.generated, KeyAnswer(server, w))
  }

  function KeyAnswer(server: Server, w: World): Bytes {
    server.wrap(Padded(w.crypto.publicDer(w.crypto.generated), PUBLIC_KEY_SIZE, PUBLIC_KEY_SIZE))
  }

  /** What a new client sends to this server, its files being refused so many times each. */
  function Conversation(server: Server, w: World, counts: seq<nat>): seq<Request>
    requires w.config.Some? && |counts| == |w.config.value.files|
    requires Prepared(w, KeyGiven(server, w), w.config.value.files)
  {
    var info := w.config.value;
    [Registration(info.clientName), Authentication.PublicKeyRequest(w, server.newId, info.clientName)] +
    Exchanges(w, KeyGiven(server, w), server.newId, info.files, counts)
  }

  lemma RegistrationReplies(server: Server, w: World, name: Bytes)
    ensures
      ReplyToAll(server, 0, [Registration(name), Authentication.PublicKeyRequest(w, server.newId, name)]) ==
      [Response(server, 1600, server.newId)] +
      [Response(server, 1602, server.newId + KeyAnswer(server, w))]
  {
    hide Response, ReadText, Padded;
    var a, b := Registration(name), Authentication.PublicKeyRequest(w, server.newId, name);
    assert [a, b][1..] == [b] && [b][1..] == [];
    assert ReplyToAll(server, 2, []) == [];
    assert ReplyToAll(server, 1, [b]) == Reply(server, 1, Kept(b)) + [];
  }

  lemma ProperReplies(server: Server, answer: Bytes)
    requires |answer| == 128
    ensures Proper(Response(server, 1600, server.newId), 1600, server.newId)
    ensures Proper(Response(server, 1602, server.newId + answer), 1602, server.newId)
    ensures (server.newId + answer)[16..] == answer && |server.newId + answer| == AES_KEY_PAYLOAD_SIZE
  {
    assert server.newId[..16] == server.newId && (server.newId + answer)[..16] == server.newId;
  }

  lemma ConversationReplies(server: Server, w: World, counts: seq<nat>)
    requires w.config.Some? && |counts| == |w.config.value.files|
    requires Prepared(w, KeyGiven(server, w), w.config.value.files)
    ensures
      var info := w.config.value;
      Frames(ReplyToAll(server, 0, Conversation(server, w, counts))) ==
      FrameBytes(Response(server, 1600, server.newId)) +
      (FrameBytes(Response(server, 1602, server.newId + KeyAnswer(server, w))) +
       ScriptsBytes(Scripts(server, 2, w, KeyGiven(server, w), server.newId, info.files, counts)))
  {
    hide ReplyToAll, Frames, FrameBytes, Response, Exchanges, Prepared, Scripts, ScriptsBytes, KeyGiven, KeyAnswer;
    var info := w.config.value;
    var start := [Registration(info.clientName), Authentication.PublicKeyRequest(w, server.newId, info.clientName)];
    var files := Exchanges(w, KeyGiven(server, w), server.newId, info.files, counts);
    var a := Response(server, 1600, server.newId);
    var b := Response(server, 1602, server.newId + KeyAnswer(server, w));
    RegistrationReplies(server, w, info.clientName);
    ReplyAppend(server, 0, start, files);
    FilesReplies(server, 2, w, KeyGiven(server, w), server.newId, info.files, counts);
    var last := ReplyToAll(server, 2, files);
    assert [a] + [b] + last == [a] + ([b] + last);
    FramesFirst(a, [b] + last);
    FramesFirst(b, last);
  }

  lemma ConversationFits(server: Server, w: World, counts: seq<nat>)
    requires w.config.Some? && |counts| == |w.config.value.files|
    requires Prepared(w, KeyGiven(server, w), w.config.value.files)
    requires FilesFit(w, KeyGiven(server, w), server.newId, w.config.value.files)
    ensures AllFit(Conversation(server, w, counts))
  {
    hide KeyGiven, Prepared, FilesFit, Exchanges;
    ExchangesFit(w, KeyGiven(server, w), server.newId, w.config.value.files, counts);
  }

  lemma {:induction false} RoundsFit(file: Request, retry: Request, k: nat)
    requires Fits(file) && Fits(retry)
    ensures AllFit(Rounds(file, retry, k))
  {
    hide Fits;
    if k > 0 {
      RoundsFit(file, retry, k - 1);
    }
  }

  lemma {:induction false} ExchangesFit(w: World, key: Bytes, id: ClientId, paths: seq<Bytes>, counts: seq<nat>)
    requires |counts| == |paths| && Prepared(w, key, paths) && FilesFit(w, key, id, paths)
    ensures AllFit(Exchanges(w, key, id, paths, counts))
    decreases |paths|
  {
    hide Prepare;
    if paths != [] {
      var f := Prepare(w, key, paths[0]).value;
      RoundsFit(FileRequest(id, f), Status(id, f, CrcInvalidRetry), counts[0]);
      ExchangesFit(w, key, id, paths[1..], counts[1..]);
    }
  }

  /**
   * A new client and this server, joined by a line that holds: what arrives is what the server answers to
   * the bytes the client sends. The server reads each request off those bytes; its copies of a file may be
   * damaged within 32 bits up to three times each before one is right. The run succeeds, having sent exactly
   * that conversation: every damage was noticed and every file repaired.
   */
  lemma ConversationCompletes(server: Server, w: World, s: State, counts: seq<nat>, rest: Bytes)
    requires w.config.Some? && w.connects && s.disk.meInfo.None? && w.access.meCreates && w.access.keyCreates
    requires Reliable(s.channel.(open := true))
    requires |KeyAnswer(server, w)| == 128 && |KeyGiven(server, w)| == 32
    requires |counts| == |w.config.value.files|
    requires Prepared(w, KeyGiven(server, w), w.config.value.files)
    requires FilesFit(w, KeyGiven(server, w), server.newId, w.config.value.files)
    requires StoresAll(server, 2, w, KeyGiven(server, w), w.config.value.files, counts)
    requires s.channel.incoming == Replies(server, EncodeAll(Conversation(server, w, counts))) + rest
    ensures Run(w, s).value && Run(w, s).next.channel.incoming == rest
    ensures Requests(Run(w, s).events) == Conversation(server, w, counts)
    ensures Run(w, s).next.channel.wire == s.channel.wire + EncodeAll(Conversation(server, w, counts))
  {
    hide Run, Replies, EncodeAll, Conversation, Requests, StoresAll, FilesFit, Prepared, Reliable, Serves, Proper,
         Exchanges, Counts, Scripts, ScriptsBytes, FrameBytes, Frames, ReplyToAll, KeyAnswer, Response, AllFit;
    var info, aesKey := w.config.value, KeyGiven(server, w);
    var registered := Response(server, 1600, server.newId);
    var key := Response(server, 1602, server.newId + KeyAnswer(server, w));
    var scripts := Scripts(server, 2, w, aesKey, server.newId, info.files, counts);
    var rs := Conversation(server, w, counts);
    ConversationFits(server, w, counts);
    RepliesAreToRequests(server, rs);
    ConversationReplies(server, w, counts);
    ProperReplies(server, KeyAnswer(server, w));
    PayloadOfResponse(server, 1602, server.newId + KeyAnswer(server, w));
    ServerServesAll(server, 2, w, s.(id := server.newId, aesKey := aesKey), info.files, counts);
    assert s.channel.incoming == FrameBytes(registered) + (FrameBytes(key) + (ScriptsBytes(scripts) + rest));
    FreshRunCompletes(w, s, server.newId, registered, key, scripts, rest);
    FilesReplies(server, 2, w, aesKey, server.newId, info.files, counts);
    ConversationUnfolds(server, w, counts);
    WholeWire(w, s);
  }

  lemma PayloadOfResponse(server: Server, code: uint16, payload: Bytes)
    ensures Response(server, code, payload).payload == payload
  {
  }

  lemma ConversationUnfolds(server: Server, w: World, counts: seq<nat>)
    requires w.config.Some? && |counts| == |w.config.value.files|
    requires Prepared(w, KeyGiven(server, w), w.config.value.files)
    ensures
      var info := w.config.value;
      Conversation(server, w, counts) ==
      [Registration(info.clientName), Authentication.PublicKeyRequest(w, server.newId, info.clientName)] +
      Exchanges(w, KeyGiven(server, w), server.newId, info.files, counts)
  {
    hide Exchanges, Prepared, KeyGiven;
  }

  /** A run that succeeds has left no part of a packet on the wire. */
  lemma WholeWire(w: World, s: State)
    requires Run(w, s).value
    ensures Run(w, s).next.channel.wire == s.channel.wire + EncodeAll(Requests(Run(w, s).events))
  {
    hide Run, Encode, EncodeAll, ReadLaw, Requests;
    SessionLaws.RunLawful(w, s);
    var run := Run(w, s);
    assert SessionLaws.Opened(w, s).channel.wire == s.channel.wire;
    var part: Bytes :| PartialPacket(part, run.events) &&
      SessionLaws.BeforeDisconnect(w, s).channel.wire == s.channel.wire + EncodeAll(Requests(run.events)) + part;
    assert part == [];
  }
}
