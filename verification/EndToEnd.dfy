/** What success says about the server's copy of a file. */
module EndToEnd {
  import opened Types
  import opened Bitwise
  import opened Protocol
  import opened Session
  import opened SessionFacts
  import opened FileExchange
  import opened RunLaws
  import Authentication
  import CrcRegister
  import Gf2
  import Cksum
  import CrcNumber
  import Detection

  /** What a file's content becomes under the key; only a key of 32 bytes encrypts. */
  function Ciphertext(w: World, key: Bytes, content: Octets): Bytes {
    if |key| == 32 then w.crypto.aesEncrypt(key, content) else []
  }

  /** Response c is a 1603 with the checksum of this file and the size of its ciphertext under this key. */
  predicate Delivered(w: World, key: Bytes, path: Bytes, c: ServerResponse) {
    && path in w.files
    && c.header.code == FILE_RECEIVED_WITH_CRC && |c.payload| == CRC_PAYLOAD_SIZE
    && FileCrcOf(c.payload).contentSize == |Ciphertext(w, key, w.files[path].content)|
    && FileCrcOf(c.payload).cksum == CrcNumber.Number(Cksum.Crc(w.files[path].content))
  }

  /** The 828 for a file: its own size, name and ciphertext, as packet 1 of 1. */
  function FilePacket(w: World, id: ClientId, key: Bytes, file: LocalFile): Request {
    SendFile(id, |file.content| % 0x1_0000_0000, 1, 1, file.name, Ciphertext(w, key, file.content))
  }

  /** Which files can be prepared, and what is sent, compared and reported of them. */
  lemma PreparedExactly(w: World, id: ClientId, key: Bytes, path: Bytes)
    ensures Prepare(w, key, path).Some? <==>
      && path in w.files && w.files[path].opens
      && (Ciphertext(w, key, w.files[path].content) != [] || w.files[path].content == [])
    ensures Prepare(w, key, path).Some? ==>
      var f := Prepare(w, key, path).value;
      && FileRequest(id, f) == FilePacket(w, id, key, w.files[path])
      && (forall v :: Status(id, f, v) == CrcStatus(id, v, w.files[path].name))
      && (forall c :: Matches(c, f) <==> Delivered(w, key, path, c))
  {
    hide FileCrcOf, Cksum.Crc, CrcNumber.Number;
  }

  // ---- what a matching report says of the copy it was computed from ----

  /**
   * The copy has the file's checksum. So if it has its length, it differs from it by a multiple of G, and is
   * the file if it differs within 32 bits at most.
   */
  ghost predicate AsGoodAs(content: Octets, copy: Octets) {
    && Cksum.Crc(copy) == Cksum.Crc(content)
    && (|copy| == |content| ==>
        && Gf2.Divides(CrcRegister.GENERATOR, Detection.Difference(content, copy))
        && forall from: nat ::
          Detection.AgreeOutside(Cksum.BitsOf(content), Cksum.BitsOf(copy), from, 32) ==> copy == content)
  }

  /** That report was computed from a copy exactly if the copy is as good as the file. */
  lemma DeliveredCopy(w: World, key: Bytes, path: Bytes, c: ServerResponse, copy: Octets)
    requires Delivered(w, key, path, c)
    ensures FileCrcOf(c.payload).cksum == CrcNumber.Number(Cksum.Crc(copy)) <==> AsGoodAs(w.files[path].content, copy)
  {
    hide FileCrcOf, Ciphertext, Cksum.BitsOf, Cksum.Crc, CrcNumber.Number, Detection.AgreeOutside,
         Detection.Difference, Gf2.Divides;
    var content := w.files[path].content;
    if FileCrcOf(c.payload).cksum == CrcNumber.Number(Cksum.Crc(copy)) {
      CrcNumber.NumberInjective(Cksum.Crc(copy), Cksum.Crc(content));
      if |copy| == |content| {
        Detection.MissedExactly(content, copy);
        forall from: nat | Detection.AgreeOutside(Cksum.BitsOf(content), Cksum.BitsOf(copy), from, 32)
          ensures copy == content
        {
          Detection.BitBurstDetected(content, copy, from);
        }
      }
    }
  }

  /** The same for a window of 4 bytes. */
  lemma DeliveredCopyBytes(w: World, key: Bytes, path: Bytes, c: ServerResponse, copy: Octets, from: nat)
    requires Delivered(w, key, path, c)
    requires FileCrcOf(c.payload).cksum == CrcNumber.Number(Cksum.Crc(copy))
    requires |copy| == |w.files[path].content| && Detection.AgreeOutside(w.files[path].content, copy, from, 4)
    ensures copy == w.files[path].content
  {
    hide FileCrcOf, Ciphertext, Cksum.Crc, CrcNumber.Number, Detection.AgreeOutside;
    CrcNumber.NumberInjective(Cksum.Crc(copy), Cksum.Crc(w.files[path].content));
    Detection.BurstDetected(w.files[path].content, copy, from);
  }

  // ---- where that report stands in a run ----

  /**
   * Event i is an accepted report that matches the n-th file, read while that file was the last one
   * started; just before it that file was sent, and just after it the 900 for it.
   */
  predicate DeliveredAt(w: World, id: ClientId, key: Bytes, paths: seq<Bytes>, n: nat, events: seq<Event>, i: nat) {
    && n < |paths| && i + 1 < |events|
    && Started(events[..i]) == paths[..n + 1]
    && events[i].Accepted? && Delivered(w, key, paths[n], events[i].response)
    && i > 0 && events[i - 1] == Sent(FilePacket(w, id, key, w.files[paths[n]]))
    && events[i + 1] == Sent(CrcStatus(id, CrcValid, w.files[paths[n]].name))
  }

  ghost predicate DeliveredIn(w: World, id: ClientId, key: Bytes, paths: seq<Bytes>, n: nat, events: seq<Event>) {
    exists i: nat :: DeliveredAt(w, id, key, paths, n, events, i)
  }

  lemma NoneStartedBefore(events: seq<Event>, i: nat)
    requires i <= |events| && forall e :: e in events ==> e.Sent? || e.SendFailed? || e.Accepted? || e.Refused?
    ensures Started(events[..i]) == []
  {
    forall e | e in events[..i] ensures !e.FileStarted? { assert e in events; }
    NoneStarted(events[..i]);
  }

  /** A file that went through was matched by the report read just before its 900. */
  lemma FileDelivered(w: World, s: State, path: Bytes) returns (i: nat)
    requires SendSingleFile(w, s, path).value
    ensures DeliveredAt(w, s.id, s.aesKey, [path], 0, SendSingleFile(w, s, path).events, i)
  {
    hide Attempts, Matches, Mismatches, InExchange, CountMismatches, CountReads, Requests, Prepare, Started, Delivered,
         FileRequest, FilePacket;
    PreparedExactly(w, s.id, s.aesKey, path);
    var f := Prepare(w, s.aesKey, path).value;
    var e := Attempts(s, f, MAX_CRC_ATTEMPTS).events;
    AttemptsSound(s, f, MAX_CRC_ATTEMPTS);
    i :| i < |e| && e[i] == Sent(Status(s.id, f, CrcValid));
    assert JustifiedAt(e, i, f);
    AttemptsReportsFollow(s, f, MAX_CRC_ATTEMPTS);
    MatchesIsReport(e[i - 1].response, f);
    var all := SendSingleFile(w, s, path).events;
    assert all == [FileStarted(path)] + e;
    assert all[i] == e[i - 1] && all[i + 1] == e[i] && all[i - 1] == e[i - 2];
    ExchangeEvents(s, f, MAX_CRC_ATTEMPTS);
    StartEvent(path);
    NoneStartedBefore(e, i - 1);
    StartedAppend([FileStarted(path)], e[..i - 1]);
    assert all[..i] == [FileStarted(path)] + e[..i - 1];
    assert [path] + [] == [path][..1];
  }

  lemma MatchesIsReport(c: ServerResponse, f: FileData)
    requires Matches(c, f)
    ensures c.header.code == FILE_RECEIVED_WITH_CRC
  {
  }

  lemma DeliveredEarlier(w: World, id: ClientId, key: Bytes, paths: seq<Bytes>, a: seq<Event>, b: seq<Event>, i: nat)
    requires paths != [] && DeliveredAt(w, id, key, [paths[0]], 0, a, i)
    ensures DeliveredAt(w, id, key, paths, 0, a + b, i)
  {
    hide Started, Delivered;
    assert (a + b)[..i] == a[..i];
    assert paths[..1] == [paths[0]][..1];
  }

  lemma DeliveredLater(w: World, id: ClientId, key: Bytes, paths: seq<Bytes>, n: nat, skip: nat,
                       a: seq<Event>, b: seq<Event>, i: nat)
    requires skip <= n < |paths| && Started(a) == paths[..skip]
    requires DeliveredAt(w, id, key, paths[skip..], n - skip, b, i)
    ensures DeliveredAt(w, id, key, paths, n, a + b, |a| + i)
  {
    hide Started, Delivered;
    StartedAppend(a, b[..i]);
    assert (a + b)[..|a| + i] == a + b[..i];
    assert paths[..n + 1] == paths[..skip] + paths[skip..][..n - skip + 1];
  }

  lemma {:induction false} FilesDelivered(w: World, s: State, paths: seq<Bytes>, n: nat) returns (i: nat)
    requires SendFiles(w, s, paths).value && n < |paths|
    ensures DeliveredAt(w, s.id, s.aesKey, paths, n, SendFiles(w, s, paths).events, i)
    decreases |paths|
  {
    hide SendSingleFile, Delivered, DeliveredAt, Started;
    var first := SendSingleFile(w, s, paths[0]);
    var rest := SendFiles(w, first.next, paths[1..]);
    StartsOne(w, s, paths[0]);
    if n == 0 {
      i := FileDelivered(w, s, paths[0]);
      DeliveredEarlier(w, s.id, s.aesKey, paths, first.events, rest.events, i);
    } else {
      var j := FilesDelivered(w, first.next, paths[1..], n - 1);
      DeliveredLater(w, s.id, s.aesKey, paths, n, 1, first.events, rest.events, j);
      i := |first.events| + j;
    }
  }

  lemma StartsOne(w: World, s: State, path: Bytes)
    ensures SendSingleFile(w, s, path).next.aesKey == s.aesKey && SendSingleFile(w, s, path).next.id == s.id
    ensures Started(SendSingleFile(w, s, path).events) == [path] == [path][..1]
  {
    hide SendSingleFile, InExchange, Requests, CountReads, Prepare, Started;
    SendSingleFileKeepsLaw(w, s, path);
  }

  // ---- a whole run ----

  /** The session once authentication is over: it has the identifier and the key the files go under. */
  function Authenticated(w: World, s: State): State
    requires w.config.Some?
  {
    Authenticate(w, s.(channel := s.channel.(open := true)), w.config.value.clientName).next
  }

  /**
   * A successful run delivered every configured file: in the exchange of each, just before its 900, a
   * response was accepted that reports its checksum and size, under the identifier and key of the session.
   */
  lemma RunDelivers(w: World, s: State)
    requires Run(w, s).value
    ensures w.config.Some? && |Authenticated(w, s).aesKey| == 32
    ensures
      var t, paths := Authenticated(w, s), w.config.value.files;
      forall n: nat :: n < |paths| ==> DeliveredIn(w, t.id, t.aesKey, paths, n, Run(w, s).events)
  {
    hide Authenticate, SendFiles, DeliveredAt, Started, Authentication.AuthLaw;
    var s0 := s.(channel := s.channel.(open := true));
    var auth := Authenticate(w, s0, w.config.value.clientName);
    var t, paths := auth.next, w.config.value.files;
    Authentication.AuthenticateKeepsLaw(w, s0, w.config.value.clientName);
    AuthStartsNothing(w, s0, w.config.value.clientName, auth);
    NoneStarted(auth.events);
    forall n: nat | n < |paths| ensures DeliveredIn(w, t.id, t.aesKey, paths, n, Run(w, s).events) {
      var j := FilesDelivered(w, t, paths, n);
      assert paths[0..] == paths && paths[..0] == [];
      DeliveredLater(w, t.id, t.aesKey, paths, n, 0, auth.events, SendFiles(w, t, paths).events, j);
    }
  }

  /** Each report that was accepted, as the i-th event, was computed from the copy the server held then. */
  ghost predicate ReportsCopies(events: seq<Event>, copyAt: nat -> Octets) {
    forall i :: 0 <= i < |events| && events[i].Accepted? && events[i].response.header.code == FILE_RECEIVED_WITH_CRC &&
                |events[i].response.payload| == CRC_PAYLOAD_SIZE ==>
      FileCrcOf(events[i].response.payload).cksum == CrcNumber.Number(Cksum.Crc(copyAt(i)))
  }

  /** The copy held at the report just before the n-th file's 900 is as good as that file. */
  ghost predicate CopiedIn(w: World, id: ClientId, key: Bytes, paths: seq<Bytes>, n: nat, events: seq<Event>,
                           copyAt: nat -> Octets)
  {
    n < |paths| && paths[n] in w.files &&
    exists i: nat :: DeliveredAt(w, id, key, paths, n, events, i) && AsGoodAs(w.files[paths[n]].content, copyAt(i))
  }

  lemma CopyAt(w: World, id: ClientId, key: Bytes, paths: seq<Bytes>, n: nat, events: seq<Event>, i: nat,
               copyAt: nat -> Octets)
    requires DeliveredAt(w, id, key, paths, n, events, i) && ReportsCopies(events, copyAt)
    ensures paths[n] in w.files && AsGoodAs(w.files[paths[n]].content, copyAt(i))
  {
    hide Ciphertext, Started, FileCrcOf, AsGoodAs, Cksum.Crc, CrcNumber.Number;
    DeliveredCopy(w, key, paths[n], events[i].response, copyAt(i));
  }

  /** Against a server that reports on its copies, the copy it held when a file went through is as good as the file. */
  lemma FileCopied(w: World, s: State, path: Bytes, copyAt: nat -> Octets) returns (i: nat)
    requires SendSingleFile(w, s, path).value && ReportsCopies(SendSingleFile(w, s, path).events, copyAt)
    ensures DeliveredAt(w, s.id, s.aesKey, [path], 0, SendSingleFile(w, s, path).events, i)
    ensures AsGoodAs(w.files[path].content, copyAt(i))
  {
    hide SendSingleFile, DeliveredAt, ReportsCopies, AsGoodAs;
    i := FileDelivered(w, s, path);
    CopyAt(w, s.id, s.aesKey, [path], 0, SendSingleFile(w, s, path).events, i, copyAt);
  }

  /**
   * Against such a server a successful run leaves it, for each configured file, with a copy that is as good:
   * the one it held when it sent the report just before that file's 900.
   */
  lemma RunCopies(w: World, s: State, copyAt: nat -> Octets)
    requires Run(w, s).value && ReportsCopies(Run(w, s).events, copyAt)
    ensures w.config.Some?
    ensures
      var t, paths := Authenticated(w, s), w.config.value.files;
      forall n: nat :: n < |paths| ==> CopiedIn(w, t.id, t.aesKey, paths, n, Run(w, s).events, copyAt)
  {
    hide Run, DeliveredAt, ReportsCopies, AsGoodAs, Authenticated;
    RunDelivers(w, s);
    var t, paths := Authenticated(w, s), w.config.value.files;
    forall n: nat | n < |paths| ensures CopiedIn(w, t.id, t.aesKey, paths, n, Run(w, s).events, copyAt) {
      assert DeliveredIn(w, t.id, t.aesKey, paths, n, Run(w, s).events);
      var i: nat :| DeliveredAt(w, t.id, t.aesKey, paths, n, Run(w, s).events, i);
      CopyAt(w, t.id, t.aesKey, paths, n, Run(w, s).events, i, copyAt);
    }
  }
}
