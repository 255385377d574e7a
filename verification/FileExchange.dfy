/** The exchange for one file: what can be sent, why, and when it succeeds. */
module FileExchange {
  import opened Types
  import opened Protocol
  import opened Session
  import opened SessionFacts
  import opened WireFields

  // ---- the language of requests ----

  /** k refused rounds: a file and a request to retry, each. */
  function Rounds(file: Request, retry: Request, k: nat): seq<Request> {
    if k == 0 then [] else [file, retry] + Rounds(file, retry, k - 1)
  }

  function Status(id: ClientId, f: FileData, v: Verdict): Request {
    CrcStatus(id, v, f.fileName)
  }

  /** (828 901)^k 828 900 or 902, for the file and identifier of this exchange. */
  function FullExchange(id: ClientId, f: FileData, k: nat, v: Verdict): seq<Request> {
    Rounds(FileRequest(id, f), Status(id, f, CrcInvalidRetry), k) + [FileRequest(id, f), Status(id, f, v)]
  }

  /** The requests are a prefix of a full exchange, and all of a confirmed one when the file went through. */
  ghost predicate InExchange(rs: seq<Request>, id: ClientId, f: FileData, left: nat, ok: bool) {
    exists k: nat, v: Verdict ::
      && k < left && v != CrcInvalidRetry && (v == CrcInvalidAbort ==> k == left - 1)
      && rs <= FullExchange(id, f, k, v)
      && (ok ==> v == CrcValid && rs == FullExchange(id, f, k, v))
  }

  // ---- why a verdict is sent ----

  predicate Reports(r: ServerResponse, f: FileData) {
    && r.header.code == FILE_RECEIVED_WITH_CRC && |r.payload| == CRC_PAYLOAD_SIZE
    && FileCrcOf(r.payload).contentSize == |f.encryptedContent|
  }

  predicate Matches(r: ServerResponse, f: FileData) {
    Reports(r, f) && FileCrcOf(r.payload).cksum == f.crc
  }

  predicate Mismatches(r: ServerResponse, f: FileData) {
    Reports(r, f) && FileCrcOf(r.payload).cksum != f.crc
  }

  /** A verdict follows at once on a report, and is 900 exactly when that report matches. */
  predicate JustifiedAt(events: seq<Event>, i: nat, f: FileData)
    requires i < |events|
  {
    (events[i].Sent? || events[i].SendFailed?) && events[i].request.CrcStatus? ==>
      && i > 0 && events[i - 1].Accepted?
      && (if events[i].request.verdict == CrcValid then Matches(events[i - 1].response, f)
          else Mismatches(events[i - 1].response, f))
  }

  ghost predicate Justified(events: seq<Event>, f: FileData) {
    forall i :: 0 <= i < |events| ==> JustifiedAt(events, i, f)
  }

  function CountMismatches(events: seq<Event>, f: FileData): nat {
    if events == [] then 0
    else
      var e := events[|events| - 1];
      CountMismatches(events[..|events| - 1], f) + if e.Accepted? && Mismatches(e.response, f) then 1 else 0
  }

  function CountReads(events: seq<Event>): nat {
    if events == [] then 0
    else
      var e := events[|events| - 1];
      CountReads(events[..|events| - 1]) + if e.Accepted? || e.Refused? then 1 else 0
  }

  predicate Confirmed(events: seq<Event>, id: ClientId) {
    && events != [] && events[|events| - 1].Accepted?
    && events[|events| - 1].response.header.code == MESSAGE_CONFIRMED
    && Take(events[|events| - 1].response.payload, UUID_SIZE) == id
  }

  lemma {:induction false} CountReadsAppend(a: seq<Event>, b: seq<Event>)
    ensures CountReads(a + b) == CountReads(a) + CountReads(b)
    decreases |b|
  {
    if b == [] {
      assert a + b == a;
    } else {
      CountReadsAppend(a, b[..|b| - 1]);
      assert (a + b)[..|a + b| - 1] == a + b[..|b| - 1];
    }
  }

  lemma {:induction false} CountMismatchesAppend(a: seq<Event>, b: seq<Event>, f: FileData)
    ensures CountMismatches(a + b, f) == CountMismatches(a, f) + CountMismatches(b, f)
    decreases |b|
  {
    hide Mismatches;
    if b == [] {
      assert a + b == a;
    } else {
      CountMismatchesAppend(a, b[..|b| - 1], f);
      assert (a + b)[..|a + b| - 1] == a + b[..|b| - 1];
    }
  }

  lemma JustifiedAppend(a: seq<Event>, b: seq<Event>, f: FileData)
    requires Justified(a, f) && Justified(b, f)
    ensures Justified(a + b, f)
  {
    hide Matches, Mismatches;
    forall i | 0 <= i < |a + b| ensures JustifiedAt(a + b, i, f) {
      if i < |a| {
        assert JustifiedAt(a, i, f);
      } else {
        assert JustifiedAt(b, i - |a|, f);
      }
    }
  }

  // ---- the shape of what one attempt does ----

  /** Everything this module says of an exchange that has so many attempts left. */
  ghost predicate Sound(s: State, f: FileData, left: nat, step: Step<bool>) {
    && step.next == s.(channel := step.next.channel)
    && InExchange(Requests(step.events), s.id, f, left, step.value)
    && Justified(step.events, f)
    && (step.value <==> Sent(Status(s.id, f, CrcValid)) in step.events && Confirmed(step.events, s.id))
    && (Sent(Status(s.id, f, CrcInvalidAbort)) in step.events ==> CountMismatches(step.events, f) == left)
    && step.next.channel.attempts <= s.channel.attempts + 2 * left
    && CountReads(step.events) <= left + 1
  }

  lemma OneEvent(e: Event)
    ensures Requests([e]) == if e.Sent? then [e.request] else []
    ensures CountReads([e]) == if e.Accepted? || e.Refused? then 1 else 0
  {
    assert Requests([e][..0]) == [] && CountReads([e][..0]) == 0;
  }

  lemma ConfirmShape(s: State, f: FileData, v: Verdict)
    ensures
      var step := Confirm(s, f, v);
      && step.next == s.(channel := step.next.channel)
      && step.next.channel.attempts == s.channel.attempts + 1
      && step.events != [] && CountReads(step.events) <= 1
      && step.events[0] ==
         (if Requests(step.events) == [] then SendFailed(Status(s.id, f, v)) else Sent(Status(s.id, f, v)))
      && (Requests(step.events) == [] || Requests(step.events) == [Status(s.id, f, v)])
      && (forall i :: 1 <= i < |step.events| ==> step.events[i].Accepted? || step.events[i].Refused?)
      && (forall i :: 1 <= i < |step.events| && step.events[i].Accepted? ==>
          step.events[i].response.header.code == MESSAGE_CONFIRMED)
      && (step.value <==> v == CrcValid && |step.events| == 2 && Confirmed(step.events, s.id))
      && (step.value ==> Requests(step.events) == [Status(s.id, f, v)])
  {
    hide Send, Receive, Requests, CountReads;
    var r := Status(s.id, f, v);
    SendFacts(s, r);
    var sent := Send(s, r);
    OneEvent(sent.events[0]);
    if sent.value {
      ReceiveFacts(sent.next, [MESSAGE_CONFIRMED]);
      var received := Receive(sent.next, [MESSAGE_CONFIRMED]);
      OneEvent(received.events[0]);
      RequestsAppend(sent.events, received.events);
      CountReadsAppend(sent.events, received.events);
    }
  }

  lemma FileRound(file: Request, c: ServerResponse, tail: seq<Event>, f: FileData)
    ensures
      var events := [Sent(file), Accepted(c)] + tail;
      && Requests(events) == [file] + Requests(tail)
      && CountReads(events) == 1 + CountReads(tail)
      && CountMismatches(events, f) == CountMismatches(tail, f) + if Mismatches(c, f) then 1 else 0
  {
    hide Mismatches;
    var so := [Sent(file), Accepted(c)];
    OneEvent(Sent(file));
    OneEvent(Accepted(c));
    assert so == [Sent(file)] + [Accepted(c)];
    RequestsAppend([Sent(file)], [Accepted(c)]);
    CountReadsAppend([Sent(file)], [Accepted(c)]);
    assert CountMismatches([Sent(file)][..0], f) == 0;
    assert so[..1] == [Sent(file)];
    RequestsAppend(so, tail);
    CountReadsAppend(so, tail);
    CountMismatchesAppend(so, tail, f);
  }

  lemma PrefixHolds(s: State, f: FileData, left: nat, k: nat, v: Verdict, rs: seq<Request>, ok: bool)
    requires k < left && v != CrcInvalidRetry && (v == CrcInvalidAbort ==> k == left - 1)
    requires rs <= FullExchange(s.id, f, k, v)
    requires ok ==> v == CrcValid && rs == FullExchange(s.id, f, k, v)
    ensures InExchange(rs, s.id, f, left, ok)
  {
  }

  /** The attempt ends before any verdict: the send or the read failed, or the report had the wrong size. */
  lemma SoundEarly(s: State, f: FileData, left: nat, step: Step<bool>)
    requires 1 <= left && !step.value && step.next == s.(channel := step.next.channel)
    requires step.next.channel.attempts == s.channel.attempts + 1
    requires
      var file := FileRequest(s.id, f);
      || step.events == [SendFailed(file)]
      || step.events == [Sent(file), Refused]
      || (|step.events| == 2 && step.events[0] == Sent(file) && step.events[1].Accepted?
          && step.events[1].response.header.code == FILE_RECEIVED_WITH_CRC)
    ensures Sound(s, f, left, step)
  {
    hide Mismatches, Matches, Requests, CountReads;
    var file := FileRequest(s.id, f);
    OneEvent(step.events[0]);
    if |step.events| == 2 {
      OneEvent(step.events[1]);
      assert step.events == [step.events[0]] + [step.events[1]];
      RequestsAppend([step.events[0]], [step.events[1]]);
      CountReadsAppend([step.events[0]], [step.events[1]]);
    }
    PrefixHolds(s, f, left, 0, if left == 1 then CrcInvalidAbort else CrcValid, Requests(step.events), false);
  }

  /** The attempt ends with a verdict that is answered or not. */
  lemma SoundVerdict(s: State, f: FileData, left: nat, c: ServerResponse, s1: State, v: Verdict, step: Step<bool>)
    requires 1 <= left && s1 == s.(channel := s1.channel) && s1.channel.attempts == s.channel.attempts + 1
    requires (v == CrcValid && Matches(c, f)) || (v == CrcInvalidAbort && Mismatches(c, f) && left == 1)
    requires step == Then([Sent(FileRequest(s.id, f)), Accepted(c)], Confirm(s1, f, v))
    ensures Sound(s, f, left, step)
  {
    hide Mismatches, Matches, Confirm, InExchange, Justified;
    var last := Confirm(s1, f, v);
    var file := FileRequest(s.id, f);
    ConfirmShape(s1, f, v);
    FileRound(file, c, last.events, f);
    assert step.events[2..] == last.events;
    VerdictInExchange(s, f, left, v, Requests(last.events), step.value);
    VerdictJustified(s, f, c, v, last.events);
    NoMismatchInConfirm(last.events, f);
    assert step.value ==> step.events[2] == Sent(Status(s.id, f, CrcValid));
    VerdictMembership(s, f, step.events, v);
  }

  lemma VerdictInExchange(s: State, f: FileData, left: nat, v: Verdict, rs: seq<Request>, ok: bool)
    requires 1 <= left && v != CrcInvalidRetry && (v == CrcInvalidAbort ==> left == 1 && !ok)
    requires rs == [Status(s.id, f, v)] || (rs == [] && !ok)
    ensures InExchange([FileRequest(s.id, f)] + rs, s.id, f, left, ok)
  {
    assert Rounds(FileRequest(s.id, f), Status(s.id, f, CrcInvalidRetry), 0) == [];
    PrefixHolds(s, f, left, 0, v, [FileRequest(s.id, f)] + rs, ok);
  }

  lemma VerdictJustified(s: State, f: FileData, c: ServerResponse, v: Verdict, e: seq<Event>)
    requires if v == CrcValid then Matches(c, f) else Mismatches(c, f)
    requires e != [] && (e[0] == Sent(Status(s.id, f, v)) || e[0] == SendFailed(Status(s.id, f, v)))
    requires forall i :: 1 <= i < |e| ==> e[i].Accepted? || e[i].Refused?
    ensures Justified([Sent(FileRequest(s.id, f)), Accepted(c)] + e, f)
  {
    hide Mismatches, Matches;
    var all := [Sent(FileRequest(s.id, f)), Accepted(c)] + e;
    forall i | 0 <= i < |all| ensures JustifiedAt(all, i, f) {
      assert i > 2 ==> all[i] == e[i - 2];
    }
  }

  lemma NoMismatchInConfirm(e: seq<Event>, f: FileData)
    requires forall i :: 0 <= i < |e| && e[i].Accepted? ==> e[i].response.header.code == MESSAGE_CONFIRMED
    ensures CountMismatches(e, f) == 0
  {
    if e != [] {
      NoMismatchInConfirm(e[..|e| - 1], f);
    }
  }

  lemma VerdictMembership(s: State, f: FileData, e: seq<Event>, v: Verdict)
    requires |e| >= 3 && e[0] == Sent(FileRequest(s.id, f)) && e[1].Accepted?
    requires e[2] == Sent(Status(s.id, f, v)) || e[2] == SendFailed(Status(s.id, f, v))
    requires forall i :: 3 <= i < |e| ==> e[i].Accepted? || e[i].Refused?
    ensures forall u: Verdict :: Sent(Status(s.id, f, u)) in e <==> u == v && e[2].Sent?
  {
  }

  lemma SoundRetryFailed(s: State, f: FileData, left: nat, c: ServerResponse, step: Step<bool>)
    requires 2 <= left && !step.value && step.next == s.(channel := step.next.channel)
    requires step.next.channel.attempts == s.channel.attempts + 2
    requires Mismatches(c, f)
    requires step.events ==
      [Sent(FileRequest(s.id, f)), Accepted(c)] + [SendFailed(Status(s.id, f, CrcInvalidRetry))]
    ensures Sound(s, f, left, step)
  {
    hide Mismatches, Matches;
    var tail := [SendFailed(Status(s.id, f, CrcInvalidRetry))];
    OneEvent(tail[0]);
    FileRound(FileRequest(s.id, f), c, tail, f);
    PrefixHolds(s, f, left, 0, CrcValid, Requests(step.events), false);
  }

  lemma RoundsMore(file: Request, retry: Request, k: nat, end: seq<Request>)
    ensures Rounds(file, retry, k + 1) + end == [file, retry] + (Rounds(file, retry, k) + end)
  {
  }

  lemma LongerExchange(s: State, s1: State, f: FileData, left: nat, rs: seq<Request>, ok: bool)
    requires s1.id == s.id && 2 <= left && InExchange(rs, s1.id, f, left - 1, ok)
    ensures InExchange([FileRequest(s.id, f), Status(s.id, f, CrcInvalidRetry)] + rs, s.id, f, left, ok)
  {
    var file, retry := FileRequest(s.id, f), Status(s.id, f, CrcInvalidRetry);
    var k: nat, v: Verdict :|
      && k < left - 1 && v != CrcInvalidRetry && (v == CrcInvalidAbort ==> k == left - 2)
      && rs <= FullExchange(s1.id, f, k, v)
      && (ok ==> v == CrcValid && rs == FullExchange(s1.id, f, k, v));
    RoundsMore(file, retry, k, [file, Status(s.id, f, v)]);
    assert FullExchange(s.id, f, k + 1, v) == [file, retry] + FullExchange(s1.id, f, k, v);
    PrefixHolds(s, f, left, k + 1, v, [file, retry] + rs, ok);
  }

  lemma SoundRetry(s: State, f: FileData, left: nat, c: ServerResponse, s1: State, rest: Step<bool>, step: Step<bool>)
    requires 2 <= left && s1 == s.(channel := s1.channel) && s1.channel.attempts == s.channel.attempts + 2
    requires c.header.code == FILE_RECEIVED_WITH_CRC && Mismatches(c, f) && Sound(s1, f, left - 1, rest)
    requires step == Then([Sent(FileRequest(s.id, f)), Accepted(c)] + [Sent(Status(s.id, f, CrcInvalidRetry))], rest)
    ensures Sound(s, f, left, step)
  {
    hide Mismatches, Matches, InExchange, Justified;
    var file, retry := FileRequest(s.id, f), Status(s.id, f, CrcInvalidRetry);
    var start := [Sent(file), Accepted(c), Sent(retry)];
    assert step.events == start + rest.events;
    RetryRound(file, retry, c, rest.events, f);
    LongerExchange(s, s1, f, left, Requests(rest.events), rest.value);
    RetryJustified(s, f, c);
    JustifiedAppend(start, rest.events, f);
    SameVerdicts(s, f, c, rest.events);
  }

  lemma RetryRound(file: Request, retry: Request, c: ServerResponse, tail: seq<Event>, f: FileData)
    ensures
      var events := [Sent(file), Accepted(c), Sent(retry)] + tail;
      && Requests(events) == [file, retry] + Requests(tail)
      && CountReads(events) == 1 + CountReads(tail)
      && CountMismatches(events, f) == CountMismatches(tail, f) + if Mismatches(c, f) then 1 else 0
  {
    hide Mismatches;
    var more := [Sent(retry)] + tail;
    assert [Sent(file), Accepted(c), Sent(retry)] + tail == [Sent(file), Accepted(c)] + more;
    OneEvent(Sent(retry));
    FileRound(file, c, more, f);
    RequestsAppend([Sent(retry)], tail);
    CountReadsAppend([Sent(retry)], tail);
    CountMismatchesAppend([Sent(retry)], tail, f);
    assert CountMismatches([Sent(retry)][..0], f) == 0;
  }

  lemma RetryJustified(s: State, f: FileData, c: ServerResponse)
    requires Mismatches(c, f)
    ensures Justified([Sent(FileRequest(s.id, f)), Accepted(c), Sent(Status(s.id, f, CrcInvalidRetry))], f)
  {
    hide Mismatches, Matches;
  }

  lemma SameVerdicts(s: State, f: FileData, c: ServerResponse, tail: seq<Event>)
    requires c.header.code == FILE_RECEIVED_WITH_CRC
    ensures
      var e := [Sent(FileRequest(s.id, f)), Accepted(c), Sent(Status(s.id, f, CrcInvalidRetry))] + tail;
      && (Sent(Status(s.id, f, CrcValid)) in e <==> Sent(Status(s.id, f, CrcValid)) in tail)
      && (Sent(Status(s.id, f, CrcInvalidAbort)) in e <==> Sent(Status(s.id, f, CrcInvalidAbort)) in tail)
      && (tail != [] ==> (Confirmed(e, s.id) <==> Confirmed(tail, s.id)))
  {
    var e := [Sent(FileRequest(s.id, f)), Accepted(c), Sent(Status(s.id, f, CrcInvalidRetry))] + tail;
    assert tail != [] ==> e[|e| - 1] == tail[|tail| - 1];
  }

  /** A report is the answer to one 828; without one, the attempt has ended. */
  lemma ReportShape(s: State, f: FileData)
    ensures
      var step := Report(s, f);
      var file := FileRequest(s.id, f);
      && step.next == s.(channel := step.next.channel)
      && step.next.channel.attempts == s.channel.attempts + 1
      && (step.value.None? ==>
          || step.events == [SendFailed(file)]
          || step.events == [Sent(file), Refused]
          || (|step.events| == 2 && step.events[0] == Sent(file) && step.events[1].Accepted?
              && step.events[1].response.header.code == FILE_RECEIVED_WITH_CRC))
      && (step.value.Some? ==>
          && |step.events| == 2 && step.events[1].Accepted?
          && step.events == [Sent(file), step.events[1]]
          && Reports(step.events[1].response, f) && step.value.value == FileCrcOf(step.events[1].response.payload))
  {
    hide Send, Receive, FileRequest, FileCrcOf;
    SendFacts(s, FileRequest(s.id, f));
    ReceiveFacts(Send(s, FileRequest(s.id, f)).next, [FILE_RECEIVED_WITH_CRC]);
  }

  /** Every exchange, with any server, is sound. */
  lemma {:induction false} AttemptsSound(s: State, f: FileData, left: nat)
    requires 1 <= left <= MAX_CRC_ATTEMPTS
    ensures Sound(s, f, left, Attempts(s, f, left))
    decreases left
  {
    hide Send, Report, Sound, FileRequest, Confirm, FileCrcOf;
    var retry := Status(s.id, f, CrcInvalidRetry);
    var report := Report(s, f);
    ReportShape(s, f);
    var step := Attempts(s, f, left);
    if report.value.None? {
      SoundEarly(s, f, left, step);
    } else {
      var c, s1 := report.events[1].response, report.next;
      if report.value.value.cksum == f.crc {
        SoundVerdict(s, f, left, c, s1, CrcValid, step);
      } else if left == 1 {
        SoundVerdict(s, f, left, c, s1, CrcInvalidAbort, step);
      } else {
        SendFacts(s1, retry);
        var again := Send(s1, retry);
        if again.value {
          AttemptsSound(again.next, f, left - 1);
          SoundRetry(s, f, left, c, again.next, Attempts(again.next, f, left - 1), step);
        } else {
          SoundRetryFailed(s, f, left, c, step);
        }
      }
    }
  }

  /**
   * Every exchange, with any server, has at most four attempts: 902 means four mismatches, a retry is sent
   * at most three times, and no more than 8 sends and 5 reads are made.
   */
  lemma TransferSound(s: State, f: FileData)
    ensures
      var step := TransferAndVerify(s, f);
      && InExchange(Requests(step.events), s.id, f, 4, step.value)
      && Justified(step.events, f)
      && (step.value <==> Sent(Status(s.id, f, CrcValid)) in step.events && Confirmed(step.events, s.id))
      && (Sent(Status(s.id, f, CrcInvalidAbort)) in step.events ==> CountMismatches(step.events, f) == 4)
      && step.next.channel.attempts <= s.channel.attempts + 8
      && CountReads(step.events) <= 5
  {
    hide Attempts, InExchange, Justified, CountMismatches, CountReads, Requests;
    AttemptsSound(s, f, 4);
  }

  // ---- what a report answers ----

  /** A report that was accepted answers the file that was sent just before it. */
  ghost predicate ReportsFollow(events: seq<Event>, id: ClientId, f: FileData) {
    forall i :: 0 <= i < |events| && events[i].Accepted? && events[i].response.header.code == FILE_RECEIVED_WITH_CRC ==>
      i > 0 && events[i - 1] == Sent(FileRequest(id, f))
  }

  lemma ReportsFollowAppend(a: seq<Event>, b: seq<Event>, id: ClientId, f: FileData)
    requires ReportsFollow(a, id, f) && ReportsFollow(b, id, f)
    ensures ReportsFollow(a + b, id, f)
  {
    hide FileRequest;
    var e := a + b;
    forall i | 0 <= i < |e| && e[i].Accepted? && e[i].response.header.code == FILE_RECEIVED_WITH_CRC
      ensures i > 0 && e[i - 1] == Sent(FileRequest(id, f))
    {
      if i < |a| {
        assert e[i] == a[i] && (i > 0 ==> e[i - 1] == a[i - 1]);
      } else {
        assert e[i] == b[i - |a|] && (i > |a| ==> e[i - 1] == b[i - |a| - 1]);
      }
    }
  }

  lemma ReportFollows(s: State, f: FileData)
    ensures ReportsFollow(Report(s, f).events, s.id, f)
  {
    hide Report, FileRequest, FileCrcOf;
    ReportShape(s, f);
  }

  lemma NoReportInConfirm(s: State, f: FileData, v: Verdict, id: ClientId)
    ensures ReportsFollow(Confirm(s, f, v).events, id, f)
  {
    hide Confirm, FileRequest, Requests, CountReads;
    ConfirmShape(s, f, v);
  }

  lemma {:induction false} AttemptsReportsFollow(s: State, f: FileData, left: nat)
    requires 1 <= left <= MAX_CRC_ATTEMPTS
    ensures ReportsFollow(Attempts(s, f, left).events, s.id, f)
    decreases left
  {
    hide Send, Report, Confirm, FileRequest, ReportsFollow;
    var report := Report(s, f);
    var s1 := report.next;
    ReportShape(s, f);
    ReportFollows(s, f);
    NoReportInConfirm(s1, f, CrcValid, s.id);
    NoReportInConfirm(s1, f, CrcInvalidAbort, s.id);
    ReportsFollowAppend(report.events, Confirm(s1, f, CrcValid).events, s.id, f);
    ReportsFollowAppend(report.events, Confirm(s1, f, CrcInvalidAbort).events, s.id, f);
    var retry := Send(s1, Status(s.id, f, CrcInvalidRetry));
    SendFacts(s1, Status(s.id, f, CrcInvalidRetry));
    NoReport(retry.events, s.id, f);
    ReportsFollowAppend(report.events, retry.events, s.id, f);
    if left > 1 {
      AttemptsReportsFollow(retry.next, f, left - 1);
      ReportsFollowAppend(report.events + retry.events, Attempts(retry.next, f, left - 1).events, s.id, f);
    }
  }

  lemma NoReport(events: seq<Event>, id: ClientId, f: FileData)
    requires forall e :: e in events ==> !e.Accepted?
    ensures ReportsFollow(events, id, f)
  {
  }
}
