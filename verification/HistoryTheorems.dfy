/** What holds over any history of session calls, and of one query or event-log call. */
module HistoryTheorems {
  import opened Bytes
  import opened Packets
  import opened Transports
  import opened Replies
  import opened Handshake
  import opened Session
  import opened SessionTheorems
  import Cooldown
  import Log = EventLog

  lemma {:induction false} LoginFound(log: seq<Event>) returns (k: nat)
    requires LoggedInAfter(log)
    ensures k < |log| && log[k] == Login
    ensures forall j :: k < j < |log| ==> !log[j].LogoffFrame? && !log[j].Closing? && !log[j].Opening?
  {
    k := |log| - 1;
    if log[k] != Login {
      k := LoginFound(log[..|log| - 1]);
    }
  }

  /** Every query, event-log or logoff frame has a login before it, with no opening, closing or
      logoff in between. */
  lemma LoginBefore(log: seq<Event>, i: nat) returns (k: nat)
    requires Orderly(log) && i < |log| && NeedsLogin(log[i])
    ensures k < i && log[k] == Login
    ensures forall j :: k < j < i ==> !log[j].LogoffFrame? && !log[j].Closing? && !log[j].Opening?
  {
    hide LoggedInAfter;
    k := LoginFound(log[..i]);
    assert log[..i][k] == log[k];
    assert forall j :: k < j < i ==> log[..i][j] == log[j];
  }

  /** Between any two graceful logoffs there is a login: at most one logoff for each. */
  lemma OneLogoffPerLogin(log: seq<Event>, i: nat, j: nat)
    requires Orderly(log) && i < j < |log| && log[i].LogoffFrame? && log[j].LogoffFrame?
    ensures exists k :: i < k < j && log[k] == Login
  {
    hide Orderly;
    var k := LoginBefore(log, j);
  }

  /** No query or event-log frame after a logoff or a close until the next login. */
  lemma NoQueryAfterLogoff(log: seq<Event>, i: nat, j: nat)
    requires Orderly(log) && i < j < |log| && NeedsLogin(log[j])
    requires log[i].LogoffFrame? || log[i].Closing? || log[i].Opening?
    ensures exists k :: i < k < j && log[k] == Login
  {
    hide Orderly;
    var k := LoginBefore(log, j);
  }

  /** The yield path closes the session, breaks out of the poll loop and closes it again: only
      one logoff is attempted, and only if the session was logged in. */
  method YieldTeardown(session: Session)
    requires session.Valid()
    modifies session, session.transport
    ensures session.Valid() && session.state == Disconnected && session.transport.closed
    ensures session.transport.attempts == old(session.transport.attempts)
            + if old(session.state) == LoggedIn
              then [LogoffWire(session.cfg.localBt, session.appSerial, NextId(old(session.pcktid)))] else []
    ensures session.transport.receives == old(session.transport.receives)
  {
    hide LogoffWire;
    session.GracefulClose();
    session.GracefulClose();
  }

  /** A query in a logged-in session fails with a transport error, which is fatal, or with
      silence, which is not; it never takes more than sixteen receives. */
  lemma QueryFailures(localBt: Frames.BtAddr, appSerial: u32, susyId: u16, serial: u32, kind: QueryKind, cur: Cursor)
    ensures var q := QueryRun(localBt, appSerial, susyId, serial, kind, cur);
      && (q.0.Err? ==> q.0.error.TransportFailed? || q.0.error == Silent(Query))
      && (q.0.Err? ==> (IsSessionFatal(q.0.error) <==> q.0.error.TransportFailed?))
      && q.1.receives <= cur.receives + REPLY_BUDGET
  {
    hide QueryWire, Listen;
    var id := NextId(cur.pktId);
    ListenFailures(cur.link.stream, WithPktId(id), Query, REPLY_BUDGET);
  }

  predicate AnswerComes(st: Stream, accept: bytes -> Option<L2Reply>) {
    exists k :: 0 <= k < 16 && AllSkipped(st, accept, k) && Accepted(st, accept, k)
  }

  /** A query succeeds exactly when its frame is sent and a reply with its id comes within
      sixteen receives and before any failed one; it returns the body of the first such reply. */
  lemma QuerySucceedsIff(localBt: Frames.BtAddr, appSerial: u32, susyId: u16, serial: u32, kind: QueryKind, cur: Cursor)
    ensures var q, accept, st :=
        QueryRun(localBt, appSerial, susyId, serial, kind, cur), WithPktId(NextId(cur.pktId)), cur.link.stream;
      && (q.0.Ok? <==> FailureOf(cur.link.sends).None? && AnswerComes(st, accept))
      && (FailureOf(cur.link.sends).None? ==>
            forall k :: 0 <= k < 16 && AllSkipped(st, accept, k) && Accepted(st, accept, k) ==>
              q.0 == Ok(accept(ItemAt(st, k).frame).value.body))
  {
    hide QueryWire, Listen, AllSkipped, Accepted;
    ListenSucceedsIff(cur.link.stream, WithPktId(NextId(cur.pktId)), Query, REPLY_BUDGET);
  }

  /** A device that echoes the id of a query gets its body through, exactly when that id is
      below 32768. */
  lemma EchoAnswersQuery(localBt: Frames.BtAddr, appSerial: u32, susyId: u16, serial: u32, kind: QueryKind,
                         cur: Cursor, f: Frames.Frame, h: L2Header, body: bytes)
    requires FailureOf(cur.link.sends).None? && |Echo(f, h, NextId(cur.pktId), body)| <= 0xFFFF
    requires Head(cur.link.stream) == Arrived(Echo(f, h, NextId(cur.pktId), body))
    ensures QueryRun(localBt, appSerial, susyId, serial, kind, cur).0 == Ok(body) || NextId(cur.pktId) >= APP_PACKET_BIT
    ensures QueryRun(localBt, appSerial, susyId, serial, kind, cur).0.Ok? <==> NextId(cur.pktId) < APP_PACKET_BIT
  {
    hide QueryWire, MatchingReply, Echo;
    var id := NextId(cur.pktId);
    if id >= APP_PACKET_BIT {
      QueryWithHighIdFails(localBt, appSerial, susyId, serial, kind, cur);
    } else {
      EchoMatchesIff(f, h, id, body, id);
      assert WithPktId(id)(Echo(f, h, id, body)) == MatchingReply(Echo(f, h, id, body), id);
    }
  }

  /** Once ids reach 32768 no query succeeds, whatever arrives, until they wrap. */
  lemma QueryWithHighIdFails(localBt: Frames.BtAddr, appSerial: u32, susyId: u16, serial: u32, kind: QueryKind,
                             cur: Cursor)
    requires NextId(cur.pktId) >= APP_PACKET_BIT
    ensures QueryRun(localBt, appSerial, susyId, serial, kind, cur).0.Err?
  {
    hide QueryWire, Listen;
    HighIdIsSilent(cur.link.stream, NextId(cur.pktId), Query);
  }

  // ---------------------------------------------------------------- event log

  /** The replies at some places of the stream. */
  function RepliesAt(st: Stream, from: nat, want: PacketId, at: seq<nat>): (rs: seq<L2Reply>)
    requires Heard(st, from, WithPktId(want), REPLY_BUDGET, at)
    ensures |rs| == |at|
    decreases |at|
  {
    if at == [] then []
    else [WithPktId(want)(ItemAt(st, at[0]).frame).value] + RepliesAt(st, at[0] + 1, want, at[1..])
  }

  /** A fragment after which another is awaited. */
  predicate Continues(r: L2Reply) {
    r.errorCode == 0 && |r.body| > 12
  }

  predicate AllContinue(rs: seq<L2Reply>) {
    forall k :: 0 <= k < |rs| ==> Continues(rs[k])
  }

  /** Fragments up to and including the first of at most twelve bytes, or as many as are taken
      at most; all with code 0. */
  predicate Whole(rs: seq<L2Reply>, budget: nat) {
    && 0 < |rs| <= budget
    && (forall k :: 0 <= k < |rs| - 1 ==> Continues(rs[k]))
    && rs[|rs| - 1].errorCode == 0
    && (|rs[|rs| - 1].body| <= 12 || |rs| == budget)
  }

  /** Fragments up to and including the first with another code, none of them short. */
  predicate Refused(rs: seq<L2Reply>, budget: nat) {
    && 0 < |rs| <= budget
    && (forall k :: 0 <= k < |rs| - 1 ==> Continues(rs[k]))
    && rs[|rs| - 1].errorCode != 0
  }

  /** The matching replies of the stream from its start that make up a whole. */
  predicate HeardWhole(st: Stream, want: PacketId, at: seq<nat>) {
    Heard(st, 0, WithPktId(want), 16, at) && Whole(RepliesAt(st, 0, want, at), 32)
  }

  predicate HeardRefusal(st: Stream, want: PacketId, at: seq<nat>) {
    Heard(st, 0, WithPktId(want), 16, at) && Refused(RepliesAt(st, 0, want, at), 32)
  }

  /** What the matching replies in the stream make the fragment loop return, and where it
      stops receiving. */
  lemma {:induction false} FragmentsFollow(st: Stream, from: nat, want: PacketId, budget: nat, at: seq<nat>)
    requires Heard(st, from, WithPktId(want), REPLY_BUDGET, at)
    requires Whole(RepliesAt(st, from, want, at), budget) || Refused(RepliesAt(st, from, want, at), budget)
    ensures from <= Onward(from, at)
    ensures ListenFragments(Drop(st, from), want, budget)
            == Got(if Whole(RepliesAt(st, from, want, at), budget) then Ok(RepliesAt(st, from, want, at))
                   else Err(Protocol(EventLogRetcode)),
                   Drop(st, Onward(from, at)), Onward(from, at) - from)
    decreases |at|
  {
    hide Listen, WithPktId, ItemAt, Drop, SkippedBetween, Accepted, Whole, Refused;
    var rs := RepliesAt(st, from, want, at);
    WholeStep(rs, budget);
    WaitFinds(st, from, WithPktId(want), EventLog, REPLY_BUDGET, at[0]);
    assert rs[1..] == RepliesAt(st, at[0] + 1, want, at[1..]);
    assert rs == [rs[0]] + rs[1..];
    if |at| > 1 {
      FragmentsFollow(st, at[0] + 1, want, budget - 1, at[1..]);
    } else {
      assert rs == [rs[0]] && [rs[0]] + [] == rs;
      if rs[0].errorCode == 0 && |rs[0].body| > 12 {
        assert ListenFragments(Drop(st, at[0] + 1), want, budget - 1) == Got(Ok([]), Drop(st, at[0] + 1), 0);
      }
    }
  }

  lemma WholeStep(rs: seq<L2Reply>, budget: nat)
    requires Whole(rs, budget) || Refused(rs, budget)
    ensures 0 < |rs| <= budget
    ensures |rs| > 1 ==> Continues(rs[0])
    ensures |rs| > 1 ==> (Whole(rs, budget) <==> Whole(rs[1..], budget - 1))
    ensures |rs| > 1 ==> (Refused(rs, budget) <==> Refused(rs[1..], budget - 1))
    ensures |rs| == 1 ==> (Whole(rs, budget) <==> rs[0].errorCode == 0)
    ensures |rs| == 1 && rs[0].errorCode == 0 ==> |rs[0].body| <= 12 || budget == 1
  {
    hide Continues;
    var later := rs[1..];
    assert forall k :: 0 < k < |rs| ==> rs[k] == later[k - 1];
    if |rs| > 1 {
      assert Continues(rs[0]);
      assert forall k :: 0 <= k < |later| - 1 ==> Continues(later[k]) == Continues(rs[k + 1]);
      if Whole(later, budget - 1) || Refused(later, budget - 1) {
        forall k | 0 <= k < |rs| - 1 ensures Continues(rs[k]) {
          if k > 0 {
            assert rs[k] == later[k - 1];
          }
        }
      }
    }
  }

  /** Whatever the stream, the fragment loop takes matching replies at some places of it until
      it is done, refused, or a wait for the next one stops. */
  lemma {:induction false} FragmentsFound(st: Stream, from: nat, want: PacketId, budget: nat) returns (at: seq<nat>)
    requires budget > 0
    ensures Heard(st, from, WithPktId(want), REPLY_BUDGET, at)
    ensures var g, rs := ListenFragments(Drop(st, from), want, budget), RepliesAt(st, from, want, at);
      && g.receives <= budget * REPLY_BUDGET
      && (g.result.Ok? ==> Whole(rs, budget))
      && (g.result.Err? ==>
            if g.result.error == Protocol(EventLogRetcode) then Refused(rs, budget)
            else IsWaitError(g.result.error, EventLog) && |rs| < budget && AllContinue(rs)
                 && Stops(st, Onward(from, at), WithPktId(want), REPLY_BUDGET))
    decreases budget
  {
    hide Listen, WithPktId, ItemAt, Drop, SkippedBetween, Accepted, Stops, IsWaitError;
    var g := Listen(Drop(st, from), WithPktId(want), EventLog, REPLY_BUDGET);
    ListenFailures(Drop(st, from), WithPktId(want), EventLog, REPLY_BUDGET);
    WaitErrorIsNoRefusal();
    var k := WaitFindsOrStops(st, from, WithPktId(want), EventLog, REPLY_BUDGET);
    at := [];
    if g.result.Ok? {
      WaitFinds(st, from, WithPktId(want), EventLog, REPLY_BUDGET, k);
      at := [k];
      assert at[1..] == [];
      if Continues(g.result.value) && budget > 1 {
        var more := FragmentsFound(st, k + 1, want, budget - 1);
        at := [k] + more;
        assert at[1..] == more;
      }
    }
  }

  lemma WaitErrorIsNoRefusal()
    ensures !IsWaitError(Protocol(EventLogRetcode), EventLog)
  {
  }

  /** An event-log call succeeds exactly when its frame is sent and the matching replies in the
      stream, each the first within sixteen receives of the one before, make up a whole: all
      with code 0, each but the last longer than twelve bytes, and the last no longer than that
      unless it is the thirty-second. Its result joins the bodies of exactly these replies, and
      nothing after the last of them is received. */
  lemma EventLogAggregates(localBt: Frames.BtAddr, appSerial: u32, susyId: u16, serial: u32,
                           start: u32, end: u32, cur: Cursor)
    ensures var q, want, st :=
        EventLogRun(localBt, appSerial, susyId, serial, start, end, cur), NextId(cur.pktId), cur.link.stream;
      && (q.0.Ok? <==> FailureOf(cur.link.sends).None? && exists at :: HeardWhole(st, want, at))
      && (FailureOf(cur.link.sends).None? ==>
            forall at :: HeardWhole(st, want, at) ==>
              && q.0 == Ok(Bodies(RepliesAt(st, 0, want, at)))
              && q.1.receives == cur.receives + Onward(0, at)
              && q.1.link.stream == Drop(st, Onward(0, at)))
  {
    hide EventLogWire, ListenFragments, Bodies, Heard, RepliesAt, Whole, Refused, Stops, WithPktId, Drop;
    var want, st := NextId(cur.pktId), cur.link.stream;
    NothingDropped(st);
    var found := FragmentsFound(st, 0, want, FRAGMENT_BUDGET);
    forall at | HeardWhole(st, want, at)
      ensures ListenFragments(st, want, FRAGMENT_BUDGET)
              == Got(Ok(RepliesAt(st, 0, want, at)), Drop(st, Onward(0, at)), Onward(0, at))
    {
      FragmentsFollow(st, 0, want, FRAGMENT_BUDGET, at);
    }
  }

  lemma NothingDropped(st: Stream)
    ensures Drop(st, 0) == st
  {
  }

  /** It is refused exactly when one of these replies, with none before it short, has another
      code. Any other failure is a transport error or silence; only silence leaves the session
      usable. */
  lemma EventLogFailures(localBt: Frames.BtAddr, appSerial: u32, susyId: u16, serial: u32,
                         start: u32, end: u32, cur: Cursor)
    ensures var q, want, st :=
        EventLogRun(localBt, appSerial, susyId, serial, start, end, cur), NextId(cur.pktId), cur.link.stream;
      && (q.0 == Err(Protocol(EventLogRetcode)) <==>
            FailureOf(cur.link.sends).None? && exists at :: HeardRefusal(st, want, at))
      && (q.0.Err? ==> (!IsSessionFatal(q.0.error) <==> q.0.error == Silent(EventLog)))
      && q.1.receives <= cur.receives + FRAGMENT_BUDGET * REPLY_BUDGET
  {
    hide EventLogWire, ListenFragments, Bodies, Heard, RepliesAt, Stops, WithPktId, Drop;
    var want, st := NextId(cur.pktId), cur.link.stream;
    NothingDropped(st);
    var found := FragmentsFound(st, 0, want, FRAGMENT_BUDGET);
    var g := ListenFragments(st, want, FRAGMENT_BUDGET);
    assert g.result == Err(Protocol(EventLogRetcode)) ==> HeardRefusal(st, want, found);
    forall at | HeardRefusal(st, want, at)
      ensures ListenFragments(st, want, FRAGMENT_BUDGET).result == Err(Protocol(EventLogRetcode))
    {
      FragmentsFollow(st, 0, want, FRAGMENT_BUDGET, at);
    }
  }

  /** What a successful event-log call returns is read as the records of the replies it joined
      exactly when the joined payload leads with them, without the prefixes in between, and what
      follows holds no further record. */
  lemma EventLogReadIff(localBt: Frames.BtAddr, appSerial: u32, susyId: u16, serial: u32,
                        start: u32, end: u32, cur: Cursor, at: seq<nat>)
    requires FailureOf(cur.link.sends).None? && HeardWhole(cur.link.stream, NextId(cur.pktId), at)
    ensures var q := EventLogRun(localBt, appSerial, susyId, serial, start, end, cur);
      var replies := BodiesOf(RepliesAt(cur.link.stream, 0, NextId(cur.pktId), at));
      && q.0.Ok?
      && (Log.EventsOf(q.0.value) == Log.AllEvents(replies)
          <==> Log.LeadWith(Log.Payload(q.0.value), Log.Serialised(Log.AllEvents(replies))))
  {
    hide EventLogRun, Whole, Heard, RepliesAt, Log.EventsOf, Log.AllEvents, Log.LeadWith, Log.Payload, Log.Serialised,
      Flatten, BodiesOf;
    EventLogAggregates(localBt, appSerial, susyId, serial, start, end, cur);
    Log.JoinedBodiesIff(BodiesOf(RepliesAt(cur.link.stream, 0, NextId(cur.pktId), at)));
  }

  lemma FirstAnswers(st: Stream, want: PacketId, b: bytes, r: L2Reply)
    requires Head(st) == Arrived(b) && MatchingReply(b, want) == Some(r)
    ensures Listen(st, WithPktId(want), EventLog, REPLY_BUDGET).result == Ok(r)
  {
    hide MatchingReply;
  }

  /** A device that answers an event-log request with another code ends the session: the error
      is fatal, though only that request was refused. */
  lemma RefusalIsFatal(localBt: Frames.BtAddr, appSerial: u32, susyId: u16, serial: u32, start: u32, end: u32,
                       cur: Cursor, f: Frames.Frame, h: L2Header, body: bytes)
    requires FailureOf(cur.link.sends).None? && NextId(cur.pktId) < APP_PACKET_BIT && h.errorCode != 0
    requires |Echo(f, h, NextId(cur.pktId), body)| <= 0xFFFF
    requires Head(cur.link.stream) == Arrived(Echo(f, h, NextId(cur.pktId), body))
    ensures var q := EventLogRun(localBt, appSerial, susyId, serial, start, end, cur);
      q.0 == Err(Protocol(EventLogRetcode)) && IsSessionFatal(q.0.error)
  {
    hide EventLogWire, MatchingReply, Echo, Listen, WithPktId, Head;
    var id := NextId(cur.pktId);
    EchoMatchesIff(f, h, id, body, id);
    FirstAnswers(cur.link.stream, id, Echo(f, h, id, body), L2Reply(id, h.errorCode, h.appSusyId, h.appSerial, body));
  }

  // ---------------------------------------------------------------- what the poll loop sees

  /** What a poll makes of the result of a query: an error that is fatal to the session, or one
      of the device alone. */
  function AnswerOf(result: Result<bytes, SessionError>): Cooldown.Answer {
    match result
    case Ok(_) => Cooldown.Answered
    case Err(e) => if IsSessionFatal(e) then Cooldown.SessionFailed else Cooldown.DeviceFailed
  }

  /** A logged-in session fails a device exactly when no reply with the query's id came and the
      wait ran out or timed out, and fails as a whole exactly when the link did. */
  lemma AnswersMean(localBt: Frames.BtAddr, appSerial: u32, susyId: u16, serial: u32, kind: QueryKind, cur: Cursor)
    ensures var q, st, accept :=
        QueryRun(localBt, appSerial, susyId, serial, kind, cur), cur.link.stream, WithPktId(NextId(cur.pktId));
      && (AnswerOf(q.0) == Cooldown.Answered <==> FailureOf(cur.link.sends).None? && AnswerComes(st, accept))
      && (AnswerOf(q.0) == Cooldown.DeviceFailed <==> q.0 == Err(Silent(Query)))
      && (AnswerOf(q.0) == Cooldown.SessionFailed <==> q.0.Err? && q.0.error.TransportFailed?)
  {
    hide QueryRun, AnswerComes;
    QueryFailures(localBt, appSerial, susyId, serial, kind, cur);
    QuerySucceedsIff(localBt, appSerial, susyId, serial, kind, cur);
  }

  /** The device a poll asks, and over which session. */
  datatype Target = Target(localBt: Frames.BtAddr, appSerial: u32, susyId: u16, serial: u32)

  function Asked(t: Target, kind: QueryKind, cur: Cursor): (Result<bytes, SessionError>, Cursor) {
    QueryRun(t.localBt, t.appSerial, t.susyId, t.serial, kind, cur)
  }

  /** Where some queries to a device, one after the other, leave the link. */
  function AfterAsking(t: Target, kinds: seq<QueryKind>, cur: Cursor): Cursor {
    if kinds == [] then cur else AfterAsking(t, kinds[1..], Asked(t, kinds[0], cur).1)
  }

  /** And how they are answered. */
  function PollAnswers(t: Target, kinds: seq<QueryKind>, cur: Cursor): (r: seq<Cooldown.Answer>)
    ensures |r| == |kinds|
  {
    if kinds == [] then []
    else [AnswerOf(Asked(t, kinds[0], cur).0)] + PollAnswers(t, kinds[1..], Asked(t, kinds[0], cur).1)
  }

  /** A poll is good exactly when every query is answered. Else the first that is not decides: it
      counts against the device exactly when it was met with silence, and ends the session
      exactly when the link failed. */
  lemma {:induction false} PollVerdict(t: Target, kinds: seq<QueryKind>, cur: Cursor) returns (k: nat)
    ensures k <= |kinds| && forall j :: 0 <= j < k ==> PollAnswers(t, kinds, cur)[j] == Cooldown.Answered
    ensures var verdict := Cooldown.VerdictOf(PollAnswers(t, kinds, cur));
      && (k == |kinds| <==> verdict == Cooldown.Good)
      && (k < |kinds| ==>
            var q := Asked(t, kinds[k], AfterAsking(t, kinds[..k], cur)).0;
            && q.Err?
            && (verdict == Cooldown.Bad <==> q == Err(Silent(Query)))
            && (verdict == Cooldown.Fatal <==> q.error.TransportFailed?))
    decreases |kinds|
  {
    hide QueryRun;
    k := 0;
    if kinds != [] {
      var q := Asked(t, kinds[0], cur);
      AnswersMean(t.localBt, t.appSerial, t.susyId, t.serial, kinds[0], cur);
      var more := PollAnswers(t, kinds[1..], q.1);
      assert ([AnswerOf(q.0)] + more)[1..] == more;
      if q.0.Ok? {
        k := PollVerdict(t, kinds[1..], q.1);
        k := k + 1;
        assert kinds[..k][1..] == kinds[1..][..k - 1];
      } else {
        assert kinds[..0] == [];
      }
    }
  }
}
