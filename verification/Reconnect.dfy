/** The reconnect loop of the supervisor: backoff, sleep detection and the grace after a yield. */
module Reconnect {
  import opened Bytes

  // All times are in seconds.
  const MIN_BACKOFF: nat := 2
  const MAX_TRANSIENT_BACKOFF: nat := 60
  const SLEEP_BACKOFF: nat := 600
  const POST_YIELD_GRACE: nat := 180
  const POST_YIELD_RETRY: nat := 15
  const SLEEP_STREAK: nat := 3
  const HANDSHAKE_PAUSE: nat := 5

  /** What the supervisor has been through, oldest first. */
  datatype Event =
    | ConnectFailed(hostDown: bool, at: nat, wait: nat, offline: bool)
    | Connected
    | HandshakeFailed
    | HandshakeDone
    | Yielded(at: nat)

  function Last(log: seq<Event>): Event
    requires log != []
  {
    log[|log| - 1]
  }

  function Init(log: seq<Event>): seq<Event>
    requires log != []
  {
    log[..|log| - 1]
  }

  /** When the grace after the last yield ends, if there was one since the last connect. */
  function GraceEnd(log: seq<Event>): Option<nat> {
    if log == [] then None
    else
      match Last(log)
      case Yielded(at) => Some(at + POST_YIELD_GRACE)
      case Connected => None
      case _ => GraceEnd(Init(log))
  }

  predicate InGrace(log: seq<Event>, now: nat) {
    GraceEnd(log).Some? && now < GraceEnd(log).value
  }

  /** Whether an event is a host-down failure outside the grace. */
  predicate IsDown(before: seq<Event>, e: Event) {
    e.ConnectFailed? && e.hostDown && !InGrace(before, e.at)
  }

  /** Host-down failures outside the grace since the last connect. */
  function Downs(log: seq<Event>): nat {
    if log == [] || Last(log).Connected? then 0
    else Downs(Init(log)) + (if IsDown(Init(log), Last(log)) then 1 else 0)
  }

  /** Times the devices were published offline since the last successful handshake. */
  function Offlines(log: seq<Event>): nat {
    if log == [] || Last(log).HandshakeDone? then 0
    else Offlines(Init(log)) + (if Last(log).ConnectFailed? && Last(log).offline then 1 else 0)
  }

  function Doubled(b: nat): nat {
    if b * 2 < MAX_TRANSIENT_BACKOFF then b * 2 else MAX_TRANSIENT_BACKOFF
  }

  /** The backoff the history calls for: reset by a connect, doubled by a failed handshake and
      by every failed connect that is neither in grace nor put down to sleep. */
  function Backoff(log: seq<Event>): nat {
    if log == [] then MIN_BACKOFF
    else
      match Last(log)
      case Connected => MIN_BACKOFF
      case HandshakeFailed => Doubled(Backoff(Init(log)))
      case ConnectFailed(_, at, _, _) =>
        if !InGrace(Init(log), at) && Downs(log) < SLEEP_STREAK then Doubled(Backoff(Init(log)))
        else Backoff(Init(log))
      case _ => Backoff(Init(log))
  }

  /** The earliest the next event can be: each failure is slept off before the next attempt. */
  function TimeOf(log: seq<Event>): nat {
    if log == [] then 0
    else match Last(log)
         case ConnectFailed(_, at, wait, _) => at + wait
         case HandshakeFailed => TimeOf(Init(log)) + HANDSHAKE_PAUSE
         case Yielded(at) => at
         case _ => TimeOf(Init(log))
  }

  /** What each event has to do with the history before it. */
  predicate LawfulEvent(before: seq<Event>, e: Event) {
    match e
    case ConnectFailed(hostDown, at, wait, offline) =>
      var downs := Downs(before + [e]);
      && TimeOf(before) <= at
      && (before == [] || !Last(before).Connected?)
      && (offline <==> IsDown(before, e) && downs == SLEEP_STREAK && Offlines(before) == 0)
      && wait == (if InGrace(before, at) && hostDown then POST_YIELD_RETRY
                  else if downs >= SLEEP_STREAK then SLEEP_BACKOFF
                  else Backoff(before))
    case Connected => before == [] || !Last(before).Connected?
    case HandshakeFailed => before != [] && Last(before).Connected?
    case HandshakeDone => before != [] && Last(before).Connected?
    case Yielded(at) => before != [] && Last(before).HandshakeDone? && TimeOf(before) <= at
  }

  predicate Lawful(log: seq<Event>) {
    log == [] || (Lawful(Init(log)) && LawfulEvent(Init(log), Last(log)))
  }

  lemma Grown(log: seq<Event>, e: Event)
    ensures Init(log + [e]) == log && Last(log + [e]) == e
  {
  }

  lemma LawfulGrows(log: seq<Event>, e: Event)
    ensures Lawful(log + [e]) <==> Lawful(log) && LawfulEvent(log, e)
  {
    Grown(log, e);
  }

  // ---------------------------------------------------------------- lemmas over histories

  lemma {:induction false} BackoffStaysInRange(log: seq<Event>)
    ensures MIN_BACKOFF <= Backoff(log) <= MAX_TRANSIENT_BACKOFF
  {
    if log != [] {
      BackoffStaysInRange(Init(log));
    }
  }

  /** While the grace is live no host-down failure counts, so sleep is not in sight. */
  lemma {:induction false} NoDownsInGrace(log: seq<Event>, now: nat)
    requires Lawful(log) && TimeOf(log) <= now && InGrace(log, now)
    ensures Downs(log) == 0
  {
    match Last(log)
    case Yielded(_) =>
      NoDownsOnceConnected(Init(log));
    case ConnectFailed(_, at, _, _) =>
      NoDownsInGrace(Init(log), at);
    case _ =>
  }

  lemma NoDownsOnceConnected(log: seq<Event>)
    requires Lawful(log) && log != [] && Last(log).HandshakeDone?
    ensures Downs(log) == 0
  {
    assert Last(Init(log)).Connected?;
  }

  lemma {:induction false} LawfulPrefix(log: seq<Event>, k: nat)
    requires Lawful(log) && k < |log|
    ensures Lawful(log[..k]) && LawfulEvent(log[..k], log[k]) && Lawful(log[..k + 1])
  {
    hide LawfulEvent;
    if k == |log| - 1 {
      assert log[..k + 1] == log;
    } else {
      LawfulPrefix(Init(log), k);
      assert Init(log)[..k] == log[..k] && Init(log)[..k + 1] == log[..k + 1];
    }
  }

  /** Where a failure count comes from: that many host-down failures outside the grace, with no
      connect since the first of them. */
  lemma {:induction false} DownsHappened(log: seq<Event>, n: nat) returns (where: seq<nat>)
    requires n <= Downs(log)
    ensures |where| == n
    ensures forall i :: 0 <= i < n ==> where[i] < |log| && IsDown(log[..where[i]], log[where[i]])
    ensures forall i, j :: 0 <= i < j < n ==> where[i] < where[j]
    ensures n > 0 ==> forall k :: where[0] <= k < |log| ==> !log[k].Connected?
  {
    hide IsDown;
    where := [];
    if n > 0 {
      var counts := IsDown(Init(log), Last(log));
      where := DownsHappened(Init(log), if counts then n - 1 else n);
      assert forall i :: 0 <= i < |where| ==> Init(log)[..where[i]] == log[..where[i]];
      if counts {
        where := where + [|log| - 1];
      }
    }
  }

  /** A ten-minute wait is never chosen in the grace, and never before three host-down failures
      outside it since the last connect. */
  lemma SleepNeedsThreeDowns(log: seq<Event>, k: nat) returns (where: seq<nat>)
    requires Lawful(log) && k < |log| && log[k].ConnectFailed? && log[k].wait == SLEEP_BACKOFF
    ensures !InGrace(log[..k], log[k].at)
    ensures |where| == 3 && where[0] < where[1] < where[2] <= k
    ensures forall i :: 0 <= i < 3 ==> IsDown(log[..where[i]], log[where[i]])
    ensures forall j :: where[0] <= j <= k ==> !log[j].Connected?
  {
    hide IsDown, Downs, InGrace;
    LawfulPrefix(log, k);
    var now := log[..k + 1];
    assert now == log[..k] + [log[k]];
    BackoffStaysInRange(log[..k]);
    DownsGrow(log[..k], log[k]);
    if InGrace(log[..k], log[k].at) {
      NoDownsInGrace(log[..k], log[k].at);
    }
    where := DownsHappened(now, 3);
    assert forall i :: 0 <= i < 3 ==> now[..where[i]] == log[..where[i]] && now[where[i]] == log[where[i]];
    assert forall j :: 0 <= j <= k ==> now[j] == log[j];
  }

  lemma DownsGrow(log: seq<Event>, e: Event)
    requires e.ConnectFailed?
    ensures Downs(log + [e]) == Downs(log) + (if IsDown(log, e) then 1 else 0)
    ensures InGrace(log, e.at) ==> !IsDown(log, e)
  {
    Grown(log, e);
  }

  /** Once asleep, every failed connect waits the full ten minutes, until one succeeds. */
  lemma SleepLasts(log: seq<Event>, e: Event)
    requires Lawful(log + [e]) && e.ConnectFailed? && Downs(log) >= SLEEP_STREAK
    ensures e.wait == SLEEP_BACKOFF && !InGrace(log, e.at)
  {
    Grown(log, e);
    DownsGrow(log, e);
    if InGrace(log, e.at) {
      NoDownsInGrace(log, e.at);
    }
  }

  lemma {:induction false} OfflineFound(log: seq<Event>, i: nat)
    requires i < |log| && log[i].ConnectFailed? && log[i].offline
    requires forall k :: i < k < |log| ==> !log[k].HandshakeDone?
    ensures Offlines(log) > 0
  {
    if i < |log| - 1 {
      OfflineFound(Init(log), i);
    }
  }

  /** Between any two offline announcements there is a successful handshake. */
  lemma OfflineOncePerOutage(log: seq<Event>, i: nat, j: nat)
    requires Lawful(log) && i < j < |log|
    requires log[i].ConnectFailed? && log[i].offline && log[j].ConnectFailed? && log[j].offline
    ensures exists k :: i < k < j && log[k].HandshakeDone?
  {
    hide Lawful, Downs, IsDown;
    LawfulPrefix(log, j);
    var before := log[..j];
    if forall k :: i < k < j ==> !log[k].HandshakeDone? {
      assert before[i] == log[i];
      OfflineFound(before, i);
    }
  }

  /** n doublings, capped. */
  function Capped(b: nat, n: nat): nat {
    if n == 0 then b else Doubled(Capped(b, n - 1))
  }

  /** The failed connect a history calls for: how long to wait after it, and whether it is the
      one that announces the devices offline. */
  function FailureAfter(log: seq<Event>, hostDown: bool, at: nat): (e: Event)
    ensures e.ConnectFailed? && e == ConnectFailed(hostDown, at, e.wait, e.offline)
  {
    var down := hostDown && !InGrace(log, at);
    var downs := Downs(log) + (if down then 1 else 0);
    ConnectFailed(hostDown, at,
                  if InGrace(log, at) && hostDown then POST_YIELD_RETRY
                  else if downs >= SLEEP_STREAK then SLEEP_BACKOFF
                  else Backoff(log),
                  down && downs == SLEEP_STREAK && Offlines(log) == 0)
  }

  /** What a failed connect changes in what the history says. */
  lemma FailureStep(log: seq<Event>, hostDown: bool, at: nat, wait: nat, offline: bool)
    requires Lawful(log) && TimeOf(log) <= at && (log == [] || !Last(log).Connected?)
    ensures var e := ConnectFailed(hostDown, at, wait, offline);
      var after := log + [e];
      var downs := Downs(log) + (if hostDown && !InGrace(log, at) then 1 else 0);
      && (Lawful(after) <==> e == FailureAfter(log, hostDown, at))
      && Downs(after) == downs && TimeOf(after) == at + wait && GraceEnd(after) == GraceEnd(log)
      && Offlines(after) == Offlines(log) + (if offline then 1 else 0)
      && Backoff(after) == (if !InGrace(log, at) && downs < SLEEP_STREAK then Doubled(Backoff(log)) else Backoff(log))
  {
    hide Lawful, InGrace, Doubled;
    var e := ConnectFailed(hostDown, at, wait, offline);
    Grown(log, e);
    LawfulGrows(log, e);
    DownsGrow(log, e);
  }

  /** Outside the grace and short of sleep, a run of other failures waits twice as long each
      time, up to a minute; so also once the grace after a yield has run out. */
  lemma {:induction false} TransientLadder(log: seq<Event>, fails: seq<Event>)
    requires Lawful(log + fails) && Downs(log) < SLEEP_STREAK
    requires forall e :: e in fails ==> e.ConnectFailed? && !e.hostDown && !InGrace(log, e.at)
    ensures forall k :: 0 <= k < |fails| ==> fails[k].wait == Capped(Backoff(log), k)
    ensures Backoff(log + fails) == Capped(Backoff(log), |fails|)
    ensures GraceEnd(log + fails) == GraceEnd(log) && Downs(log + fails) == Downs(log)
  {
    hide Lawful, LawfulEvent, Backoff, Downs, Offlines, GraceEnd, TimeOf, Doubled;
    if fails == [] {
      assert log + fails == log;
    } else {
      var init, last := fails[..|fails| - 1], fails[|fails| - 1];
      assert log + fails == (log + init) + [last];
      assert last in fails && forall e :: e in init ==> e in fails;
      LawfulGrows(log + init, last);
      TransientLadder(log, init);
      FailureAllowed(log + init, last);
      FailureStep(log + init, false, last.at, last.wait, last.offline);
      assert last == ConnectFailed(false, last.at, last.wait, last.offline);
    }
  }

  lemma AsCalledFor(log: seq<Event>, hostDown: bool, at: nat, wait: nat, offline: bool)
    ensures var downs := Downs(log) + (if hostDown && !InGrace(log, at) then 1 else 0);
      ConnectFailed(hostDown, at, wait, offline) == FailureAfter(log, hostDown, at) <==>
        && (offline <==> hostDown && !InGrace(log, at) && downs == SLEEP_STREAK && Offlines(log) == 0)
        && wait == (if InGrace(log, at) && hostDown then POST_YIELD_RETRY
                    else if downs >= SLEEP_STREAK then SLEEP_BACKOFF
                    else Backoff(log))
  {
    hide Downs, InGrace, Offlines, Backoff;
  }

  lemma FailureAllowed(log: seq<Event>, e: Event)
    requires e.ConnectFailed? && LawfulEvent(log, e)
    ensures TimeOf(log) <= e.at && (log == [] || !Last(log).Connected?)
  {
    hide Downs, Backoff, Offlines, TimeOf;
  }

  /** The ladder after a connect: 2, 4, 8, 16, 32 seconds, then a minute for good. */
  lemma {:induction false} LadderValues(n: nat)
    ensures n < 5 ==> Capped(MIN_BACKOFF, n) == [2, 4, 8, 16, 32][n]
    ensures n >= 5 ==> Capped(MIN_BACKOFF, n) == MAX_TRANSIENT_BACKOFF
  {
    if n > 0 {
      LadderValues(n - 1);
    }
  }

  // ---------------------------------------------------------------- how often it tries

  lemma TimeNeverBack(log: seq<Event>)
    requires Lawful(log) && log != []
    ensures TimeOf(Init(log)) <= TimeOf(log)
    ensures Last(log).ConnectFailed? ==> TimeOf(Init(log)) <= Last(log).at
  {
    hide Lawful, Downs, Backoff, Offlines, GraceEnd;
    assert LawfulEvent(Init(log), Last(log)) && Lawful(Init(log)) by { LastIsLawful(log); }
  }

  lemma LastIsLawful(log: seq<Event>)
    requires Lawful(log) && log != []
    ensures LawfulEvent(Init(log), Last(log)) && Lawful(Init(log))
  {
    hide LawfulEvent;
  }

  /** Whatever happens in between, an attempt that fails comes no earlier than the wait after an
      earlier one allows. */
  lemma {:induction false} AttemptsSpaced(log: seq<Event>, i: nat)
    requires Lawful(log) && i < |log| && log[i].ConnectFailed?
    ensures log[i].at + log[i].wait <= TimeOf(log)
    ensures forall j :: i < j < |log| && log[j].ConnectFailed? ==> log[i].at + log[i].wait <= log[j].at
  {
    hide Lawful, LawfulEvent;
    LastIsLawful(log);
    TimeNeverBack(log);
    if i < |log| - 1 {
      AttemptsSpaced(Init(log), i);
      assert forall j :: i < j < |log| - 1 ==> Init(log)[j] == log[j];
    }
  }

  /** Asleep, it tries at most once in ten minutes: n + 1 failed connects in a row take at least
      n times as long. */
  lemma {:induction false} SleepRate(log: seq<Event>, i: nat, j: nat)
    requires Lawful(log) && i <= j < |log| && Downs(log[..i + 1]) >= SLEEP_STREAK
    requires forall k :: i <= k <= j ==> log[k].ConnectFailed?
    ensures log[i].at + SLEEP_BACKOFF * (j - i) <= log[j].at
    ensures Downs(log[..j + 1]) >= SLEEP_STREAK
    decreases j
  {
    hide Lawful, LawfulEvent, Downs, TimeOf;
    if i < j {
      SleepRate(log, i, j - 1);
      LawfulPrefix(log, j - 1);
      LawfulPrefix(log, j);
      var before, e := log[..j - 1], log[j - 1];
      assert log[..j] == before + [e] && log[..j + 1] == log[..j] + [log[j]];
      SleepWait(before, e);
      AttemptsSpaced(log, j - 1);
      DownsGrow(log[..j], log[j]);
    }
  }

  /** A failure that leaves the supervisor asleep waits ten minutes. */
  lemma SleepWait(before: seq<Event>, e: Event)
    requires Lawful(before + [e]) && e.ConnectFailed? && Downs(before + [e]) >= SLEEP_STREAK
    ensures e.wait == SLEEP_BACKOFF
  {
    hide Downs, Backoff, Offlines, TimeOf, GraceEnd, InGrace;
    Grown(before, e);
    DownsGrow(before, e);
    LastIsLawful(before + [e]);
    if InGrace(before, e.at) {
      assert TimeOf(before) <= e.at;
      NoDownsInGrace(before, e.at);
    }
  }

  /** Host-down failures in the grace of the last yield. */
  function GraceRetries(log: seq<Event>): nat {
    if log == [] || Last(log).Yielded? || Last(log).Connected? then 0
    else
      GraceRetries(Init(log))
      + (if Last(log).ConnectFailed? && Last(log).hostDown && InGrace(Init(log), Last(log).at) then 1 else 0)
  }

  /** In one grace there are at most twelve of them: 180 seconds at one in fifteen. */
  lemma {:induction false} GraceRetriesBounded(log: seq<Event>)
    requires Lawful(log)
    ensures GraceRetries(log) <= POST_YIELD_GRACE / POST_YIELD_RETRY
    ensures GraceEnd(log).Some? ==>
      GraceEnd(log).value - POST_YIELD_GRACE + POST_YIELD_RETRY * GraceRetries(log) <= TimeOf(log)
    ensures GraceEnd(log).None? ==> GraceRetries(log) == 0
  {
    hide Lawful, Downs, Backoff, Offlines;
    if log != [] {
      LastIsLawful(log);
      TimeNeverBack(log);
      GraceRetriesBounded(Init(log));
    }
  }

  // ---------------------------------------------------------------- the loop

  /** One turn of the reconnect loop, as the environment decides it. Clock readings: at is taken
      when a failed connect is judged, later when the grace is checked again. */
  datatype Round =
    | Fails(hostDown: bool, at: nat, later: nat)
    | Rejects
    | Serves(yieldedAt: Option<nat>)

  /** What a round adds to a history. */
  function EventsOf(log: seq<Event>, r: Round): seq<Event> {
    match r
    case Fails(hostDown, at, _) => [FailureAfter(log, hostDown, at)]
    case Rejects => [Connected, HandshakeFailed]
    case Serves(None) => [Connected, HandshakeDone]
    case Serves(Some(at)) => [Connected, HandshakeDone, Yielded(at)]
  }

  /** The earliest the clock can read once a round is over and its wait slept off. */
  function ClockAfter(log: seq<Event>, clock: nat, r: Round): nat {
    match r
    case Fails(hostDown, at, later) => later + FailureAfter(log, hostDown, at).wait
    case Rejects => clock + HANDSHAKE_PAUSE
    case Serves(Some(at)) => at
    case Serves(None) => clock
  }

  /** The clock never goes back, and sleeps last at least as long as they should. */
  predicate Clocked(log: seq<Event>, rounds: seq<Round>, clock: nat)
    decreases |rounds|
  {
    rounds == [] ||
    (&& (match rounds[0]
         case Fails(_, at, later) => clock <= at <= later
         case Rejects => true
         case Serves(Some(at)) => clock <= at
         case Serves(None) => true)
     && Clocked(log + EventsOf(log, rounds[0]), rounds[1..], ClockAfter(log, clock, rounds[0])))
  }

  /** A history after some more rounds, and the earliest the clock can read after them. */
  function HistoryAfter(log: seq<Event>, rounds: seq<Round>): seq<Event>
    decreases |rounds|
  {
    if rounds == [] then log else HistoryAfter(log + EventsOf(log, rounds[0]), rounds[1..])
  }

  function ClockAfterAll(log: seq<Event>, clock: nat, rounds: seq<Round>): nat
    decreases |rounds|
  {
    if rounds == [] then clock
    else ClockAfterAll(log + EventsOf(log, rounds[0]), ClockAfter(log, clock, rounds[0]), rounds[1..])
  }

  lemma {:induction false} HistoryGrows(log: seq<Event>, rounds: seq<Round>)
    ensures log <= HistoryAfter(log, rounds)
    decreases |rounds|
  {
    hide EventsOf;
    if rounds != [] {
      HistoryGrows(log + EventsOf(log, rounds[0]), rounds[1..]);
    }
  }

  /** A lawful history between rounds, no later than the clock. */
  predicate Resting(log: seq<Event>, clock: nat) {
    Lawful(log) && TimeOf(log) <= clock && (log == [] || !Last(log).Connected?)
  }

  lemma RoundIsLawful(log: seq<Event>, clock: nat, r: Round)
    requires Resting(log, clock) && Clocked(log, [r], clock)
    ensures Resting(log + EventsOf(log, r), ClockAfter(log, clock, r))
  {
    hide Lawful, Downs, Backoff, Offlines, GraceEnd, FailureAfter;
    match r
    case Fails(hostDown, at, _) =>
      var e := FailureAfter(log, hostDown, at);
      FailureStep(log, hostDown, at, e.wait, e.offline);
      Grown(log, e);
    case Rejects =>
      OneMoreEvent(log, Connected);
      OneMoreEvent(log + [Connected], HandshakeFailed);
      assert log + EventsOf(log, r) == log + [Connected] + [HandshakeFailed];
    case Serves(yieldedAt) =>
      var served := log + [Connected] + [HandshakeDone];
      OneMoreEvent(log, Connected);
      OneMoreEvent(log + [Connected], HandshakeDone);
      if yieldedAt.Some? {
        OneMoreEvent(served, Yielded(yieldedAt.value));
        assert log + EventsOf(log, r) == served + [Yielded(yieldedAt.value)];
      } else {
        assert log + EventsOf(log, r) == served;
      }
  }

  lemma OneMoreEvent(log: seq<Event>, e: Event)
    ensures Lawful(log + [e]) <==> Lawful(log) && LawfulEvent(log, e)
    ensures Last(log + [e]) == e
    ensures TimeOf(log + [e])
            == match e
               case ConnectFailed(_, at, wait, _) => at + wait
               case HandshakeFailed => TimeOf(log) + HANDSHAKE_PAUSE
               case Yielded(at) => at
               case _ => TimeOf(log)
  {
    hide Lawful, LawfulEvent;
    Grown(log, e);
    LawfulGrows(log, e);
  }

  /** Every run of rounds with a clock that never goes back has a lawful history. */
  lemma {:induction false} RunsAreLawful(log: seq<Event>, clock: nat, rounds: seq<Round>)
    requires Resting(log, clock) && Clocked(log, rounds, clock)
    ensures Resting(HistoryAfter(log, rounds), ClockAfterAll(log, clock, rounds))
    decreases |rounds|
  {
    hide Resting, EventsOf;
    if rounds != [] {
      assert [rounds[0]][1..] == [];
      RoundIsLawful(log, clock, rounds[0]);
      RunsAreLawful(log + EventsOf(log, rounds[0]), ClockAfter(log, clock, rounds[0]), rounds[1..]);
    }
  }

  class Supervisor {
    var backoff: nat
    var hostDownStreak: nat
    var publishedOffline: bool
    var postYieldDeadline: Option<nat>
    /** The earliest the clock can read next. */
    ghost var clock: nat
    ghost var log: seq<Event>

    /** Over any run: the history is lawful and the variables hold what it says. A deadline that
        has been cleared while the history still shows a grace has run out. */
    ghost predicate Valid()
      reads this
    {
      && Lawful(log) && TimeOf(log) <= clock
      && backoff == Backoff(log)
      && hostDownStreak == Downs(log)
      && Offlines(log) == (if publishedOffline then 1 else 0)
      && match postYieldDeadline
         case Some(d) => GraceEnd(log) == Some(d)
         case None => GraceEnd(log).None? || GraceEnd(log).value <= clock
    }

    /** Between rounds no connect is waiting for its handshake. */
    ghost predicate Idle()
      reads this
    {
      log == [] || !Last(log).Connected?
    }

    constructor ()
      ensures Valid() && Idle() && log == [] && clock == 0
    {
      backoff, hostDownStreak, publishedOffline, postYieldDeadline := MIN_BACKOFF, 0, false, None;
      clock, log := 0, [];
    }

    /** A failed connect: how long to wait, and whether the devices are announced offline. */
    method OnConnectFailed(hostDown: bool, at: nat, later: nat) returns (wait: nat, offline: bool)
      requires Valid() && Idle() && clock <= at <= later
      modifies this
      ensures Valid() && Idle() && clock == later + wait
      ensures log == old(log) + [ConnectFailed(hostDown, at, wait, offline)]
      ensures ConnectFailed(hostDown, at, wait, offline) == FailureAfter(old(log), hostDown, at)
    {
      hide FailureAfter, Lawful, Backoff, Downs, Offlines, GraceEnd, TimeOf, Doubled, LawfulEvent, Init, Last;
      var inGrace := postYieldDeadline.Some? && at < postYieldDeadline.value;
      assert inGrace <==> InGrace(log, at);
      offline := false;
      if hostDown && !inGrace {
        hostDownStreak := hostDownStreak + 1;
        if hostDownStreak == SLEEP_STREAK && !publishedOffline {
          publishedOffline := true;
          offline := true;
        }
      }
      if postYieldDeadline.Some? && later >= postYieldDeadline.value {
        postYieldDeadline := None;
      }
      wait := if inGrace && hostDown then POST_YIELD_RETRY
              else if hostDownStreak >= SLEEP_STREAK then SLEEP_BACKOFF
              else backoff;
      if !inGrace && hostDownStreak < SLEEP_STREAK {
        backoff := Doubled(backoff);
      }
      clock := later + wait;
      FailureStep(log, hostDown, at, wait, offline);
      AsCalledFor(log, hostDown, at, wait, offline);
      ghost var e := ConnectFailed(hostDown, at, wait, offline);
      assert hostDownStreak == Downs(log + [e]);
      assert backoff == Backoff(log + [e]);
      assert Offlines(log + [e]) == (if publishedOffline then 1 else 0);
      assert Lawful(log + [e]);
      Note(ConnectFailed(hostDown, at, wait, offline));
    }

    method OnConnected()
      requires Valid() && Idle()
      modifies this
      ensures Valid() && log == old(log) + [Connected] && clock == old(clock)
    {
      hostDownStreak := 0;
      postYieldDeadline := None;
      backoff := MIN_BACKOFF;
      Note(Connected);
    }

    method OnHandshakeFailed()
      requires Valid() && log != [] && Last(log).Connected?
      modifies this
      ensures Valid() && Idle() && log == old(log) + [HandshakeFailed] && clock == old(clock) + HANDSHAKE_PAUSE
    {
      clock := clock + HANDSHAKE_PAUSE;
      backoff := Doubled(backoff);
      Note(HandshakeFailed);
    }

    method OnHandshakeDone()
      requires Valid() && log != [] && Last(log).Connected?
      modifies this
      ensures Valid() && Idle() && log == old(log) + [HandshakeDone] && clock == old(clock)
    {
      publishedOffline := false;
      Note(HandshakeDone);
    }

    method OnYield(at: nat)
      requires Valid() && log != [] && Last(log).HandshakeDone? && clock <= at
      modifies this
      ensures Valid() && Idle() && log == old(log) + [Yielded(at)] && clock == at
    {
      postYieldDeadline := Some(at + POST_YIELD_GRACE);
      clock := at;
      Note(Yielded(at));
    }

    ghost method Note(e: Event)
      modifies `log
      ensures log == old(log) + [e] && Init(log) == old(log) && Last(log) == e
    {
      Grown(log, e);
      log := log + [e];
    }

    /** The reconnect loop over any finite run of rounds: the history grows by what each round
        adds, in order, and stays lawful. */
    method RunInverter(rounds: seq<Round>)
      requires Valid() && Idle() && Clocked(log, rounds, clock)
      modifies this
      ensures Valid() && Idle() && old(log) <= log
      ensures log == HistoryAfter(old(log), rounds) && clock == ClockAfterAll(old(log), old(clock), rounds)
    {
      hide Lawful, Backoff, Downs, Offlines, GraceEnd, TimeOf, FailureAfter;
      HistoryGrows(log, rounds);
      assert rounds[0..] == rounds;
      for i := 0 to |rounds|
        invariant Valid() && Idle() && Clocked(log, rounds[i..], clock)
        invariant HistoryAfter(old(log), rounds) == HistoryAfter(log, rounds[i..])
        invariant ClockAfterAll(old(log), old(clock), rounds) == ClockAfterAll(log, clock, rounds[i..])
      {
        assert rounds[i..][1..] == rounds[i + 1..];
        ghost var before := log;
        match rounds[i]
        case Fails(hostDown, at, later) =>
          var wait, offline := OnConnectFailed(hostDown, at, later);
        case Rejects =>
          OnConnected();
          OnHandshakeFailed();
          assert log == before + [Connected, HandshakeFailed];
        case Serves(yieldedAt) =>
          OnConnected();
          OnHandshakeDone();
          assert log == before + [Connected, HandshakeDone];
          if yieldedAt.Some? {
            OnYield(yieldedAt.value);
            assert log == before + [Connected, HandshakeDone, Yielded(yieldedAt.value)];
          }
      }
    }
  }
}
