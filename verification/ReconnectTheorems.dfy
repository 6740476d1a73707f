/** What the reconnect loop does, in seconds and over events alone. */
module ReconnectTheorems {
  import opened Bytes
  import opened Reconnect

  /** The last yield before an event, with no connect since. */
  predicate YieldBefore(log: seq<Event>, i: nat, j: nat, t: nat) {
    && i < j <= |log| && log[i] == Yielded(t)
    && forall k :: i < k < j ==> !log[k].Yielded? && !log[k].Connected?
  }

  lemma {:induction false} GraceEndOfYield(log: seq<Event>, i: nat, j: nat, t: nat)
    requires YieldBefore(log, i, j, t)
    ensures GraceEnd(log[..j]) == Some(t + 180)
    decreases j
  {
    assert Last(log[..j]) == log[j - 1] && Init(log[..j]) == log[..j - 1];
    if i < j - 1 {
      GraceEndOfYield(log, i, j - 1, t);
    }
  }

  /** For 180 seconds after a yield, until a connect, a host-down failure waits 15 seconds, is
      not announced and does not count. From then on it counts. */
  lemma GraceLasts(log: seq<Event>, i: nat, j: nat, t: nat)
    requires Lawful(log) && YieldBefore(log, i, j, t) && j < |log|
    requires log[j].ConnectFailed? && log[j].hostDown
    ensures log[j].at < t + 180 ==>
      log[j].wait == 15 && !log[j].offline && Downs(log[..j + 1]) == Downs(log[..j]) == 0
    ensures log[j].at >= t + 180 ==> Downs(log[..j + 1]) == Downs(log[..j]) + 1
  {
    hide Lawful, Downs, Backoff, Offlines, TimeOf, GraceEnd;
    GraceEndOfYield(log, i, j, t);
    LawfulPrefix(log, j);
    assert log[..j + 1] == log[..j] + [log[j]];
    DownsGrow(log[..j], log[j]);
    if log[j].at < t + 180 {
      NoDownsInGrace(log[..j], log[j].at);
    }
  }

  lemma {:induction false} NoYieldNoGrace(log: seq<Event>, i: nat, j: nat)
    requires i <= j <= |log| && (i == 0 || log[i - 1].Connected?)
    requires forall k :: i <= k < j ==> !log[k].Yielded?
    ensures GraceEnd(log[..j]).None?
    decreases j
  {
    if j > 0 {
      assert Last(log[..j]) == log[j - 1] && Init(log[..j]) == log[..j - 1];
      if i < j {
        NoYieldNoGrace(log, i, j - 1);
      }
    }
  }

  /** Without a yield since the last connect every host-down failure counts. */
  lemma CountsWithoutYield(log: seq<Event>, i: nat, j: nat)
    requires Lawful(log) && i <= j < |log| && (i == 0 || log[i - 1].Connected?)
    requires forall k :: i <= k < j ==> !log[k].Yielded?
    requires log[j].ConnectFailed?
    ensures Downs(log[..j + 1]) == Downs(log[..j]) + (if log[j].hostDown then 1 else 0)
  {
    hide Lawful, Downs, GraceEnd;
    NoYieldNoGrace(log, i, j);
    assert log[..j + 1] == log[..j] + [log[j]];
    DownsGrow(log[..j], log[j]);
  }

  /** The counter only falls, to nothing, when a connect succeeds; and a failure that leaves it
      at three or more waits ten minutes. */
  lemma CounterMeans(log: seq<Event>, j: nat)
    requires Lawful(log) && j < |log|
    ensures log[j].Connected? ==> Downs(log[..j + 1]) == 0
    ensures !log[j].Connected? ==> Downs(log[..j]) <= Downs(log[..j + 1]) <= Downs(log[..j]) + 1
    ensures log[j].ConnectFailed? && Downs(log[..j + 1]) >= 3 ==> log[j].wait == 600
    ensures log[j].ConnectFailed? && Downs(log[..j + 1]) < 3 ==> log[j].wait <= 60
    ensures log[j].ConnectFailed? && log[j].offline ==> log[j].hostDown && Downs(log[..j + 1]) == 3
  {
    hide Lawful, Backoff, Offlines, TimeOf, GraceEnd;
    LawfulPrefix(log, j);
    assert log[..j + 1] == log[..j] + [log[j]];
    Grown(log[..j], log[j]);
    BackoffStaysInRange(log[..j]);
    if log[j].ConnectFailed? && Downs(log[..j + 1]) >= 3 {
      SleepWait(log[..j], log[j]);
    }
  }

  /** Some connects one after the other that are rejected. */
  function Rejections(n: nat): seq<Event> {
    if n == 0 then [] else Rejections(n - 1) + [Connected] + [HandshakeFailed]
  }

  lemma {:induction false} RejectionsTakeTime(log: seq<Event>, n: nat)
    ensures TimeOf(log + Rejections(n)) == TimeOf(log) + 5 * n
  {
    hide TimeOf;
    if n == 0 {
      assert log + [] == log;
    } else {
      RejectionsTakeTime(log, n - 1);
      var before := log + Rejections(n - 1);
      assert log + Rejections(n) == before + [Connected] + [HandshakeFailed];
      OneRejection(before);
    }
  }

  lemma OneRejection(log: seq<Event>)
    ensures TimeOf(log + [Connected] + [HandshakeFailed]) == TimeOf(log) + 5
  {
    Grown(log, Connected);
    Grown(log + [Connected], HandshakeFailed);
  }

  /** Each rejected session costs five seconds on top of the wait. */
  lemma RejectionPauses(log: seq<Event>, a: Event, n: nat, e: Event)
    requires Lawful(log + [a] + Rejections(n) + [e]) && e.ConnectFailed?
    ensures a.ConnectFailed? ==> a.at + a.wait + 5 * n <= e.at
    ensures a.Yielded? ==> a.at + 5 * n <= e.at
  {
    hide Lawful, Backoff, Downs, GraceEnd, Offlines;
    RejectionsTakeTime(log + [a], n);
    Grown(log, a);
    LawfulGrows(log + [a] + Rejections(n), e);
  }

  // ---------------------------------------------------------------- the ladder in seconds

  /** The n-th wait of the ladder that starts at two seconds. */
  function Ladder(n: nat): nat {
    if n == 0 then 2 else if n == 1 then 4 else if n == 2 then 8 else if n == 3 then 16 else if n == 4 then 32 else 60
  }

  lemma LadderIsCapped(n: nat)
    ensures Capped(2, n) == Ladder(n) && Capped(4, n) == Ladder(n + 1)
  {
    LadderValues(n);
    LadderValues(n + 1);
    CappedLater(2, n);
  }

  lemma {:induction false} CappedLater(b: nat, n: nat)
    ensures Capped(Doubled(b), n) == Capped(b, n + 1)
  {
    if n > 0 {
      CappedLater(b, n - 1);
    }
  }

  predicate OtherFailures(fails: seq<Event>) {
    forall e :: e in fails ==> e.ConnectFailed? && !e.hostDown
  }

  /** At first, and after every session that was served, failures other than host-down wait 2, 4,
      8, 16 and 32 seconds and then a minute each. */
  lemma AfterServed(log: seq<Event>, fails: seq<Event>, k: nat)
    requires Lawful(log + [Connected, HandshakeDone] + fails) && OtherFailures(fails) && k < |fails|
    ensures fails[k].wait == if k == 0 then 2 else if k == 1 then 4 else if k == 2 then 8
                             else if k == 3 then 16 else if k == 4 then 32 else 60
  {
    hide Lawful, LawfulEvent, Backoff, Downs, GraceEnd, Offlines, TimeOf, Doubled;
    var served := log + [Connected, HandshakeDone];
    assert served == log + [Connected] + [HandshakeDone];
    JustServed(log);
    TransientLadder(served, fails);
    LadderIsCapped(k);
  }

  lemma AtFirst(fails: seq<Event>, k: nat)
    requires Lawful(fails) && OtherFailures(fails) && k < |fails|
    ensures fails[k].wait == if k == 0 then 2 else if k == 1 then 4 else if k == 2 then 8
                             else if k == 3 then 16 else if k == 4 then 32 else 60
  {
    hide Lawful, LawfulEvent, Offlines, TimeOf, Doubled;
    assert [] + fails == fails;
    TransientLadder([], fails);
    LadderIsCapped(k);
  }

  /** After a session that was rejected it starts one rung up. */
  lemma AfterRejected(log: seq<Event>, fails: seq<Event>, k: nat)
    requires Lawful(log + [Connected, HandshakeFailed] + fails) && OtherFailures(fails) && k < |fails|
    ensures fails[k].wait == if k == 0 then 4 else if k == 1 then 8 else if k == 2 then 16
                             else if k == 3 then 32 else 60
  {
    hide Lawful, LawfulEvent, Backoff, Downs, GraceEnd, Offlines, TimeOf, Doubled;
    var rejected := log + [Connected, HandshakeFailed];
    assert rejected == log + [Connected] + [HandshakeFailed];
    JustRejected(log);
    TransientLadder(rejected, fails);
    LadderIsCapped(k);
  }

  lemma JustServed(log: seq<Event>)
    ensures var served := log + [Connected] + [HandshakeDone];
      Backoff(served) == 2 && Downs(served) == 0 && GraceEnd(served).None? && Offlines(served) == 0
  {
    Grown(log, Connected);
    Grown(log + [Connected], HandshakeDone);
  }

  lemma JustRejected(log: seq<Event>)
    ensures var rejected := log + [Connected] + [HandshakeFailed];
      Backoff(rejected) == 4 && Downs(rejected) == 0 && GraceEnd(rejected).None?
  {
    Grown(log, Connected);
    Grown(log + [Connected], HandshakeFailed);
  }

  /** After a served session three host-down failures in a row wait 2, 4 and 600 seconds, and the
      third announces the devices offline. */
  lemma ServedThenDown(log: seq<Event>, a: Event, b: Event, c: Event)
    requires Lawful(log + [Connected] + [HandshakeDone] + [a] + [b] + [c])
    requires a.ConnectFailed? && b.ConnectFailed? && c.ConnectFailed? && a.hostDown && b.hostDown && c.hostDown
    ensures a.wait == 2 && b.wait == 4 && c.wait == 600
    ensures !a.offline && !b.offline && c.offline
  {
    hide Lawful, LawfulEvent, Backoff, Downs, GraceEnd, Offlines, TimeOf;
    var l0 := log + [Connected] + [HandshakeDone];
    var l1, l2 := l0 + [a], l0 + [a] + [b];
    JustServed(log);
    LawfulGrows(l2, c);
    LawfulGrows(l1, b);
    LawfulGrows(l0, a);
    DownStep(l0, a);
    DownStep(l1, b);
    DownStep(l2, c);
  }

  lemma DownStep(log: seq<Event>, e: Event)
    requires Lawful(log + [e]) && Lawful(log) && LawfulEvent(log, e)
    requires e.ConnectFailed? && e.hostDown && GraceEnd(log).None? && Downs(log) < 3
    ensures Downs(log + [e]) == Downs(log) + 1 && GraceEnd(log + [e]).None?
    ensures e.wait == if Downs(log) == 2 then 600 else Backoff(log)
    ensures Downs(log) < 2 ==> Backoff(log + [e]) == Doubled(Backoff(log))
    ensures e.offline <==> Downs(log) == 2 && Offlines(log) == 0
    ensures !e.offline ==> Offlines(log + [e]) == Offlines(log)
  {
    hide Lawful, Backoff, Downs, GraceEnd, Offlines, TimeOf, Doubled;
    FailureAllowed(log, e);
    FailureStep(log, e.hostDown, e.at, e.wait, e.offline);
    assert e == ConnectFailed(e.hostDown, e.at, e.wait, e.offline);
    AsCalledFor(log, e.hostDown, e.at, e.wait, e.offline);
  }

  /** While the grace after a yield lasts, host-down failures wait 15 seconds each and others 2,
      however many there are. */
  lemma {:induction false} AfterYield(log: seq<Event>, t: nat, fails: seq<Event>, k: nat)
    requires Lawful(log + [Connected, HandshakeDone, Yielded(t)] + fails) && k < |fails|
    requires forall e :: e in fails ==> e.ConnectFailed? && e.at < t + 180
    ensures fails[k].wait == if fails[k].hostDown then 15 else 2
    ensures !fails[k].offline
  {
    hide Lawful, LawfulEvent, Backoff, Downs, GraceEnd, Offlines, TimeOf;
    var start := log + [Connected, HandshakeDone, Yielded(t)];
    var before := start + fails[..k];
    assert start + fails == before + [fails[k]] + fails[k + 1..];
    LawfulPrefix(start + fails, |before|);
    assert (start + fails)[..|before|] == before && (start + fails)[|before|] == fails[k];
    InGraceSince(log, t, fails[..k]);
    InGraceStep(before, t, fails[k]);
  }

  lemma InGraceStep(before: seq<Event>, t: nat, e: Event)
    requires Lawful(before) && LawfulEvent(before, e) && e.ConnectFailed? && e.at < t + 180
    requires GraceEnd(before) == Some(t + 180) && Backoff(before) == 2
    ensures e.wait == (if e.hostDown then 15 else 2) && !e.offline
    ensures GraceEnd(before + [e]) == Some(t + 180) && Backoff(before + [e]) == 2
  {
    hide Lawful, Downs, Offlines, TimeOf;
    NoDownsInGrace(before, e.at);
    DownsGrow(before, e);
    Grown(before, e);
  }

  lemma {:induction false} InGraceSince(log: seq<Event>, t: nat, fails: seq<Event>)
    requires Lawful(log + [Connected, HandshakeDone, Yielded(t)] + fails)
    requires forall e :: e in fails ==> e.ConnectFailed? && e.at < t + 180
    ensures var now := log + [Connected, HandshakeDone, Yielded(t)] + fails;
      GraceEnd(now) == Some(t + 180) && Backoff(now) == 2
  {
    hide Lawful, LawfulEvent, Backoff, Downs, GraceEnd, Offlines, TimeOf;
    var start := log + [Connected, HandshakeDone, Yielded(t)];
    if fails == [] {
      assert start + fails == log + [Connected] + [HandshakeDone] + [Yielded(t)];
      JustYielded(log, t);
    } else {
      var init, last := fails[..|fails| - 1], fails[|fails| - 1];
      assert start + fails == (start + init) + [last] && last in fails;
      LawfulGrows(start + init, last);
      InGraceSince(log, t, init);
      InGraceStep(start + init, t, last);
    }
  }

  lemma JustYielded(log: seq<Event>, t: nat)
    ensures var now := log + [Connected] + [HandshakeDone] + [Yielded(t)];
      GraceEnd(now) == Some(t + 180) && Backoff(now) == 2
  {
    JustServed(log);
    Grown(log + [Connected] + [HandshakeDone], Yielded(t));
  }
}
