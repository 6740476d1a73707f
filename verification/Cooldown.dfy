/** The poll loop of one session: per-target failure counts and the cooldown ladder. */
module Cooldown {
  /** A device serial number, as a number. */
  type Serial = n: nat | n < 0x1_0000_0000

  const THRESHOLD: nat := 3
  const LADDER: seq<nat> := [60, 300, 900, 1800]

  /** What one query to a target comes to: an answer, an error of that device alone, or an
      error fatal to the session. */
  datatype Answer = Answered | DeviceFailed | SessionFailed

  /** What the poll of one target comes to. */
  datatype Verdict = Good | Bad | Fatal

  /** The first query that is not answered decides. */
  function VerdictOf(answers: seq<Answer>): Verdict {
    if answers == [] then Good
    else match answers[0]
         case Answered => VerdictOf(answers[1..])
         case DeviceFailed => Bad
         case SessionFailed => Fatal
  }

  /** What happens to a target in a sweep: gate is the clock when its turn comes, end the clock
      when its outcome is recorded. */
  datatype Turn = Turn(serial: Serial, gate: nat, end: nat, answers: seq<Answer>)

  /** What a session did with its targets, oldest first. */
  datatype Visit =
    | Skipped(serial: Serial, at: nat)
    | Polled(serial: Serial, start: nat, end: nat, ok: bool)
    | Aborted(serial: Serial, start: nat)

  /** Failures of a target since its last success. */
  function Streak(log: seq<Visit>, serial: Serial): nat {
    if log == [] then 0
    else
      var (rest, last) := (log[..|log| - 1], log[|log| - 1]);
      if !last.Polled? || last.serial != serial then Streak(rest, serial)
      else if last.ok then 0
      else Streak(rest, serial) + 1
  }

  /** When the last poll of a target was recorded. */
  function LastEnd(log: seq<Visit>, serial: Serial): nat {
    if log == [] then 0
    else
      var (rest, last) := (log[..|log| - 1], log[|log| - 1]);
      if last.Polled? && last.serial == serial then last.end else LastEnd(rest, serial)
  }

  /** How long a target rests after its n-th failure in a row. */
  function Rest(n: nat): nat {
    if n < THRESHOLD then 0
    else if n - THRESHOLD < |LADDER| then LADDER[n - THRESHOLD]
    else LADDER[|LADDER| - 1]
  }

  function ReadyAt(log: seq<Visit>, serial: Serial): nat {
    LastEnd(log, serial) + Rest(Streak(log, serial))
  }

  /** Targets rest exactly as long as the ladder says after their last recorded failure. */
  predicate Lawful(log: seq<Visit>) {
    forall k :: 0 <= k < |log| ==> LawfulVisit(log[..k], log[k])
  }

  predicate LawfulVisit(before: seq<Visit>, v: Visit) {
    match v
    case Skipped(serial, at) => Streak(before, serial) >= THRESHOLD && at < ReadyAt(before, serial)
    case Polled(serial, start, end, _) =>
      start <= end && (Streak(before, serial) >= THRESHOLD ==> ReadyAt(before, serial) <= start)
    case Aborted(serial, start) => Streak(before, serial) >= THRESHOLD ==> ReadyAt(before, serial) <= start
  }

  function StreakAfter(log: seq<Visit>, v: Visit, serial: Serial): nat {
    if !v.Polled? || v.serial != serial then Streak(log, serial)
    else if v.ok then 0
    else Streak(log, serial) + 1
  }

  function EndAfter(log: seq<Visit>, v: Visit, serial: Serial): nat {
    if v.Polled? && v.serial == serial then v.end else LastEnd(log, serial)
  }

  lemma LogGrows(log: seq<Visit>, v: Visit)
    requires Lawful(log) && LawfulVisit(log, v)
    ensures Lawful(log + [v])
    ensures forall s :: Streak(log + [v], s) == StreakAfter(log, v, s)
    ensures forall s :: LastEnd(log + [v], s) == EndAfter(log, v, s)
  {
    hide LawfulVisit;
    var more := log + [v];
    assert more[..|more| - 1] == log;
    forall k | 0 <= k < |more| ensures LawfulVisit(more[..k], more[k]) {
      if k < |log| {
        assert more[..k] == log[..k];
      }
    }
  }

  /** The two maps say of a target what the history says. */
  predicate Agrees(failures: map<Serial, nat>, skipUntil: map<Serial, nat>, log: seq<Visit>, s: Serial) {
    && Streak(log, s) == (if s in failures then failures[s] else 0)
    && (s in skipUntil <==> Streak(log, s) >= THRESHOLD)
    && (s in skipUntil ==> skipUntil[s] == ReadyAt(log, s))
  }

  /** Two maps hold the same for a target. */
  predicate Same(m: map<Serial, nat>, n: map<Serial, nat>, s: Serial) {
    (s in m <==> s in n) && (s in m ==> m[s] == n[s])
  }

  /** What a target's turn comes to, given its history. */
  function VisitOf(log: seq<Visit>, t: Turn): Visit {
    if Streak(log, t.serial) >= THRESHOLD && t.gate < ReadyAt(log, t.serial) then Skipped(t.serial, t.gate)
    else
      match VerdictOf(t.answers)
      case Good => Polled(t.serial, t.gate, t.end, true)
      case Bad => Polled(t.serial, t.gate, t.end, false)
      case Fatal => Aborted(t.serial, t.gate)
  }

  lemma VisitIsLawful(log: seq<Visit>, t: Turn)
    requires t.gate <= t.end
    ensures LawfulVisit(log, VisitOf(log, t)) && VisitOf(log, t).serial == t.serial
  {
  }

  lemma OthersAgree(failures: map<Serial, nat>, skipUntil: map<Serial, nat>, log: seq<Visit>, v: Visit,
                    failures': map<Serial, nat>, skipUntil': map<Serial, nat>, s: Serial)
    requires Lawful(log) && LawfulVisit(log, v) && v.serial != s
    requires Agrees(failures, skipUntil, log, s) && Same(failures, failures', s) && Same(skipUntil, skipUntil', s)
    ensures Agrees(failures', skipUntil', log + [v], s)
  {
    hide Lawful, LawfulVisit, Streak, LastEnd;
    LogGrows(log, v);
  }

  // ---------------------------------------------------------------- sweeps

  /** The history after a sweep over some turns, which ends at the first that aborts. */
  function AfterSweep(log: seq<Visit>, turns: seq<Turn>): seq<Visit>
    decreases |turns|
  {
    if turns == [] then log
    else if VisitOf(log, turns[0]).Aborted? then log + [VisitOf(log, turns[0])]
    else AfterSweep(log + [VisitOf(log, turns[0])], turns[1..])
  }

  /** No turn of a sweep aborts. */
  predicate Survives(log: seq<Visit>, turns: seq<Turn>)
    decreases |turns|
  {
    turns == [] ||
    (!VisitOf(log, turns[0]).Aborted? && Survives(log + [VisitOf(log, turns[0])], turns[1..]))
  }

  /** A sweep visits its turns in order, and all of them unless one aborts; then that one is the
      last it visits. */
  lemma {:induction false} SweepVisits(log: seq<Visit>, turns: seq<Turn>) returns (n: nat)
    ensures n <= |turns| && |AfterSweep(log, turns)| == |log| + n && log <= AfterSweep(log, turns)
    ensures forall k :: |log| <= k < |log| + n ==>
              AfterSweep(log, turns)[k] == VisitOf(AfterSweep(log, turns)[..k], turns[k - |log|])
    ensures forall k :: |log| <= k < |log| + n - 1 ==> !AfterSweep(log, turns)[k].Aborted?
    ensures Survives(log, turns) <==> n == 0 || !AfterSweep(log, turns)[|log| + n - 1].Aborted?
    ensures n < |turns| ==> !Survives(log, turns)
    decreases |turns|
  {
    hide VisitOf;
    n := 0;
    if turns != [] {
      var v := VisitOf(log, turns[0]);
      assert (log + [v])[..|log|] == log;
      n := 1;
      if !v.Aborted? {
        var m := SweepVisits(log + [v], turns[1..]);
        n := m + 1;
        var after := AfterSweep(log, turns);
        assert log + [v] <= after;
        assert after[|log|] == (log + [v])[|log|] == v;
        assert after[..|log|] == (log + [v])[..|log|];
        forall k | |log| <= k < |log| + n ensures after[k] == VisitOf(after[..k], turns[k - |log|]) {
          if k > |log| {
            assert turns[k - |log|] == turns[1..][k - |log| - 1];
          }
        }
      }
    }
  }

  /** The history after some ticks that sweep, up to the first sweep that aborts. */
  function AfterSweeps(log: seq<Visit>, ticks: seq<seq<Turn>>): seq<Visit>
    decreases |ticks|
  {
    if ticks == [] then log
    else if !Survives(log, ticks[0]) then AfterSweep(log, ticks[0])
    else AfterSweeps(AfterSweep(log, ticks[0]), ticks[1..])
  }

  /** How many of them are started. */
  function SweepsMade(log: seq<Visit>, ticks: seq<seq<Turn>>): nat
    decreases |ticks|
  {
    if ticks == [] then 0
    else if !Survives(log, ticks[0]) then 1
    else 1 + SweepsMade(AfterSweep(log, ticks[0]), ticks[1..])
  }

  /** None of them aborts. */
  predicate AllSurvive(log: seq<Visit>, ticks: seq<seq<Turn>>)
    decreases |ticks|
  {
    ticks == [] || (Survives(log, ticks[0]) && AllSurvive(AfterSweep(log, ticks[0]), ticks[1..]))
  }

  /** The ticks of a session that sweep: those before the one that yields. */
  function Sweeping(ticks: seq<seq<Turn>>, yieldEvery: nat): seq<seq<Turn>> {
    if 0 < yieldEvery <= |ticks| then ticks[..yieldEvery - 1] else ticks
  }

  /** One sweep of a run of them. */
  lemma SweepsTurn(log: seq<Visit>, ticks: seq<seq<Turn>>)
    requires ticks != []
    ensures var next, alive := AfterSweep(log, ticks[0]), Survives(log, ticks[0]);
      && AfterSweeps(log, ticks) == (if alive then AfterSweeps(next, ticks[1..]) else next)
      && SweepsMade(log, ticks) == 1 + (if alive then SweepsMade(next, ticks[1..]) else 0)
      && (AllSurvive(log, ticks) <==> alive && AllSurvive(next, ticks[1..]))
  {
    hide AfterSweep, Survives;
  }

  lemma SweepsOver(log: seq<Visit>)
    ensures AfterSweeps(log, []) == log && SweepsMade(log, []) == 0 && AllSurvive(log, [])
  {
  }

  /** The tick that yields is the one after those that sweep. */
  lemma TickYields(i: nat, yieldEvery: nat, ticks: nat)
    requires i < ticks && i <= (if 0 < yieldEvery <= ticks then yieldEvery - 1 else ticks)
    ensures yieldEvery > 0 && (i + 1) % yieldEvery == 0 <==> 0 < yieldEvery <= ticks && i == yieldEvery - 1
  {
    if yieldEvery > 0 && i + 1 < yieldEvery {
      assert (i + 1) % yieldEvery == i + 1;
    }
  }

  datatype SessionEnd = Yielded | Broken | StillUp

  class Poller {
    var failures: map<Serial, nat>
    var skipUntil: map<Serial, nat>
    var pollCount: nat
    ghost var log: seq<Visit>

    /** Over any run of the poll loop: the history is lawful, and the two maps hold exactly what
        it says about each target. */
    ghost predicate Valid()
      reads this
    {
      Lawful(log) && forall s :: Agrees(failures, skipUntil, log, s)
    }

    constructor ()
      ensures Valid() && log == [] && pollCount == 0
    {
      failures, skipUntil, pollCount, log := map[], map[], 0, [];
    }

    /** One target's turn. The result says whether the session survived it. */
    method TakeTurn(t: Turn) returns (alive: bool)
      requires Valid() && t.gate <= t.end
      modifies `failures, `skipUntil, `log
      ensures alive ==> Valid()
      ensures Lawful(log) && log == old(log) + [VisitOf(old(log), t)]
      ensures alive <==> !VisitOf(old(log), t).Aborted?
      ensures forall s :: s != t.serial ==> Same(old(failures), failures, s) && Same(old(skipUntil), skipUntil, s)
    {
      hide Lawful, LawfulVisit, Streak, LastEnd, VerdictOf;
      ghost var before, failures0, skipUntil0 := log, failures, skipUntil;
      assert Agrees(failures0, skipUntil0, before, t.serial);
      VisitIsLawful(before, t);
      LogGrows(before, VisitOf(before, t));
      log := log + [VisitOf(before, t)];
      if t.serial in skipUntil {
        if t.gate < skipUntil[t.serial] {
          Settle(before, t, failures0, skipUntil0);
          return true;
        }
        skipUntil := skipUntil - {t.serial};
      }
      assert forall s :: s != t.serial ==> Same(skipUntil0, skipUntil, s);
      var verdict := Query(t.answers);
      if verdict.Fatal? {
        assert forall s :: Same(failures0, failures, s);
        return false;
      }
      if verdict.Good? {
        failures := failures[t.serial := 0];
      } else {
        var cf := (if t.serial in failures then failures[t.serial] else 0) + 1;
        failures := failures[t.serial := cf];
        if cf >= THRESHOLD {
          var index := cf - THRESHOLD;
          var secs := if index < |LADDER| then LADDER[index] else LADDER[|LADDER| - 1];
          skipUntil := skipUntil[t.serial := t.end + secs];
        }
      }
      Settle(before, t, failures0, skipUntil0);
      alive := true;
    }

    /** The other targets are as they were, so the maps agree with the longer history. */
    ghost method Settle(before: seq<Visit>, t: Turn, failures0: map<Serial, nat>, skipUntil0: map<Serial, nat>)
      requires Lawful(before) && Lawful(log) && log == before + [VisitOf(before, t)] && t.gate <= t.end
      requires forall s :: Agrees(failures0, skipUntil0, before, s)
      requires forall s :: s != t.serial ==> Same(failures0, failures, s) && Same(skipUntil0, skipUntil, s)
      requires Agrees(failures, skipUntil, log, t.serial)
      ensures Valid()
    {
      hide Lawful, LawfulVisit, Agrees, Same, VisitOf;
      forall s ensures Agrees(failures, skipUntil, log, s) {
        if s != t.serial {
          VisitIsLawful(before, t);
          OthersAgree(failures0, skipUntil0, before, VisitOf(before, t), failures, skipUntil, s);
        }
      }
    }

    /** The queries of one poll, until the first that is not answered. */
    method Query(answers: seq<Answer>) returns (v: Verdict)
      ensures v == VerdictOf(answers)
    {
      for i := 0 to |answers|
        invariant VerdictOf(answers) == VerdictOf(answers[i..])
      {
        assert answers[i..][1..] == answers[i + 1..];
        match answers[i]
        case Answered =>
        case DeviceFailed => return Bad;
        case SessionFailed => return Fatal;
      }
      v := Good;
    }

    /** One sweep over the targets, cut short by a fatal error. Targets not in it keep their
        counters and deadlines. */
    method Sweep(turns: seq<Turn>) returns (cycleOk: bool)
      requires Valid() && forall t :: t in turns ==> t.gate <= t.end
      modifies `failures, `skipUntil, `log
      ensures cycleOk ==> Valid()
      ensures Lawful(log) && log == AfterSweep(old(log), turns)
      ensures cycleOk <==> Survives(old(log), turns)
      ensures forall s :: (forall t :: t in turns ==> t.serial != s) ==>
                Same(old(failures), failures, s) && Same(old(skipUntil), skipUntil, s)
    {
      hide Lawful, Agrees, VisitOf;
      assert turns[0..] == turns;
      for i := 0 to |turns|
        invariant Valid()
        invariant AfterSweep(old(log), turns) == AfterSweep(log, turns[i..])
        invariant Survives(old(log), turns) <==> Survives(log, turns[i..])
        invariant forall s :: (forall t :: t in turns ==> t.serial != s) ==>
                    Same(old(failures), failures, s) && Same(old(skipUntil), skipUntil, s)
      {
        assert turns[i] in turns && turns[i..][1..] == turns[i + 1..];
        ghost var failures0, skipUntil0 := failures, skipUntil;
        var alive := TakeTurn(turns[i]);
        forall s | forall t :: t in turns ==> t.serial != s
          ensures Same(old(failures), failures, s) && Same(old(skipUntil), skipUntil, s)
        {
          assert Same(failures0, failures, s) && Same(skipUntil0, skipUntil, s);
          assert Same(old(failures), failures0, s) && Same(old(skipUntil), skipUntil0, s);
        }
        if !alive {
          return false;
        }
      }
      cycleOk := true;
    }

    /** The poll loop: every yieldEvery-th tick gives the link away instead of sweeping, and a
        fatal error ends the session. It yields exactly when that tick comes and no sweep before
        it aborts, and breaks exactly when one aborts first. */
    method PollLoop(ticks: seq<seq<Turn>>, yieldEvery: nat) returns (end: SessionEnd, sweeps: nat)
      requires Valid() && pollCount == 0
      requires forall turns, t :: turns in ticks && t in turns ==> t.gate <= t.end
      modifies this
      ensures Lawful(log) && log == AfterSweeps(old(log), Sweeping(ticks, yieldEvery))
      ensures end == Broken <==> !AllSurvive(old(log), Sweeping(ticks, yieldEvery))
      ensures end == Yielded <==>
        AllSurvive(old(log), Sweeping(ticks, yieldEvery)) && 0 < yieldEvery <= |ticks|
      ensures sweeps == SweepsMade(old(log), Sweeping(ticks, yieldEvery))
      ensures end == Yielded ==> pollCount == yieldEvery && sweeps == yieldEvery - 1
      ensures yieldEvery > 0 ==> sweeps < yieldEvery
      ensures end == StillUp ==> sweeps == |ticks| && Valid()
    {
      hide Lawful, Agrees, AfterSweep, Survives, AfterSweeps, SweepsMade, AllSurvive;
      sweeps := 0;
      ghost var sweeping := Sweeping(ticks, yieldEvery);
      assert sweeping[0..] == sweeping;
      for i := 0 to |ticks|
        invariant Valid() && pollCount == i == sweeps <= |sweeping|
        invariant AfterSweeps(old(log), sweeping) == AfterSweeps(log, sweeping[i..])
        invariant SweepsMade(old(log), sweeping) == i + SweepsMade(log, sweeping[i..])
        invariant AllSurvive(old(log), sweeping) <==> AllSurvive(log, sweeping[i..])
      {
        TickYields(i, yieldEvery, |ticks|);
        pollCount := pollCount + 1;
        if i == |sweeping| {
          assert sweeping[i..] == [];
          SweepsOver(log);
        } else {
          assert sweeping[i] == ticks[i] && sweeping[i..][0] == sweeping[i] && sweeping[i..][1..] == sweeping[i + 1..];
          SweepsTurn(log, sweeping[i..]);
        }
        if yieldEvery > 0 && pollCount % yieldEvery == 0 {
          return Yielded, sweeps;
        }
        sweeps := sweeps + 1;
        assert ticks[i] in ticks;
        var cycleOk := Sweep(ticks[i]);
        if !cycleOk {
          return Broken, sweeps;
        }
      }
      assert sweeping[|sweeping|..] == [];
      SweepsOver(log);
      end := StillUp;
    }
  }

  // ---------------------------------------------------------------- the cooldown bound

  /** One poll of a target. */
  datatype Attempt = Attempt(start: nat, end: nat, ok: bool)

  /** The polls of one target, in order. */
  function AttemptsOf(log: seq<Visit>, serial: Serial): seq<Attempt> {
    if log == [] then []
    else
      var (rest, last) := (log[..|log| - 1], log[|log| - 1]);
      AttemptsOf(rest, serial)
      + if last.Polled? && last.serial == serial then [Attempt(last.start, last.end, last.ok)] else []
  }

  /** Failures in a row just before poll i. */
  function FailuresBefore(a: seq<Attempt>, i: nat): nat
    requires i <= |a|
  {
    if i == 0 || a[i - 1].ok then 0 else 1 + FailuresBefore(a, i - 1)
  }

  lemma {:induction false} FailuresKept(a: seq<Attempt>, b: seq<Attempt>, i: nat)
    requires i <= |a|
    ensures FailuresBefore(a + b, i) == FailuresBefore(a, i)
  {
    if i > 0 {
      FailuresKept(a, b, i - 1);
    }
  }

  /** The failure count and the last end are those of the polls. */
  lemma {:induction false} StreakOfAttempts(log: seq<Visit>, serial: Serial)
    ensures var a := AttemptsOf(log, serial);
      && Streak(log, serial) == FailuresBefore(a, |a|)
      && (a != [] ==> LastEnd(log, serial) == a[|a| - 1].end)
  {
    if log != [] {
      var rest, last := log[..|log| - 1], log[|log| - 1];
      var a := AttemptsOf(rest, serial);
      StreakOfAttempts(rest, serial);
      if last.Polled? && last.serial == serial {
        FailuresKept(a, [Attempt(last.start, last.end, last.ok)], |a|);
      } else {
        assert AttemptsOf(log, serial) == a;
      }
    }
  }

  lemma LawfulPrefix(log: seq<Visit>)
    requires Lawful(log) && log != []
    ensures Lawful(log[..|log| - 1]) && LawfulVisit(log[..|log| - 1], log[|log| - 1])
  {
    hide LawfulVisit;
    var rest := log[..|log| - 1];
    forall k | 0 <= k < |rest| ensures LawfulVisit(rest[..k], rest[k]) {
      assert rest[..k] == log[..k];
    }
  }

  /** Each poll ends after it starts, and after n failures in a row, three or more, the next
      starts no earlier than the rest they call for allows. */
  lemma {:induction false} RestsBetween(log: seq<Visit>, serial: Serial, i: nat)
    requires Lawful(log) && i < |AttemptsOf(log, serial)|
    ensures var a := AttemptsOf(log, serial);
      var n := FailuresBefore(a, i);
      a[i].start <= a[i].end && (n >= THRESHOLD ==> a[i - 1].end + Rest(n) <= a[i].start)
  {
    hide Streak, LastEnd, Lawful, Rest;
    LawfulPrefix(log);
    var rest, last := log[..|log| - 1], log[|log| - 1];
    var a := AttemptsOf(rest, serial);
    StreakOfAttempts(rest, serial);
    var one := if last.Polled? && last.serial == serial then [Attempt(last.start, last.end, last.ok)] else [];
    assert AttemptsOf(log, serial) == a + one;
    FailuresKept(a, one, i);
    if i < |a| {
      RestsBetween(rest, serial, i);
    }
  }

  /** The seconds a failing target must rest, in all, before its k-th poll. */
  function TotalRest(k: nat): nat
    requires k >= THRESHOLD
  {
    if k == THRESHOLD then 0 else TotalRest(k - 1) + Rest(k - 1)
  }

  lemma {:induction false} TotalRestClosedForm(k: nat)
    requires k >= 7
    ensures TotalRest(k) == 60 + 300 + 900 + 1800 * (k - 6)
  {
    if k == 7 {
      assert TotalRest(4) == 60 && TotalRest(5) == 360 && TotalRest(6) == 1260;
    } else {
      TotalRestClosedForm(k - 1);
    }
  }

  /** From poll first on, at the start of a session or right after a success, the polls before
      the k-th all fail. */
  predicate FailsFrom(a: seq<Attempt>, first: nat, k: nat) {
    && first + k <= |a|
    && (first == 0 || a[first - 1].ok)
    && forall j :: first <= j < first + k - 1 ==> !a[j].ok
  }

  lemma {:induction false} FailuresCounted(a: seq<Attempt>, first: nat, k: nat, n: nat)
    requires FailsFrom(a, first, k) && n < k
    ensures FailuresBefore(a, first + n) == n
  {
    if n > 0 {
      FailuresCounted(a, first, k, n - 1);
    }
  }

  lemma {:induction false} CooldownTotals(log: seq<Visit>, serial: Serial, first: nat, k: nat)
    requires Lawful(log) && FailsFrom(AttemptsOf(log, serial), first, k) && THRESHOLD < k
    ensures var a := AttemptsOf(log, serial);
      a[first + THRESHOLD - 1].end + TotalRest(k) <= a[first + k - 1].start
    decreases k
  {
    hide Lawful, AttemptsOf, Rest;
    var a := AttemptsOf(log, serial);
    RestsBetween(log, serial, first + k - 1);
    RestsBetween(log, serial, first + k - 2);
    FailuresCounted(a, first, k, k - 1);
    if k - 1 > THRESHOLD {
      CooldownTotals(log, serial, first, k - 1);
    } else {
      assert TotalRest(THRESHOLD) == 0;
    }
  }

  /** In one session, a target that keeps failing, from the start or from its last success on,
      starts its k-th poll, for k of at least seven, no earlier than
      60 + 300 + 900 + 1800 * (k - 6) seconds after its third failure. */
  lemma CooldownBound(log: seq<Visit>, serial: Serial, first: nat, k: nat)
    requires Lawful(log) && FailsFrom(AttemptsOf(log, serial), first, k) && 7 <= k
    ensures var a := AttemptsOf(log, serial);
      a[first + 2].end + 60 + 300 + 900 + 1800 * (k - 6) <= a[first + k - 1].start
  {
    hide Lawful, AttemptsOf, TotalRest;
    CooldownTotals(log, serial, first, k);
    TotalRestClosedForm(k);
  }

  // ---------------------------------------------------------------- the ladder in seconds

  /** The seconds a target rests after failing n times in a row. */
  function Seconds(n: nat): nat {
    if n < 3 then 0 else if n == 3 then 60 else if n == 4 then 300 else if n == 5 then 900 else 1800
  }

  lemma RestInSeconds(n: nat)
    ensures Rest(n) == Seconds(n)
  {
    assert LADDER[0] == 60 && LADDER[1] == 300 && LADDER[2] == 900 && LADDER[3] == 1800 && |LADDER| == 4;
  }

  /** The n polls before poll i failed, and it is not n + 1. */
  predicate FailedInARow(a: seq<Attempt>, i: nat, n: nat) {
    && n <= i <= |a|
    && (forall j :: i - n <= j < i ==> !a[j].ok)
    && (n == i || a[i - n - 1].ok)
  }

  lemma {:induction false} InARowIsCounted(a: seq<Attempt>, i: nat, n: nat)
    requires FailedInARow(a, i, n)
    ensures FailuresBefore(a, i) == n
  {
    if n > 0 {
      InARowIsCounted(a, i - 1, n - 1);
    }
  }

  /** After exactly three, four, five, and six or more failures in a row, the next poll starts at
      least 60, 300, 900 and 1800 seconds after the last of them was recorded. */
  lemma NextPollRests(log: seq<Visit>, serial: Serial, i: nat, n: nat)
    requires Lawful(log) && i < |AttemptsOf(log, serial)| && FailedInARow(AttemptsOf(log, serial), i, n) && n > 0
    ensures var a := AttemptsOf(log, serial);
      && (n == 3 ==> a[i - 1].end + 60 <= a[i].start)
      && (n == 4 ==> a[i - 1].end + 300 <= a[i].start)
      && (n == 5 ==> a[i - 1].end + 900 <= a[i].start)
      && (n >= 6 ==> a[i - 1].end + 1800 <= a[i].start)
  {
    hide Lawful, AttemptsOf, FailuresBefore, Rest;
    InARowIsCounted(AttemptsOf(log, serial), i, n);
    RestsBetween(log, serial, i);
    RestInSeconds(n);
  }

  /** And no longer: a turn is skipped exactly if it comes before that, and else it polls, from
      the time of the turn on. After fewer than three failures no turn is skipped. */
  lemma TurnTaken(log: seq<Visit>, t: Turn, n: nat)
    requires FailedInARow(AttemptsOf(log, t.serial), |AttemptsOf(log, t.serial)|, n)
    ensures var a, v := AttemptsOf(log, t.serial), VisitOf(log, t);
      && v.serial == t.serial
      && (n < 3 ==> !v.Skipped?)
      && (n == 3 ==> (v.Skipped? <==> t.gate < a[|a| - 1].end + 60))
      && (n == 4 ==> (v.Skipped? <==> t.gate < a[|a| - 1].end + 300))
      && (n == 5 ==> (v.Skipped? <==> t.gate < a[|a| - 1].end + 900))
      && (n >= 6 ==> (v.Skipped? <==> t.gate < a[|a| - 1].end + 1800))
      && (v.Skipped? ==> v.at == t.gate)
      && (!v.Skipped? ==> v.start == t.gate)
      && (v.Polled? ==> v.end == t.end)
  {
    hide AttemptsOf, Streak, LastEnd, Rest, FailuresBefore;
    var a := AttemptsOf(log, t.serial);
    StreakOfAttempts(log, t.serial);
    InARowIsCounted(a, |a|, n);
    RestInSeconds(n);
  }

  /** A poll is good exactly when every query of it is answered; else the first that is not
      decides, against the device or against the session. */
  lemma {:induction false} VerdictMeans(answers: seq<Answer>, k: nat)
    requires k <= |answers| && forall j :: 0 <= j < k ==> answers[j] == Answered
    ensures k == |answers| ==> VerdictOf(answers) == Good
    ensures k < |answers| && answers[k] == DeviceFailed ==> VerdictOf(answers) == Bad
    ensures k < |answers| && answers[k] == SessionFailed ==> VerdictOf(answers) == Fatal
  {
    if k > 0 {
      VerdictMeans(answers[1..], k - 1);
    }
  }

  /** What a poll comes to. */
  lemma PollRecorded(log: seq<Visit>, t: Turn)
    requires !VisitOf(log, t).Skipped?
    ensures match VerdictOf(t.answers)
            case Good => VisitOf(log, t).Polled? && VisitOf(log, t).ok
            case Bad => VisitOf(log, t).Polled? && !VisitOf(log, t).ok
            case Fatal => VisitOf(log, t).Aborted?
  {
    hide Streak, LastEnd, Rest, VerdictOf;
  }
}
