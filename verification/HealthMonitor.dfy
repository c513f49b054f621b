/** Watching the speech service: the service's own record of synthesis outcomes
    (scripts/tts_server.py, UpstreamHealth) and the server's periodic check
    that turns it into system alerts (server/system_alerts.go). */
module HealthMonitor {
  import opened Text
  import opened SystemAlerts

  const CONFIRM_SECONDS: real := 60.0
  const UNREACHABLE_THRESHOLD: nat := 3

  datatype Verdict = Failing | Suspect | Good | NoVerdict

  // ---------- outcomes of synthesis ----------

  /** The end of one synthesis. Clock readings are positive. */
  datatype Outcome = Success(at: real) | Failure(at: real)

  /** How many of the latest outcomes are failures in a row. */
  function FailureStreak(trace: seq<Outcome>): (n: nat)
    ensures n <= |trace|
  {
    if trace == [] || trace[|trace| - 1].Success? then 0 else 1 + FailureStreak(trace[..|trace| - 1])
  }

  /** The streak is as long as possible. */
  lemma {:induction false} StreakIsMaximal(trace: seq<Outcome>)
    ensures var n := FailureStreak(trace);
      && (forall i :: |trace| - n <= i < |trace| ==> trace[i].Failure?)
      && (n < |trace| ==> trace[|trace| - n - 1].Success?)
  {
    if trace != [] && trace[|trace| - 1].Failure? { StreakIsMaximal(trace[..|trace| - 1]); }
  }

  predicate EverSucceeded(trace: seq<Outcome>) {
    trace != [] && (trace[|trace| - 1].Success? || EverSucceeded(trace[..|trace| - 1]))
  }

  /** A recorded failure extends the current streak; a success ends it. */
  lemma RecordedOutcome(trace: seq<Outcome>, last: Outcome)
    ensures FailureStreak(trace + [last]) == if last.Failure? then FailureStreak(trace) + 1 else 0
    ensures EverSucceeded(trace + [last]) == (last.Success? || EverSucceeded(trace))
  {
    assert (trace + [last])[..|trace|] == trace;
  }

  /** The current streak has two failures at least and spans a minute. */
  predicate Confirmed(trace: seq<Outcome>) {
    var n := FailureStreak(trace);
    n >= 2 && trace[|trace| - 1].at - trace[|trace| - n].at >= 60.0
  }

  /** The latest outcome is a success. */
  predicate GoodLast(trace: seq<Outcome>) { trace != [] && trace[|trace| - 1].Success? }

  lemma {:induction false} SuccessLast(trace: seq<Outcome>)
    ensures trace != [] ==> (FailureStreak(trace) == 0 <==> trace[|trace| - 1].Success?)
    ensures trace != [] && FailureStreak(trace) == 0 ==> EverSucceeded(trace)
  {
  }

  /** The verdict on a trace of outcomes. */
  function VerdictOf(trace: seq<Outcome>): (verdict: Verdict)
    ensures verdict == Suspect <==> FailureStreak(trace) > 0 && !Confirmed(trace)
    ensures verdict == Good <==> GoodLast(trace)
  {
    SuccessLast(trace);
    if Confirmed(trace) then Failing
    else if trace == [] then NoVerdict
    else if trace[|trace| - 1].Success? then Good
    else Suspect
  }

  class UpstreamHealth {
    var consecutiveFailures: nat
    var failingSince: real
    var lastSuccessAt: real
    var lastFailureAt: real
    var lastOutcomeAt: real

    /** All outcomes recorded so far. */
    ghost var trace: seq<Outcome>

    ghost predicate Valid()
      reads this
    {
      && (forall i :: 0 <= i < |trace| ==> trace[i].at > 0.0)
      && consecutiveFailures == FailureStreak(trace)
      && (consecutiveFailures > 0 ==>
          && failingSince == trace[|trace| - consecutiveFailures].at
          && lastFailureAt == trace[|trace| - 1].at)
      && (lastSuccessAt > 0.0 <==> EverSucceeded(trace))
      && lastSuccessAt >= 0.0
      && lastOutcomeAt == (if trace == [] then 0.0 else trace[|trace| - 1].at)
    }

    constructor ()
      ensures Valid() && trace == []
    {
      consecutiveFailures, failingSince, lastSuccessAt, lastFailureAt, lastOutcomeAt := 0, 0.0, 0.0, 0.0, 0.0;
      trace := [];
    }

    method RecordSuccess(now: real)
      requires Valid() && now > 0.0
      modifies this
      ensures Valid() && trace == old(trace) + [Success(now)]
    {
      consecutiveFailures, failingSince := 0, 0.0;
      lastSuccessAt, lastOutcomeAt := now, now;
      RecordedOutcome(trace, Success(now));
      hide FailureStreak, EverSucceeded;
      trace := trace + [Success(now)];
    }

    method RecordFailure(now: real)
      requires Valid() && now > 0.0
      modifies this
      ensures Valid() && trace == old(trace) + [Failure(now)]
    {
      if consecutiveFailures == 0 { failingSince := now; }
      consecutiveFailures := consecutiveFailures + 1;
      lastFailureAt, lastOutcomeAt := now, now;
      RecordedOutcome(trace, Failure(now));
      hide FailureStreak, EverSucceeded;
      trace := trace + [Failure(now)];
    }

    /** The status that GET /health reports, in terms of the outcome trace. */
    method Status() returns (verdict: Verdict)
      requires Valid()
      ensures verdict == Failing <==> Confirmed(trace)
      ensures verdict == Suspect <==> FailureStreak(trace) > 0 && !Confirmed(trace)
      ensures verdict == Good <==> trace != [] && trace[|trace| - 1].Success?
      ensures verdict == NoVerdict <==> trace == []
      ensures verdict == VerdictOf(trace)
    {
      SuccessLast(trace);
      if consecutiveFailures > 0 {
        var persisted := lastFailureAt - failingSince >= CONFIRM_SECONDS;
        return if consecutiveFailures >= 2 && persisted then Failing else Suspect;
      }
      return if lastSuccessAt != 0.0 then Good else NoVerdict;
    }
  }

  // ---------- the periodic check ----------

  /** One check: an error, a service without the endpoint, or its verdict. */
  datatype Check = Error | Unsupported | Answer(verdict: Verdict)

  function ErrorStreak(checks: seq<Check>): nat {
    if checks == [] || !checks[|checks| - 1].Error? then 0 else 1 + ErrorStreak(checks[..|checks| - 1])
  }

  /** The number of maximal runs of errors that have reached the threshold. */
  function LongStreaks(checks: seq<Check>): nat {
    if checks == [] then 0
    else LongStreaks(checks[..|checks| - 1]) + (if ErrorStreak(checks) == 3 then 1 else 0)
  }

  /** The last three checks, or more, have all failed. */
  predicate Unreachable(checks: seq<Check>) {
    |checks| >= 3 && checks[|checks| - 1].Error? && checks[|checks| - 2].Error? && checks[|checks| - 3].Error?
  }

  /** The latest check that said "failing" or "ok" said "failing". */
  predicate SaidFailing(checks: seq<Check>) {
    if checks == [] then false
    else
      var last := checks[|checks| - 1];
      if last == Answer(Failing) then true
      else if last == Answer(Good) then false
      else SaidFailing(checks[..|checks| - 1])
  }

  lemma RecordedCheck(checks: seq<Check>, last: Check)
    ensures var n := if last.Error? then ErrorStreak(checks) + 1 else 0;
      && ErrorStreak(checks + [last]) == n
      && LongStreaks(checks + [last]) == LongStreaks(checks) + (if n == UNREACHABLE_THRESHOLD then 1 else 0)
    ensures SaidFailing(checks + [last]) ==
      (last == Answer(Failing) || (last != Answer(Good) && SaidFailing(checks)))
  {
    assert (checks + [last])[..|checks|] == checks;
  }

  lemma {:induction false} ThresholdIsUnreachable(checks: seq<Check>)
    ensures ErrorStreak(checks) >= UNREACHABLE_THRESHOLD <==> Unreachable(checks)
  {
    if checks != [] && checks[|checks| - 1].Error? {
      var front := checks[..|checks| - 1];
      if front != [] && front[|front| - 1].Error? {
        assert ErrorStreak(front) == 1 + ErrorStreak(front[..|front| - 1]);
      }
    }
  }

  /** "tts" */
  const SOURCE: Text := [0x74, 0x74, 0x73]

  /** "tts.service" */
  const SERVICE_KEY: Text := SOURCE + [0x2E, 0x73, 0x65, 0x72, 0x76, 0x69, 0x63, 0x65]

  /** "tts.upstream" */
  const UPSTREAM_KEY: Text := SOURCE + [0x2E, 0x75, 0x70, 0x73, 0x74, 0x72, 0x65, 0x61, 0x6D]

  lemma {:induction false} Utf8SizeBound(s: Text)
    ensures Utf8Size(s) <= 4 * |s|
  {
    if s != [] { Utf8SizeBound(s[1..]); }
  }

  /** A key or source of lower-case letters and dots is accepted as it is. */
  lemma PlainText(s: Text)
    requires 0 < |s| <= 25 && s[0] == 0x74 && 0x61 <= s[|s| - 1] <= 0x7A
    ensures GoTrim(s) == s && 0 < Utf8Size(s) <= 100
  {
    assert !GoSpace(s[0]) && !GoSpace(s[|s| - 1]);
    Utf8SizeBound(s);
    hide Trim, GoSpace;
    TrimTrims(s, GoSpace);
  }

  /** The two alerts that the monitor raises. */
  datatype Problem = ServiceDown | UpstreamFailing {
    function Key(): Text { if ServiceDown? then SERVICE_KEY else UPSTREAM_KEY }

    ghost predicate Reported(db: Table) { IsOpen(db, Key()) }
  }

  lemma KeysDiffer(p: Problem, q: Problem)
    ensures p.Key() == q.Key() <==> p == q
  {
    assert |SERVICE_KEY| != |UPSTREAM_KEY|;
  }

  lemma KeyIsTrimmed(problem: Problem)
    ensures GoTrim(problem.Key()) == problem.Key()
  {
    hide GoTrim;
    PlainText(problem.Key());
  }

  /** The monitor's alerts are well formed, whatever their details. */
  lemma MonitorFieldsNormalize(problem: Problem, title: Text, details: Text)
    requires GoTrim(title) != []
    ensures var r := Normalize(Fields(problem.Key(), SOURCE, title, details)); r.Ok? && r.value.key == problem.Key()
  {
    hide GoTrim, Utf8Size, Clip;
    PlainText(problem.Key());
    PlainText(SOURCE);
  }

  /** Administrators who acknowledge alerts do not disturb what the monitor reports. */
  lemma AcknowledgingIsHarmless(db: Table, i: SystemAlerts.Id, user: SystemAlerts.Id, now: int, p: Problem)
    ensures p.Reported(AcknowledgeAll(db, user, now)) == p.Reported(db)
    ensures i in db ==> p.Reported(db[i := Acknowledge(db[i], user, now)]) == p.Reported(db)
  {
    hide Problem.Key;
    if p.Reported(db) {
      var a :| a in db && OpenFor(db[a], p.Key());
      assert OpenFor(AcknowledgeAll(db, user, now)[a], p.Key());
      if i in db { assert OpenFor(db[i := Acknowledge(db[i], user, now)][a], p.Key()); }
    }
    if p.Reported(AcknowledgeAll(db, user, now)) {
      var a :| a in AcknowledgeAll(db, user, now) && OpenFor(AcknowledgeAll(db, user, now)[a], p.Key());
      assert OpenFor(db[a], p.Key());
    }
    if i in db && p.Reported(db[i := Acknowledge(db[i], user, now)]) {
      var a :| a in db && OpenFor(db[i := Acknowledge(db[i], user, now)][a], p.Key());
      assert OpenFor(db[a], p.Key());
    }
  }

  // ---------- the check as a sequence of store calls ----------

  /** One of the monitor's alerts is raised. */
  ghost predicate RaisedAlert(db: Table, p: Problem, title: Text, text: Text, now: int, id: Id, db': Table,
                              newlyOpen: bool)
  {
    var r := Normalize(Fields(p.Key(), SOURCE, title, text));
    r.Ok? && Raised(db, r.value, now, id, db', newlyOpen)
  }

  function ResolvedAlert(db: Table, p: Problem, text: Text, now: int): Table {
    Resolve(db, GoTrim(p.Key()), Clip(GoTrim(text), RESOLUTION_MAX), now)
  }

  /** What checkTTSHealth does to the table; `unreachable` already counts the check. */
  ghost predicate Reacts(db: Table, result: Check, unreachable: nat, title: Text, text: Text, now: int, id: Id,
                         db': Table)
  {
    match result
    case Unsupported => db' == ResolvedAlert(db, ServiceDown, text, now)
    case Error =>
      if unreachable >= UNREACHABLE_THRESHOLD
      then exists newlyOpen :: RaisedAlert(db, ServiceDown, title, text, now, id, db', newlyOpen)
      else db' == db
    case Answer(verdict) =>
      var mid := ResolvedAlert(db, ServiceDown, text, now);
      if verdict == Failing
      then exists newlyOpen :: RaisedAlert(mid, UpstreamFailing, title, text, now, id, db', newlyOpen)
      else if verdict == Good then db' == ResolvedAlert(mid, UpstreamFailing, text, now)
      else db' == mid
  }

  lemma RaisedReports(db: Table, p: Problem, title: Text, text: Text, now: int, id: Id, db': Table, newlyOpen: bool)
    requires RaisedAlert(db, p, title, text, now, id, db', newlyOpen) && GoTrim(title) != []
    ensures p.Reported(db') && (newlyOpen <==> !p.Reported(db))
    ensures forall q: Problem :: q != p ==> q.Reported(db') == q.Reported(db)
  {
    MonitorFieldsNormalize(p, title, text);
    hide Normalize, Raised, IsOpen, GoTrim, Problem.Key;
    var f := Normalize(Fields(p.Key(), SOURCE, title, text)).value;
    RaisedOpens(db, f, now, id, db', newlyOpen, p.Key());
    forall q: Problem | q != p ensures q.Reported(db') == q.Reported(db) {
      RaisedOpens(db, f, now, id, db', newlyOpen, q.Key());
      KeysDiffer(q, p);
    }
  }

  lemma ResolvedReports(db: Table, p: Problem, text: Text, now: int)
    ensures var db' := ResolvedAlert(db, p, text, now);
      && !p.Reported(db') && db'.Keys == db.Keys
      && forall q: Problem :: q != p ==> q.Reported(db') == q.Reported(db)
  {
    hide IsOpen, GoTrim, Clip, Problem.Key, Resolve;
    KeyIsTrimmed(p);
    var note := Clip(GoTrim(text), RESOLUTION_MAX);
    var db' := ResolvedAlert(db, p, text, now);
    ResolveCloses(db, p.Key(), note, now, p.Key());
    forall q: Problem | q != p ensures q.Reported(db') == q.Reported(db) {
      ResolveCloses(db, p.Key(), note, now, q.Key());
      KeysDiffer(q, p);
    }
  }

  /** The alerts and the counter follow the checks. */
  ghost predicate Follows(unreachable: nat, db: Table, checks: seq<Check>) {
    && unreachable == ErrorStreak(checks)
    && (ServiceDown.Reported(db) <==> unreachable >= UNREACHABLE_THRESHOLD)
    && (UpstreamFailing.Reported(db) <==> SaidFailing(checks))
  }

  function Counted(unreachable: nat, result: Check): nat { if result.Error? then unreachable + 1 else 0 }

  /** A raise of the service alert that opens it. */
  ghost predicate Opens(db: Table, db': Table) { ServiceDown.Reported(db') && !ServiceDown.Reported(db) }

  lemma ReactionFollows(db: Table, result: Check, unreachable: nat, title: Text, text: Text, now: int, id: Id,
                        db': Table,
                        checks: seq<Check>)
    requires Follows(unreachable, db, checks) && GoTrim(title) != []
    requires Reacts(db, result, Counted(unreachable, result), title, text, now, id, db')
    ensures Follows(Counted(unreachable, result), db', checks + [result])
    ensures LongStreaks(checks + [result]) == LongStreaks(checks) + if Opens(db, db') then 1 else 0
  {
    RecordedCheck(checks, result);
    hide ErrorStreak, LongStreaks, SaidFailing, Problem.Reported, GoTrim, RaisedAlert, ResolvedAlert;
    match result
    case Unsupported => ResolvedReports(db, ServiceDown, text, now);
    case Error =>
      if unreachable + 1 >= UNREACHABLE_THRESHOLD {
        var newlyOpen :| RaisedAlert(db, ServiceDown, title, text, now, id, db', newlyOpen);
        RaisedReports(db, ServiceDown, title, text, now, id, db', newlyOpen);
      }
    case Answer(verdict) =>
      var mid := ResolvedAlert(db, ServiceDown, text, now);
      ResolvedReports(db, ServiceDown, text, now);
      if verdict == Failing {
        var newlyOpen :| RaisedAlert(mid, UpstreamFailing, title, text, now, id, db', newlyOpen);
        RaisedReports(mid, UpstreamFailing, title, text, now, id, db', newlyOpen);
      } else if verdict == Good {
        ResolvedReports(mid, UpstreamFailing, text, now);
      }
  }

  lemma SameIds(db: Table, p: Problem, text: Text, now: int)
    ensures ResolvedAlert(db, p, text, now).Keys == db.Keys
  {
    hide GoTrim, Clip, OpenFor, Problem.Key;
  }

  lemma {:induction false} StreakFits(checks: seq<Check>)
    ensures ErrorStreak(checks) <= |checks|
  {
    if checks != [] { StreakFits(checks[..|checks| - 1]); }
  }

  /** A store call that failed before is made good: whatever the table holds, an
      answer closes the service alert, a third error opens it, and a failing or
      good verdict sets the upstream alert. */
  lemma ChecksHeal(db: Table, result: Check, unreachable: nat, title: Text, text: Text, now: int, id: Id, db': Table)
    requires GoTrim(title) != [] && Reacts(db, result, unreachable, title, text, now, id, db')
    ensures !result.Error? ==> !ServiceDown.Reported(db')
    ensures result.Error? && unreachable >= UNREACHABLE_THRESHOLD ==> ServiceDown.Reported(db')
    ensures result == Answer(Failing) ==> UpstreamFailing.Reported(db')
    ensures result == Answer(Good) ==> !UpstreamFailing.Reported(db')
  {
    hide Problem.Reported, GoTrim, RaisedAlert, ResolvedAlert;
    if result.Error? {
      if unreachable >= UNREACHABLE_THRESHOLD {
        var newlyOpen :| RaisedAlert(db, ServiceDown, title, text, now, id, db', newlyOpen);
        RaisedReports(db, ServiceDown, title, text, now, id, db', newlyOpen);
      }
    } else {
      var mid := ResolvedAlert(db, ServiceDown, text, now);
      ResolvedReports(db, ServiceDown, text, now);
      if result == Answer(Failing) {
        var newlyOpen :| RaisedAlert(mid, UpstreamFailing, title, text, now, id, db', newlyOpen);
        RaisedReports(mid, UpstreamFailing, title, text, now, id, db', newlyOpen);
      } else if result == Answer(Good) {
        ResolvedReports(mid, UpstreamFailing, text, now);
      }
    }
  }

  // ---------- runs with other users of the alert table ----------

  /** A check, or a call of the store by somebody else. */
  datatype MonitorEvent =
    | CheckMade(result: Check, title: Text, text: Text, now: int, id: Id)
    | Elsewhere(event: Event)

  datatype MonitorState = MonitorState(unreachable: nat, alerts: Table)

  predicate MonitorKey(key: Text) { key == ServiceDown.Key() || key == UpstreamFailing.Key() }

  /** Others acknowledge what they like, but raise and resolve alerts of their own keys only. */
  predicate KeepsOff(e: Event) {
    && (e.Raise? && Normalize(e.fields).Ok? ==> !MonitorKey(Normalize(e.fields).value.key))
    && (e.ResolveEvent? ==> !MonitorKey(GoTrim(e.key)))
  }

  ghost predicate MonitorStep(s: MonitorState, e: MonitorEvent, s': MonitorState) {
    match e
    case CheckMade(result, title, text, now, id) =>
      && GoTrim(title) != [] && s'.unreachable == Counted(s.unreachable, result)
      && Reacts(s.alerts, result, s'.unreachable, title, text, now, id, s'.alerts)
    case Elsewhere(event) => KeepsOff(event) && s'.unreachable == s.unreachable && Step(s.alerts, event, s'.alerts)
  }

  ghost predicate IsMonitorRun(events: seq<MonitorEvent>, states: seq<MonitorState>) {
    && |states| == |events| + 1 && states[0] == MonitorState(0, map[])
    && (forall i, j :: 0 <= i < j <= |events| && j == i + 1 ==> MonitorStep(states[i], events[i], states[j]))
  }

  /** The results of the checks among the events. */
  function ChecksOf(events: seq<MonitorEvent>): seq<Check> {
    if events == [] then []
    else
      var last := events[|events| - 1];
      ChecksOf(events[..|events| - 1]) + if last.CheckMade? then [last.result] else []
  }

  /** How many checks among the first `n` events opened the service alert. */
  ghost function Openings(events: seq<MonitorEvent>, states: seq<MonitorState>, n: nat): nat
    requires n <= |events| < |states|
  {
    if n == 0 then 0
    else
      var isNew := events[n - 1].CheckMade? && Opens(states[n - 1].alerts, states[n].alerts);
      Openings(events, states, n - 1) + if isNew then 1 else 0
  }

  lemma ElsewhereIsHarmless(db: Table, e: Event, db': Table, p: Problem)
    requires KeepsOff(e) && Step(db, e, db')
    ensures p.Reported(db') == p.Reported(db)
  {
    hide Normalize, Raised, InsertFails, IsOpen, GoTrim, Clip, Resolve, Problem.Key, AcknowledgeAll, Acknowledge;
    match e
    case Raise(now, fields, id) =>
      if db' != db {
        var f := Normalize(fields).value;
        var newlyOpen :| Raised(db, f, now, id, db', newlyOpen);
        RaisedOpens(db, f, now, id, db', newlyOpen, p.Key());
      }
    case ResolveEvent(now, key, resolution) =>
      ResolveCloses(db, GoTrim(key), Clip(GoTrim(resolution), RESOLUTION_MAX), now, p.Key());
    case AcknowledgeEvent(now, id, user) => AcknowledgingIsHarmless(db, id, user, now, p);
    case AcknowledgeAllEvent(now, user) => AcknowledgingIsHarmless(db, [], user, now, p);
  }

  lemma NothingReported()
    ensures Follows(0, map[], [])
  {
  }

  lemma NoStreaks()
    ensures LongStreaks([]) == 0
  {
  }

  lemma StepFollows(s: MonitorState, e: MonitorEvent, s': MonitorState, checks: seq<Check>)
    requires MonitorStep(s, e, s') && Follows(s.unreachable, s.alerts, checks)
    ensures var checks' := checks + if e.CheckMade? then [e.result] else [];
      && Follows(s'.unreachable, s'.alerts, checks')
      && LongStreaks(checks') == LongStreaks(checks) + if e.CheckMade? && Opens(s.alerts, s'.alerts) then 1 else 0
  {
    hide Reacts, Opens, LongStreaks, Problem.Reported, Step, KeepsOff, ErrorStreak, SaidFailing, GoTrim;
    if e.CheckMade? {
      ReactionFollows(s.alerts, e.result, s.unreachable, e.title, e.text, e.now, e.id, s'.alerts, checks);
    } else {
      ElsewhereIsHarmless(s.alerts, e.event, s'.alerts, ServiceDown);
      ElsewhereIsHarmless(s.alerts, e.event, s'.alerts, UpstreamFailing);
      assert checks + [] == checks;
    }
  }

  lemma {:induction false} RunFollows(events: seq<MonitorEvent>, states: seq<MonitorState>, n: nat)
    requires IsMonitorRun(events, states) && n <= |events|
    ensures Follows(states[n].unreachable, states[n].alerts, ChecksOf(events[..n]))
    ensures Openings(events, states, n) == LongStreaks(ChecksOf(events[..n]))
  {
    hide Follows, MonitorStep, Opens, LongStreaks;
    if n == 0 {
      NothingReported();
      NoStreaks();
    } else {
      RunFollows(events, states, n - 1);
      assert events[..n][..n - 1] == events[..n - 1] && events[..n][n - 1] == events[n - 1];
      StepFollows(states[n - 1], events[n - 1], states[n], ChecksOf(events[..n - 1]));
    }
  }

  /** In every run, whatever others do with the alert table in between: the
      service alert is open exactly when the last three checks or more failed,
      the upstream alert exactly when the latest failing/ok answer said failing,
      and the service alert was opened once for every streak of three errors. */
  lemma MonitorTellsTheTrace(events: seq<MonitorEvent>, states: seq<MonitorState>, n: nat)
    requires IsMonitorRun(events, states) && n <= |events|
    ensures var checks, alerts := ChecksOf(events[..n]), states[n].alerts;
      && (ServiceDown.Reported(alerts) <==> Unreachable(checks))
      && (UpstreamFailing.Reported(alerts) <==> SaidFailing(checks))
      && Openings(events, states, n) == LongStreaks(checks)
  {
    hide IsMonitorRun, ChecksOf, Problem.Reported, ErrorStreak, LongStreaks, SaidFailing, Unreachable, Openings;
    RunFollows(events, states, n);
    ThresholdIsUnreachable(ChecksOf(events[..n]));
  }

  // ---------- from synthesis to the alert ----------

  /** A synthesis of the service, a restart that forgets its record, or an event at the monitor. */
  datatype Happening = Synthesis(outcome: Outcome) | Restart | AtMonitor(event: MonitorEvent)

  /** What the service has on record. */
  function TraceOf(past: seq<Happening>): seq<Outcome> {
    if past == [] then []
    else
      var front, last := past[..|past| - 1], past[|past| - 1];
      match last
      case Synthesis(outcome) => TraceOf(front) + [outcome]
      case Restart => []
      case AtMonitor(_) => TraceOf(front)
  }

  function MonitorEvents(past: seq<Happening>): seq<MonitorEvent> {
    if past == [] then []
    else
      var last := past[|past| - 1];
      MonitorEvents(past[..|past| - 1]) + if last.AtMonitor? then [last.event] else []
  }

  /** A check that the service answers with a verdict. */
  predicate Answered(h: Happening) { h.AtMonitor? && h.event.CheckMade? && h.event.result.Answer? }

  /** The service answers with the verdict on what it has on record. */
  ghost predicate Honest(past: seq<Happening>) {
    forall i :: 0 <= i < |past| && Answered(past[i]) ==>
      past[i].event.result.verdict == VerdictOf(TraceOf(past[..i]))
  }

  /** Check `i` was answered while the current failures were confirmed. */
  ghost predicate SawConfirmed(past: seq<Happening>, i: nat)
    requires i < |past|
  {
    Answered(past[i]) && Confirmed(TraceOf(past[..i]))
  }

  /** Check `i` was answered while the latest synthesis had succeeded. */
  ghost predicate SawSuccess(past: seq<Happening>, i: nat)
    requires i < |past|
  {
    Answered(past[i]) && GoodLast(TraceOf(past[..i]))
  }

  /** A check saw confirmed failures, and none since has seen a success. */
  ghost predicate FailuresSeen(past: seq<Happening>, n: nat)
    requires n <= |past|
  {
    exists i :: 0 <= i < n && SawConfirmed(past, i) && forall j :: i < j < n ==> !SawSuccess(past, j)
  }

  lemma FailuresSeenNext(past: seq<Happening>, n: nat)
    requires n < |past|
    ensures FailuresSeen(past, n + 1) <==> SawConfirmed(past, n) || (FailuresSeen(past, n) && !SawSuccess(past, n))
  {
    hide SawConfirmed, SawSuccess;
    if FailuresSeen(past, n) && !SawSuccess(past, n) {
      var i :| 0 <= i < n && SawConfirmed(past, i) && forall j :: i < j < n ==> !SawSuccess(past, j);
      assert forall j :: i < j < n + 1 ==> !SawSuccess(past, j);
    }
    if FailuresSeen(past, n + 1) && !SawConfirmed(past, n) {
      var i :| 0 <= i < n + 1 && SawConfirmed(past, i) && forall j :: i < j < n + 1 ==> !SawSuccess(past, j);
      assert i < n;
    }
  }

  lemma RecordedEvent(events: seq<MonitorEvent>, last: MonitorEvent)
    ensures ChecksOf(events + [last]) == ChecksOf(events) + if last.CheckMade? then [last.result] else []
  {
    assert (events + [last])[..|events|] == events;
  }

  lemma VerdictSays(trace: seq<Outcome>)
    ensures VerdictOf(trace) == Failing <==> Confirmed(trace)
    ensures VerdictOf(trace) == Good <==> GoodLast(trace)
  {
  }

  /** What the next happening adds to what the monitor has been told. */
  lemma SaidFailingNext(past: seq<Happening>, n: nat)
    requires Honest(past) && n < |past|
    ensures SaidFailing(ChecksOf(MonitorEvents(past[..n + 1]))) <==>
      SawConfirmed(past, n) || (SaidFailing(ChecksOf(MonitorEvents(past[..n]))) && !SawSuccess(past, n))
  {
    hide SaidFailing, ChecksOf, TraceOf, VerdictOf, Confirmed, GoodLast;
    var last, trace := past[n], TraceOf(past[..n]);
    var before := MonitorEvents(past[..n]);
    var checks := ChecksOf(before);
    assert past[..n + 1][..n] == past[..n] && past[..n + 1][n] == last;
    if last.AtMonitor? && last.event.CheckMade? {
      var result := last.event.result;
      assert ChecksOf(before + [last.event]) == checks + [result] by { RecordedEvent(before, last.event); }
      RecordedCheck(checks, result);
      VerdictSays(trace);
    } else if last.AtMonitor? {
      RecordedEvent(before, last.event);
      assert checks + [] == checks;
    } else {
      assert before + [] == before;
    }
  }

  lemma {:induction false} SaidFailingSees(past: seq<Happening>, n: nat)
    requires Honest(past) && n <= |past|
    ensures SaidFailing(ChecksOf(MonitorEvents(past[..n]))) <==> FailuresSeen(past, n)
  {
    hide Honest, SawConfirmed, SawSuccess;
    if n > 0 {
      hide FailuresSeen, SaidFailing, ChecksOf, MonitorEvents;
      SaidFailingSees(past, n - 1);
      SaidFailingNext(past, n - 1);
      FailuresSeenNext(past, n - 1);
    }
  }

  /** From the outcomes of synthesis to the alert, over every run of the service
      and of the monitor: the upstream alert is open exactly if some check came
      while the failures in a row were two at least and spanned a minute, and no
      check since has come while the latest outcome was a success. */
  lemma AlertTellsOutcomes(past: seq<Happening>, states: seq<MonitorState>)
    requires Honest(past) && IsMonitorRun(MonitorEvents(past), states)
    ensures UpstreamFailing.Reported(states[|states| - 1].alerts) <==> FailuresSeen(past, |past|)
  {
    hide Honest, MonitorStep, ChecksOf, MonitorEvents, FailuresSeen, SaidFailing, Problem.Reported;
    var events := MonitorEvents(past);
    assert |states| == |events| + 1;
    MonitorTellsTheTrace(events, states, |events|);
    assert events[..|events|] == events && past[..|past|] == past;
    SaidFailingSees(past, |past|);
  }

  class TTSMonitor {
    var unreachable: nat
    var unreachableSince: int
    const store: AlertStore

    /** All checks so far with their times, and how many raises opened the service alert. */
    ghost var checks: seq<Check>
    ghost var times: seq<int>
    ghost var openings: nat

    ghost predicate Valid()
      reads this, store
    {
      && Follows(unreachable, store.alerts, checks) && |times| == |checks|
      && (unreachable > 0 ==> unreachable <= |times| && unreachableSince == times[|times| - unreachable])
      && openings == LongStreaks(checks)
    }

    constructor (store: AlertStore)
      requires store.alerts == map[]
      ensures Valid() && this.store == store && checks == []
    {
      this.store := store;
      unreachable, unreachableSince := 0, 0;
      checks, times, openings := [], [], 0;
    }

    /** Raises one of the monitor's alerts; `id` is a fresh random id. */
    method Raise(problem: Problem, title: Text, text: Text, now: int, id: Id) returns (newlyOpen: bool)
      requires GoTrim(title) != [] && id !in store.alerts
      modifies store`alerts
      ensures RaisedAlert(old(store.alerts), problem, title, text, now, id, store.alerts, newlyOpen)
    {
      MonitorFieldsNormalize(problem, title, text);
      hide Normalize, Raised, IsOpen, GoTrim, Problem.Key;
      var fields := Fields(problem.Key(), SOURCE, title, text);
      var r := store.RaiseSystemAlert(fields, now, id);
      newlyOpen := r.value;
    }

    method ResolveAlert(problem: Problem, resolution: Text, now: int)
      modifies store`alerts
      ensures store.alerts == ResolvedAlert(old(store.alerts), problem, resolution, now)
    {
      hide IsOpen, GoTrim, Clip, Problem.Key, Resolve;
      var _ := store.ResolveSystemAlert(problem.Key(), resolution, now);
    }

    /** checkTTSHealth: the alerts afterwards follow the checks made so far. */
    method CheckTTSHealth(result: Check, title: Text, text: Text, now: int, id: Id)
      requires Valid() && GoTrim(title) != [] && id !in store.alerts
      modifies this, store`alerts
      ensures Valid() && checks == old(checks) + [result] && times == old(times) + [now]
      ensures MonitorStep(MonitorState(old(unreachable), old(store.alerts)), CheckMade(result, title, text, now, id),
                          MonitorState(unreachable, store.alerts))
      ensures openings == old(openings) + if Opens(old(store.alerts), store.alerts) then 1 else 0
    {
      hide Follows, Opens, LongStreaks, RaisedAlert, ResolvedAlert, GoTrim, ErrorStreak, SaidFailing;
      ghost var before := store.alerts;
      StreakFits(checks);
      match result {
        case Unsupported =>
          unreachable := 0;
          ResolveAlert(ServiceDown, text, now);
        case Error =>
          if unreachable == 0 { unreachableSince := now; }
          unreachable := unreachable + 1;
          if unreachable >= UNREACHABLE_THRESHOLD {
            var _ := Raise(ServiceDown, title, text, now, id);
          }
        case Answer(verdict) =>
          unreachable := 0;
          ResolveAlert(ServiceDown, text, now);
          ghost var mid := store.alerts;
          SameIds(before, ServiceDown, text, now);
          if verdict == Failing {
            var _ := Raise(UpstreamFailing, title, text, now, id);
          } else if verdict == Good {
            ResolveAlert(UpstreamFailing, text, now);
          }
      }
      ReactionFollows(before, result, old(unreachable), title, text, now, id, store.alerts, checks);
      openings := openings + if Opens(before, store.alerts) then 1 else 0;
      checks, times := checks + [result], times + [now];
    }
  }
}
