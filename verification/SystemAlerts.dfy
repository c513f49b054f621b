/** The system alert table (auth/sqlite.go): alerts are raised and resolved by
    background checks and acknowledged by administrators. Texts are sequences
    of code points; times are seconds. */
module SystemAlerts {
  import opened Outcomes
  import opened Text

  const KEY_MAX: nat := 100
  const SOURCE_MAX: nat := 100
  const TITLE_MAX: nat := 300
  const DETAILS_MAX: nat := 5000
  const RESOLUTION_MAX: nat := 1000

  const DAY: int := 86_400
  const REOPEN_WINDOW: int := DAY
  const RETENTION: int := 90 * DAY

  type Id = Text

  /** Open, or resolved at some time with an explanation. */
  datatype Status = Open | Resolved(at: int, resolution: Text)

  datatype Acknowledgement = Acknowledgement(at: int, reader: Id)

  datatype Alert = Alert(
    key: Text,
    source: Text,
    title: Text,
    details: Text,
    status: Status,
    occurrences: nat,
    firstSeen: int,
    lastSeen: int,
    acknowledged: Option<Acknowledgement>)

  type Table = map<Id, Alert>

  // ---------- texts ----------

  const ELLIPSIS: nat := 0x2026

  /** The longest front part that starts its last character at or before `limit`, less that character. */
  function FrontWithin(s: Text, limit: int): Text {
    if s == [] || CodePointSize(s[0]) > limit then [] else [s[0]] + FrontWithin(s[1..], limit - CodePointSize(s[0]))
  }

  /** clipSystemAlertText */
  function Clip(s: Text, max: nat): Text {
    if Utf8Size(s) <= max then s else FrontWithin(s, max - 3) + [ELLIPSIS]
  }

  lemma {:induction false} FrontWithinFits(s: Text, limit: int)
    requires 0 <= limit
    ensures Utf8Size(FrontWithin(s, limit)) <= limit
    ensures FrontWithin(s, limit) <= s
    ensures FrontWithin(s, limit) != s ==>
      limit < Utf8Size(FrontWithin(s, limit)) + CodePointSize(s[|FrontWithin(s, limit)|])
  {
    if s != [] && CodePointSize(s[0]) <= limit {
      FrontWithinFits(s[1..], limit - CodePointSize(s[0]));
      assert FrontWithin(s, limit)[1..] == FrontWithin(s[1..], limit - CodePointSize(s[0]));
    }
  }

  /** Clipping keeps a text that fits, and otherwise yields the longest front
      part of whole characters that fits together with an ellipsis. */
  lemma ClipFits(s: Text, max: nat)
    requires max >= 3
    ensures Utf8Size(Clip(s, max)) <= max
    ensures Utf8Size(s) <= max ==> Clip(s, max) == s
    ensures Utf8Size(s) > max ==>
      exists n :: 0 <= n < |s| && Clip(s, max) == s[..n] + [ELLIPSIS]
        && max - 3 < Utf8Size(s[..n]) + CodePointSize(s[n])
  {
    if Utf8Size(s) > max {
      var front := FrontWithin(s, max - 3);
      FrontWithinFits(s, max - 3);
      Utf8SizeConcat(front, [ELLIPSIS]);
      assert Utf8Size([ELLIPSIS]) == 3;
      assert s[..|front|] == front;
    }
  }

  datatype Fields = Fields(key: Text, source: Text, title: Text, details: Text)

  datatype Error = InvalidKey | InvalidSource | TitleRequired | NotFound | UnknownUser | IdTaken

  /** normalizeSystemAlertFields */
  function Normalize(f: Fields): Result<Fields, Error> {
    var key, source, title := GoTrim(f.key), GoTrim(f.source), GoTrim(f.title);
    if key == [] || Utf8Size(key) > KEY_MAX then Err(InvalidKey)
    else if source == [] || Utf8Size(source) > SOURCE_MAX then Err(InvalidSource)
    else if title == [] then Err(TitleRequired)
    else Ok(Fields(key, source, Clip(title, TITLE_MAX), Clip(GoTrim(f.details), DETAILS_MAX)))
  }

  // ---------- the table ----------

  predicate OpenFor(a: Alert, key: Text) { a.key == key && a.status.Open? }

  /** Resolved recently enough to be reopened at `now`. */
  predicate Reopenable(a: Alert, key: Text, now: int) {
    a.key == key && a.status.Resolved? && a.status.at >= now - REOPEN_WINDOW
  }

  ghost predicate IsOpen(db: Table, key: Text) {
    exists i :: i in db && OpenFor(db[i], key)
  }

  function Refresh(a: Alert, f: Fields, now: int): Alert {
    a.(source := f.source, title := f.title, details := f.details, lastSeen := now)
  }

  function Reopen(a: Alert, f: Fields, now: int): Alert {
    Refresh(a, f, now).(status := Open, occurrences := a.occurrences + 1, acknowledged := None)
  }

  function NewAlert(f: Fields, now: int): Alert {
    Alert(f.key, f.source, f.title, f.details, Open, 1, now, now, None)
  }

  function RefreshOpen(db: Table, f: Fields, now: int): Table {
    map i | i in db :: if OpenFor(db[i], f.key) then Refresh(db[i], f, now) else db[i]
  }

  predicate Expired(a: Alert, now: int) {
    a.status.Resolved? && a.status.at < now - RETENTION
  }

  function Prune(db: Table, now: int): Table {
    map i | i in db && !Expired(db[i], now) :: db[i]
  }

  /** i is among the most recently resolved reopenable alerts for the key. */
  ghost predicate IsLatest(db: Table, key: Text, now: int, i: Id) {
    && i in db && Reopenable(db[i], key, now)
    && forall j :: j in db && Reopenable(db[j], key, now) ==> db[j].status.at <= db[i].status.at
  }

  /** Effect of raising an alert; `newlyOpen` tells whether one was opened or reopened. */
  ghost predicate Raised(db: Table, f: Fields, now: int, id: Id, db': Table, newlyOpen: bool) {
    if IsOpen(db, f.key) then !newlyOpen && db' == RefreshOpen(db, f, now)
    else
      && newlyOpen
      && if exists i :: i in db && Reopenable(db[i], f.key, now)
         then exists i :: IsLatest(db, f.key, now, i) && db' == Prune(db[i := Reopen(db[i], f, now)], now)
         else id !in db && db' == Prune(db[id := NewAlert(f, now)], now)
  }

  /** A new alert cannot be inserted under an id that is taken. */
  ghost predicate InsertFails(db: Table, f: Fields, now: int, id: Id) {
    !IsOpen(db, f.key) && (forall i :: i in db ==> !Reopenable(db[i], f.key, now)) && id in db
  }

  function Resolve(db: Table, key: Text, resolution: Text, now: int): Table {
    map i | i in db :: if OpenFor(db[i], key) then db[i].(status := Resolved(now, resolution)) else db[i]
  }

  function Acknowledge(a: Alert, user: Id, now: int): Alert {
    if a.acknowledged.None? then a.(acknowledged := Some(Acknowledgement(now, user))) else a
  }

  function AcknowledgeAll(db: Table, user: Id, now: int): Table {
    map i | i in db :: Acknowledge(db[i], user, now)
  }

  // ---------- what every run keeps ----------

  /** a was resolved more than a day before b was first seen. */
  predicate Before(a: Alert, b: Alert) {
    a.status.Resolved? && a.status.at + DAY < b.firstSeen
  }

  predicate DayApart(a: Alert, b: Alert) { Before(a, b) || Before(b, a) }

  ghost predicate Sane(a: Alert, now: int) {
    && a.firstSeen <= a.lastSeen <= now
    && (a.status.Resolved? ==> a.firstSeen <= a.status.at <= now)
  }

  ghost predicate Apart(db: Table) {
    forall i, j :: i in db && j in db && i != j && db[i].key == db[j].key ==>
      DayApart(db[i], db[j])
  }

  ghost predicate Invariant(db: Table, now: int) {
    (forall i :: i in db ==> Sane(db[i], now)) && Apart(db)
  }

  /** The operations on the table, with the time at which they happen. */
  datatype Event =
    | Raise(now: int, fields: Fields, id: Id)
    | ResolveEvent(now: int, key: Text, resolution: Text)
    | AcknowledgeEvent(now: int, id: Id, user: Id)
    | AcknowledgeAllEvent(now: int, user: Id)

  /** One call of the store; an event that fails leaves the table alone. */
  ghost predicate Step(db: Table, e: Event, db': Table) {
    match e
    case Raise(now, f, id) =>
      if Normalize(f).Err? then db' == db
      else if InsertFails(db, Normalize(f).value, now, id) then db' == db
      else exists newlyOpen :: Raised(db, Normalize(f).value, now, id, db', newlyOpen)
    case ResolveEvent(now, key, resolution) =>
      db' == Resolve(db, GoTrim(key), Clip(GoTrim(resolution), RESOLUTION_MAX), now)
    case AcknowledgeEvent(now, id, user) =>
      db' == db || (id in db && db' == db[id := Acknowledge(db[id], user, now)])
    case AcknowledgeAllEvent(now, user) =>
      db' == db || db' == AcknowledgeAll(db, user, now)
  }

  /** A run from the empty table with a nondecreasing clock. */
  ghost predicate IsRun(events: seq<Event>, tables: seq<Table>) {
    && |tables| == |events| + 1 && tables[0] == map[]
    && (forall i, j :: 0 <= i < j < |events| ==> events[i].now <= events[j].now)
    && (forall i, j :: 0 <= i < j <= |events| && j == i + 1 ==> Step(tables[i], events[i], tables[j]))
  }

  lemma PruneKeepsInvariant(db: Table, now: int)
    requires Invariant(db, now)
    ensures Invariant(Prune(db, now), now)
  {
  }

  lemma NewKeepsInvariant(db: Table, f: Fields, past: int, now: int, id: Id)
    requires Invariant(db, past) && past <= now && id !in db && !IsOpen(db, f.key)
    requires forall i :: i in db ==> !Reopenable(db[i], f.key, now)
    ensures Invariant(db[id := NewAlert(f, now)], now)
  {
    var db' := db[id := NewAlert(f, now)];
    forall i, j | i in db' && j in db' && i != j && db'[i].key == db'[j].key
      ensures DayApart(db'[i], db'[j])
    {
      assert i != id ==> !OpenFor(db[i], f.key) && !Reopenable(db[i], f.key, now);
      assert j != id ==> !OpenFor(db[j], f.key) && !Reopenable(db[j], f.key, now);
    }
  }

  lemma ReopenKeepsInvariant(db: Table, f: Fields, past: int, now: int, i: Id)
    requires Invariant(db, past) && past <= now && !IsOpen(db, f.key)
    requires i in db && Reopenable(db[i], f.key, now)
    ensures Invariant(db[i := Reopen(db[i], f, now)], now)
  {
    var db' := db[i := Reopen(db[i], f, now)];
    forall k, j | k in db' && j in db' && k != j && db'[k].key == db'[j].key
      ensures DayApart(db'[k], db'[j])
    {
      assert DayApart(db[k], db[j]);
      assert !OpenFor(db[k], f.key) && !OpenFor(db[j], f.key);
    }
  }

  lemma RaisedKeepsInvariant(db: Table, f: Fields, past: int, now: int, id: Id, db': Table, newlyOpen: bool)
    requires Invariant(db, past) && past <= now && Raised(db, f, now, id, db', newlyOpen)
    ensures Invariant(db', now)
  {
    hide NewAlert, Reopen, Prune;
    if !IsOpen(db, f.key) && exists i :: i in db && Reopenable(db[i], f.key, now) {
      var i :| IsLatest(db, f.key, now, i) && db' == Prune(db[i := Reopen(db[i], f, now)], now);
      ReopenKeepsInvariant(db, f, past, now, i);
      PruneKeepsInvariant(db[i := Reopen(db[i], f, now)], now);
    } else if !IsOpen(db, f.key) {
      NewKeepsInvariant(db, f, past, now, id);
      PruneKeepsInvariant(db[id := NewAlert(f, now)], now);
    }
  }

  /** Only one alert of a key can have been resolved within the last day, so
      which one is reopened does not depend on how ties are broken. */
  lemma OneReopenable(db: Table, key: Text, past: int, now: int, i: Id, j: Id)
    requires Invariant(db, past) && past <= now
    requires i in db && Reopenable(db[i], key, now) && j in db && Reopenable(db[j], key, now)
    ensures i == j
  {
  }

  lemma AcknowledgeKeepsInvariant(db: Table, id: Id, user: Id, past: int, now: int)
    requires Invariant(db, past) && past <= now && id in db
    ensures Invariant(db[id := Acknowledge(db[id], user, now)], now)
  {
    var db' := db[id := Acknowledge(db[id], user, now)];
    forall i, j | i in db' && j in db' && i != j && db'[i].key == db'[j].key ensures DayApart(db'[i], db'[j]) {
      assert DayApart(db[i], db[j]);
    }
  }

  lemma AcknowledgeAllKeepsInvariant(db: Table, user: Id, past: int, now: int)
    requires Invariant(db, past) && past <= now
    ensures Invariant(AcknowledgeAll(db, user, now), now)
  {
    var db' := AcknowledgeAll(db, user, now);
    forall i, j | i in db' && j in db' && i != j && db'[i].key == db'[j].key ensures DayApart(db'[i], db'[j]) {
      assert DayApart(db[i], db[j]);
    }
  }

  lemma ResolveKeepsInvariant(db: Table, key: Text, resolution: Text, past: int, now: int)
    requires Invariant(db, past) && past <= now
    ensures Invariant(Resolve(db, key, resolution, now), now)
  {
    var db' := Resolve(db, key, resolution, now);
    forall i, j | i in db' && j in db' && i != j && db'[i].key == db'[j].key
      ensures DayApart(db'[i], db'[j])
    {
      assert DayApart(db[i], db[j]);
    }
  }

  lemma StepKeepsInvariant(db: Table, e: Event, past: int, db': Table)
    requires Invariant(db, past) && past <= e.now && Step(db, e, db')
    ensures Invariant(db', e.now)
  {
    hide Normalize, Raised, Resolve, GoTrim, Clip, Acknowledge, AcknowledgeAll, Apart, InsertFails;
    match e
    case Raise(now, f, id) =>
      if Normalize(f).Ok? && !InsertFails(db, Normalize(f).value, now, id) {
        var newlyOpen :| Raised(db, Normalize(f).value, now, id, db', newlyOpen);
        RaisedKeepsInvariant(db, Normalize(f).value, past, now, id, db', newlyOpen);
      }
    case ResolveEvent(now, key, resolution) =>
      ResolveKeepsInvariant(db, GoTrim(key), Clip(GoTrim(resolution), RESOLUTION_MAX), past, now);
    case AcknowledgeEvent(now, id, user) =>
      if id in db { AcknowledgeKeepsInvariant(db, id, user, past, now); }
    case AcknowledgeAllEvent(now, user) => AcknowledgeAllKeepsInvariant(db, user, past, now);
  }

  lemma EmptyInvariant(now: int)
    ensures Invariant(map[], now)
  {
  }

  /** In every run each key has at most one open alert, and any two alerts of
      one key are incidents more than 24 hours apart. */
  lemma {:induction false} RunKeepsInvariant(events: seq<Event>, tables: seq<Table>, n: nat)
    requires IsRun(events, tables) && 0 < n <= |events|
    ensures Invariant(tables[n], events[n - 1].now)
  {
    hide Step, Invariant;
    var now := events[n - 1].now;
    if n > 1 {
      RunKeepsInvariant(events, tables, n - 1);
      StepKeepsInvariant(tables[n - 1], events[n - 1], events[n - 2].now, tables[n]);
    } else {
      EmptyInvariant(now);
      StepKeepsInvariant(tables[n - 1], events[n - 1], now, tables[n]);
    }
  }

  lemma AtMostOneOpen(db: Table, now: int, key: Text, i: Id, j: Id)
    requires Invariant(db, now)
    requires i in db && OpenFor(db[i], key) && j in db && OpenFor(db[j], key)
    ensures i == j
  {
  }

  /** In every run each key has at most one open alert. */
  lemma RunHasOneOpen(events: seq<Event>, tables: seq<Table>, n: nat, key: Text, i: Id, j: Id)
    requires IsRun(events, tables) && n <= |events|
    requires i in tables[n] && OpenFor(tables[n][i], key) && j in tables[n] && OpenFor(tables[n][j], key)
    ensures i == j
  {
    hide Step, Invariant, OpenFor;
    if n > 0 {
      RunKeepsInvariant(events, tables, n);
      AtMostOneOpen(tables[n], events[n - 1].now, key, i, j);
    }
  }

  // ---------- how many alerts a key can have ----------

  function ResolvedIds(db: Table, key: Text): set<Id> {
    set i | i in db && db[i].key == key && db[i].status.Resolved?
  }

  lemma {:induction false} LatestOf(db: Table, ids: set<Id>) returns (latest: Id)
    requires ids != {} && forall i :: i in ids ==> i in db && db[i].status.Resolved?
    ensures latest in ids && forall i :: i in ids ==> db[i].status.at <= db[latest].status.at
    decreases |ids|
  {
    var some :| some in ids;
    latest := some;
    var rest := ids - {some};
    if rest != {} {
      var other := LatestOf(db, rest);
      assert forall i :: i in ids ==> i == some || i in rest;
      if db[other].status.at > db[some].status.at { latest := other; }
    }
  }

  /** Incidents more than a day apart need more than a day of time each. */
  lemma {:induction false} IncidentsNeedTime(db: Table, now: int, ids: set<Id>, key: Text, from: int, to: int)
    requires Invariant(db, now) && from <= to
    requires forall i :: i in ids ==> i in db && db[i].key == key && db[i].status.Resolved?
    requires forall i :: i in ids ==> from <= db[i].status.at && db[i].status.at + DAY < to
    ensures |ids| * (DAY + 1) <= to - from
    decreases |ids|
  {
    if ids != {} {
      var last := LatestOf(db, ids);
      var rest := ids - {last};
      forall i | i in rest ensures db[i].status.at + DAY < db[last].status.at {
        assert DayApart(db[i], db[last]);
        assert Sane(db[i], now) && Sane(db[last], now);
      }
      IncidentsNeedTime(db, now, rest, key, from, db[last].status.at);
      assert |ids| == |rest| + 1;
    }
  }

  lemma OpenedIn(db: Table, f: Fields, now: int, id: Id, db': Table) returns (open: Id)
    requires Raised(db, f, now, id, db', true)
    ensures open in db' && OpenFor(db'[open], f.key)
    ensures forall i :: i in db' && db'[i].status.Resolved? ==> db'[i].status.at >= now - RETENTION
  {
    if exists i :: i in db && Reopenable(db[i], f.key, now) {
      open :| IsLatest(db, f.key, now, open) && db' == Prune(db[open := Reopen(db[open], f, now)], now);
    } else {
      open := id;
    }
  }

  /** After any raise that opens an alert, its key has at most 89 resolved
      alerts besides the open one. */
  lemma AtMost89Resolved(db: Table, f: Fields, past: int, now: int, id: Id, db': Table)
    requires Invariant(db, past) && past <= now && Raised(db, f, now, id, db', true)
    ensures IsOpen(db', f.key) && |ResolvedIds(db', f.key)| <= 89
  {
    RaisedKeepsInvariant(db, f, past, now, id, db', true);
    var open := OpenedIn(db, f, now, id, db');
    var ids := ResolvedIds(db', f.key);
    forall i | i in ids ensures now - RETENTION <= db'[i].status.at && db'[i].status.at + DAY < db'[open].firstSeen {
      assert DayApart(db'[i], db'[open]);
    }
    assert Sane(db'[open], now);
    if ids != {} {
      var i :| i in ids;
      assert now - RETENTION <= db'[i].status.at;
      IncidentsNeedTime(db', now, ids, f.key, now - RETENTION, db'[open].firstSeen);
    }
  }

  /** The bound holds after every raise of a run that opens an alert. */
  lemma RunBoundsAlerts(events: seq<Event>, tables: seq<Table>, n: nat, f: Fields)
    requires IsRun(events, tables) && n < |events| && events[n].Raise? && Normalize(events[n].fields) == Ok(f)
    requires Raised(tables[n], f, events[n].now, events[n].id, tables[n + 1], true)
    ensures |ResolvedIds(tables[n + 1], f.key)| <= 89
  {
    hide Step, Invariant, Raised, ResolvedIds;
    if n > 0 { RunKeepsInvariant(events, tables, n); } else { EmptyInvariant(events[0].now); }
    var past := if n > 0 then events[n - 1].now else events[0].now;
    AtMost89Resolved(tables[n], f, past, events[n].now, events[n].id, tables[n + 1]);
  }

  // ---------- what raising and resolving do to the set of open keys ----------

  lemma OtherKeysKept(db: Table, f: Fields, now: int, id: Id, db': Table, key: Text)
    requires Raised(db, f, now, id, db', true) && key != f.key
    ensures IsOpen(db', key) <==> IsOpen(db, key)
  {
    var mid: Table;
    if exists i :: i in db && Reopenable(db[i], f.key, now) {
      var i :| IsLatest(db, f.key, now, i) && db' == Prune(db[i := Reopen(db[i], f, now)], now);
      mid := db[i := Reopen(db[i], f, now)];
      assert forall k :: k in mid && OpenFor(mid[k], key) <==> k in db && OpenFor(db[k], key);
    } else {
      mid := db[id := NewAlert(f, now)];
      assert forall k :: k in mid && OpenFor(mid[k], key) <==> k in db && OpenFor(db[k], key);
    }
    assert forall k :: k in db' && OpenFor(db'[k], key) <==> k in mid && OpenFor(mid[k], key);
    if IsOpen(db, key) {
      var k :| k in db && OpenFor(db[k], key);
      assert k in mid && OpenFor(mid[k], key);
    }
  }

  lemma RaisedOpens(db: Table, f: Fields, now: int, id: Id, db': Table, newlyOpen: bool, key: Text)
    requires Raised(db, f, now, id, db', newlyOpen)
    ensures IsOpen(db', key) <==> key == f.key || IsOpen(db, key)
    ensures newlyOpen <==> !IsOpen(db, f.key)
  {
    if newlyOpen {
      var open := OpenedIn(db, f, now, id, db');
      if key != f.key { OtherKeysKept(db, f, now, id, db', key); }
    } else {
      if key == f.key || IsOpen(db, key) {
        var i :| i in db && OpenFor(db[i], key);
        assert OpenFor(db'[i], key);
      }
      if IsOpen(db', key) {
        var i :| i in db' && OpenFor(db'[i], key);
        assert OpenFor(db[i], key);
      }
    }
  }

  lemma ResolveCloses(db: Table, closed: Text, resolution: Text, now: int, key: Text)
    ensures IsOpen(Resolve(db, closed, resolution, now), key) <==> key != closed && IsOpen(db, key)
    ensures Resolve(db, closed, resolution, now).Keys == db.Keys
  {
    var db' := Resolve(db, closed, resolution, now);
    if key != closed && IsOpen(db, key) {
      var i :| i in db && OpenFor(db[i], key);
      assert i in db' && OpenFor(db'[i], key);
    }
  }

  // ---------- what the rows look like afterwards ----------

  /** Which fields are accepted, and what is stored of them. */
  lemma NormalizeExactly(f: Fields)
    ensures var r, key, source := Normalize(f), GoTrim(f.key), GoTrim(f.source);
      && (r == Err(InvalidKey) <==> Utf8Size(key) == 0 || Utf8Size(key) > 100)
      && (r == Err(InvalidSource) <==> 0 < Utf8Size(key) <= 100 && (Utf8Size(source) == 0 || Utf8Size(source) > 100))
      && (r.Ok? <==> 0 < Utf8Size(key) <= 100 && 0 < Utf8Size(source) <= 100 && GoTrim(f.title) != [])
      && (r.Ok? ==>
            r.value == Fields(key, source, Clip(GoTrim(f.title), 300), Clip(GoTrim(f.details), 5000)))
      && (r.Err? ==> r.error in {InvalidKey, InvalidSource, TitleRequired})
  {
    hide GoTrim, Clip;
  }

  /** An alert of the key was resolved within the last 24 hours. */
  predicate JustResolved(a: Alert, key: Text, now: int) {
    a.key == key && a.status.Resolved? && now - a.status.at <= 86_400
  }

  predicate OpenRow(a: Alert, key: Text) { a.key == key && a.status == Open }

  /** The row was resolved more than 90 days ago. */
  predicate Outdated(a: Alert, now: int) { a.status.Resolved? && now - a.status.at > 7_776_000 }

  /** While the key is open, its open alert gets the new texts and time, and nothing else changes. */
  lemma RefreshedRows(db: Table, f: Fields, now: int, id: Id, db': Table, newlyOpen: bool)
    requires Raised(db, f, now, id, db', newlyOpen) && exists i :: i in db && OpenRow(db[i], f.key)
    ensures !newlyOpen && db'.Keys == db.Keys
    ensures forall i :: i in db && !OpenRow(db[i], f.key) ==> db'[i] == db[i]
    ensures forall i :: i in db && OpenRow(db[i], f.key) ==>
      db'[i] == db[i].(source := f.source, title := f.title, details := f.details, lastSeen := now)
  {
    var i :| i in db && OpenRow(db[i], f.key);
    assert OpenFor(db[i], f.key);
  }

  lemma ReopenedIs(a: Alert, f: Fields, now: int)
    requires a.key == f.key
    ensures Reopen(a, f, now) ==
      Alert(f.key, f.source, f.title, f.details, Open, a.occurrences + 1, a.firstSeen, now, None)
  {
  }

  /** Otherwise the alert of the key resolved last, if that was within 24 hours,
      is open again, unread, and counts one more occurrence; alerts resolved more
      than 90 days ago go, and nothing else changes. */
  lemma ReopenedRow(db: Table, f: Fields, now: int, id: Id, db': Table, newlyOpen: bool) returns (i: Id)
    requires Raised(db, f, now, id, db', newlyOpen) && forall i :: i in db ==> !OpenRow(db[i], f.key)
    requires exists i :: i in db && JustResolved(db[i], f.key, now)
    ensures newlyOpen && i in db && JustResolved(db[i], f.key, now) && i in db'
    ensures forall j :: j in db && JustResolved(db[j], f.key, now) ==> db[j].status.at <= db[i].status.at
    ensures db'[i] ==
      Alert(f.key, f.source, f.title, f.details, Open, db[i].occurrences + 1, db[i].firstSeen, now, None)
    ensures forall j :: j != i ==> (j in db' <==> j in db && !Outdated(db[j], now))
    ensures forall j :: j in db' && j != i ==> db'[j] == db[j]
  {
    hide Reopen;
    var k :| k in db && JustResolved(db[k], f.key, now);
    assert Reopenable(db[k], f.key, now);
    i :| IsLatest(db, f.key, now, i) && db' == Prune(db[i := Reopen(db[i], f, now)], now);
    ReopenedIs(db[i], f, now);
    forall j | j in db && JustResolved(db[j], f.key, now) ensures db[j].status.at <= db[i].status.at {
      assert Reopenable(db[j], f.key, now);
    }
  }

  /** Otherwise there is one more alert, open and unread, with one occurrence. */
  lemma NewRow(db: Table, f: Fields, now: int, id: Id, db': Table, newlyOpen: bool)
    requires Raised(db, f, now, id, db', newlyOpen)
    requires forall i :: i in db ==> !OpenRow(db[i], f.key) && !JustResolved(db[i], f.key, now)
    ensures newlyOpen && id !in db && id in db'
    ensures db'[id] == Alert(f.key, f.source, f.title, f.details, Open, 1, now, now, None)
    ensures forall j :: j != id ==> (j in db' <==> j in db && !Outdated(db[j], now))
    ensures forall j :: j in db' && j != id ==> db'[j] == db[j]
  {
    forall i | i in db ensures !OpenFor(db[i], f.key) && !Reopenable(db[i], f.key, now) {
      assert !OpenRow(db[i], f.key) && !JustResolved(db[i], f.key, now);
    }
  }

  /** Resolving: open alerts of the key get the time and the clipped note. */
  lemma ResolvedRows(db: Table, key: Text, resolution: Text, now: int)
    ensures var db' := Resolve(db, GoTrim(key), Clip(GoTrim(resolution), RESOLUTION_MAX), now);
      && db'.Keys == db.Keys
      && forall i :: i in db ==>
           if OpenRow(db[i], GoTrim(key)) then db'[i] == db[i].(status := Resolved(now, Clip(GoTrim(resolution), 1000)))
           else db'[i] == db[i]
  {
    hide GoTrim, Clip;
  }

  // ---------- the store ----------

  class AlertStore {
    var alerts: Table
    /** The ids of the users table, which acknowledged_by refers to. */
    var users: set<Id>

    constructor (users: set<Id>)
      ensures alerts == map[] && this.users == users
    {
      alerts, this.users := map[], users;
    }

    method RaiseSystemAlert(fields: Fields, now: int, id: Id) returns (r: Result<bool, Error>)
      modifies this`alerts
      ensures Normalize(fields).Err? ==> r == Err(Normalize(fields).error)
      ensures r.Err? ==> alerts == old(alerts)
      ensures Normalize(fields).Ok? ==>
        && (r == Err(IdTaken) <==> InsertFails(old(alerts), Normalize(fields).value, now, id))
        && (r.Err? ==> r.error == IdTaken)
      ensures Normalize(fields).Ok? && r.Ok? ==>
        Raised(old(alerts), Normalize(fields).value, now, id, alerts, r.value)
    {
      hide Normalize, Prune, RefreshOpen, Reopen, NewAlert, OpenFor;
      var normalized := Normalize(fields);
      if normalized.Err? { return Err(normalized.error); }
      var f := normalized.value;
      var matching := set i | i in alerts && OpenFor(alerts[i], f.key);
      var newlyOpen := matching == {};
      var rows := RefreshOpen(alerts, f, now);
      if newlyOpen {
        assert forall i :: i in alerts ==> i !in matching;
        rows := alerts;
        var candidates := set i | i in rows && Reopenable(rows[i], f.key, now);
        if candidates != {} {
          var previous := MostRecent(rows, candidates);
          rows := rows[previous := Reopen(rows[previous], f, now)];
        } else {
          assert forall i :: i in alerts ==> i !in candidates;
          if id in rows { return Err(IdTaken); }
          rows := rows[id := NewAlert(f, now)];
        }
        rows := Prune(rows, now);
      }
      alerts := rows;
      return Ok(newlyOpen);
    }

    /** ORDER BY resolved_at DESC LIMIT 1 */
    static method MostRecent(rows: Table, ids: set<Id>) returns (latest: Id)
      requires ids != {} && forall i :: i in ids ==> i in rows && rows[i].status.Resolved?
      ensures latest in ids && forall i :: i in ids ==> rows[i].status.at <= rows[latest].status.at
    {
      latest :| latest in ids;
      var rest := ids - {latest};
      while rest != {}
        invariant rest < ids && latest in ids - rest
        invariant forall i :: i in ids - rest ==> rows[i].status.at <= rows[latest].status.at
        decreases rest
      {
        var i :| i in rest;
        if rows[i].status.at > rows[latest].status.at { latest := i; }
        rest := rest - {i};
      }
    }

    method ResolveSystemAlert(key: Text, resolution: Text, now: int) returns (closed: bool)
      modifies this`alerts
      ensures alerts == Resolve(old(alerts), GoTrim(key), Clip(GoTrim(resolution), RESOLUTION_MAX), now)
      ensures closed <==> IsOpen(old(alerts), GoTrim(key))
    {
      hide GoTrim, Clip, OpenFor;
      var trimmed := GoTrim(key);
      var text := Clip(GoTrim(resolution), RESOLUTION_MAX);
      var matching := set i | i in alerts && OpenFor(alerts[i], trimmed);
      closed := matching != {};
      if !closed { assert forall i :: i in alerts ==> i !in matching; }
      alerts := map i | i in alerts :: if i in matching then alerts[i].(status := Resolved(now, text)) else alerts[i];
    }

    /** Marks one alert read; an alert already read keeps its reader and time. */
    method AcknowledgeSystemAlert(alertId: Id, user: Id, now: int) returns (r: Result<(), Error>)
      modifies this`alerts
      ensures r == (if alertId !in old(alerts) then Err(NotFound)
                    else if old(alerts)[alertId].acknowledged.None? && user !in users then Err(UnknownUser)
                    else Ok(()))
      ensures r.Ok? ==> alerts == old(alerts)[alertId := Acknowledge(old(alerts)[alertId], user, now)]
      ensures r.Ok? && old(alerts)[alertId].acknowledged.Some? ==> alerts == old(alerts)
      ensures r.Ok? && old(alerts)[alertId].acknowledged.None? ==>
        alerts == old(alerts)[alertId := old(alerts)[alertId].(acknowledged := Some(Acknowledgement(now, user)))]
      ensures r.Err? ==> alerts == old(alerts)
    {
      if alertId !in alerts { return Err(NotFound); }
      if alerts[alertId].acknowledged.None? && user !in users { return Err(UnknownUser); }
      alerts := alerts[alertId := Acknowledge(alerts[alertId], user, now)];
      return Ok(());
    }

    method AcknowledgeAllSystemAlerts(user: Id, now: int) returns (r: Result<nat, Error>)
      modifies this`alerts
      ensures r.Err? ==> alerts == old(alerts) && user !in users
      ensures r.Ok? ==> alerts == AcknowledgeAll(old(alerts), user, now)
      ensures r.Ok? ==> alerts.Keys == old(alerts).Keys
      ensures r.Ok? ==> forall i :: i in alerts && old(alerts)[i].acknowledged.Some? ==> alerts[i] == old(alerts)[i]
      ensures r.Ok? ==> forall i :: i in alerts && old(alerts)[i].acknowledged.None? ==>
        alerts[i] == old(alerts)[i].(acknowledged := Some(Acknowledgement(now, user)))
      ensures r.Ok? ==> r.value == |set i | i in old(alerts) && old(alerts)[i].acknowledged.None?|
    {
      var unread := set i | i in alerts && alerts[i].acknowledged.None?;
      if unread != {} && user !in users { return Err(UnknownUser); }
      alerts := AcknowledgeAll(alerts, user, now);
      return Ok(|unread|);
    }
  }
}
