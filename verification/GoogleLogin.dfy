/** The Google sign-in of command-line clients as a concurrent protocol
    (server/api_auth.go). Every request handler is a process that takes one
    step at a time; the steps of all handlers and all other uses of the store
    interleave freely. Store calls may fail at every step. */
module GoogleLogin {
  import opened Outcomes
  import opened Text
  import C = ChallengeStore
  import U = UserStore

  type Id = Text

  /** What a poll handler does next. */
  datatype Pc =
    | Create
    | Load(token: Id)
    | Record(token: Id)
    | Revoke(token: Id)
    | GiveUp
    | Deliver(token: Id)

  /** A poll handler that received an approval: the challenge id and the copy it works on. */
  datatype Handler = Handler(id: Id, copy: C.Challenge, pc: Pc)

  /** The running server, and what happened so far: the token name asked for
      with each challenge id, who approved it, the challenge that each token was
      created for, and the challenges whose client got its token. */
  datatype State = State(
    challenges: C.Table,
    handlers: map<nat, Handler>,
    db: U.Db,
    names: map<Id, Text>,
    approvals: map<Id, Id>,
    issued: map<Id, Id>,
    delivered: set<Id>)

  datatype Event =
    | AddEvent(id: Id, hash: Text, tokenName: Text, clientName: Text, ip: Text, now: int)
    | GetEvent(now: int)
    | ApproveEvent(id: Id, user: Id, now: int)
    | PollEvent(handler: nat, id: Id, hash: Text, now: int)
    | CancelEvent(id: Id, hash: Text)
    | CreateEvent(handler: nat, token: Id, now: int)
    | LoadEvent(handler: nat, ok: bool)
    | RecordEvent(handler: nat, ok: bool)
    | RevokeEvent(handler: nat, ok: bool)
    | FinishEvent(handler: nat)
    | StoreEvent(op: U.Op)

  predicate At(s: State, handler: nat) { handler in s.handlers }

  function Goto(s: State, handler: nat, pc: Pc): State
    requires At(s, handler)
  {
    s.(handlers := s.handlers[handler := s.handlers[handler].(pc := pc)])
  }

  /** Which events can happen: ids of challenges, tokens and handlers are fresh
      and every handler follows its program. Loading finds the account only if
      there is one. */
  predicate Enabled(s: State, e: Event) {
    match e
    case AddEvent(id, _, _, _, _, _) => id !in s.names
    case PollEvent(h, _, _, _) => h !in s.handlers
    case CreateEvent(h, token, _) => At(s, h) && s.handlers[h].pc.Create? && token !in s.issued
    case LoadEvent(h, ok) =>
      At(s, h) && s.handlers[h].pc.Load? && (ok ==> s.handlers[h].copy.approvedUser in s.db.users)
    case RecordEvent(h, _) => At(s, h) && s.handlers[h].pc.Record?
    case RevokeEvent(h, _) => At(s, h) && s.handlers[h].pc.Revoke?
    case FinishEvent(h) => At(s, h) && (s.handlers[h].pc.GiveUp? || s.handlers[h].pc.Deliver?)
    case StoreEvent(op) => op.CreateTokenOp? ==> op.hash !in s.issued
    case _ => true
  }

  function Approved(s: State, id: Id, user: Id, now: int): State {
    var (challenges, r) := C.Approve(s.challenges, id, user, now);
    s.(challenges := challenges,
       approvals := if r.Ok? && user != [] then s.approvals[id := user] else s.approvals)
  }

  function Polled(s: State, handler: nat, id: Id, hash: Text, now: int): State {
    var (challenges, status) := C.Poll(s.challenges, id, hash, now);
    s.(challenges := challenges,
       handlers := if status.Approved?
                   then s.handlers[handler := Handler(id, status.challenge, Create)]
                   else s.handlers)
  }

  function Created(s: State, handler: nat, token: Id, now: int): State
    requires At(s, handler)
  {
    var copy := s.handlers[handler].copy;
    var r := U.CreateToken(s.db, token, copy.approvedUser, copy.tokenName, None, now);
    if r.Err? then Goto(s, handler, GiveUp)
    else Goto(s, handler, Load(token)).(db := r.value, issued := s.issued[token := s.handlers[handler].id])
  }

  function Finished(s: State, handler: nat): State
    requires At(s, handler)
  {
    var id, done := s.handlers[handler].id, s.handlers[handler].pc.Deliver?;
    s.(challenges := C.Finish(s.challenges, id, done),
       handlers := s.handlers - {handler},
       delivered := if done then s.delivered + {id} else s.delivered)
  }

  /** The effect of every event but StoreEvent. */
  function Effect(s: State, e: Event): State
    requires Enabled(s, e) && !e.StoreEvent?
  {
    match e
    case AddEvent(id, hash, tokenName, clientName, ip, now) =>
      s.(challenges := C.Add(s.challenges, id, hash, tokenName, clientName, ip, now).0,
         names := s.names[id := tokenName])
    case GetEvent(now) => s.(challenges := C.Cleaned(s.challenges, now))
    case ApproveEvent(id, user, now) => Approved(s, id, user, now)
    case PollEvent(h, id, hash, now) => Polled(s, h, id, hash, now)
    case CancelEvent(id, hash) => s.(challenges := C.Cancel(s.challenges, id, hash).0)
    case CreateEvent(h, token, now) => Created(s, h, token, now)
    case LoadEvent(h, ok) => Goto(s, h, if ok then Record(s.handlers[h].pc.token) else Revoke(s.handlers[h].pc.token))
    case RecordEvent(h, ok) =>
      Goto(s, h, if ok then Deliver(s.handlers[h].pc.token) else Revoke(s.handlers[h].pc.token))
    case RevokeEvent(h, ok) =>
      Goto(s, h, GiveUp).(db := if ok then U.Commit(s.db, U.RevokeCurrent(s.db, s.handlers[h].pc.token)) else s.db)
    case FinishEvent(h) => Finished(s, h)
  }

  ghost predicate Step(s: State, e: Event, s': State) {
    && Enabled(s, e)
    && if e.StoreEvent? then s' == s.(db := s'.db) && U.Step(s.db, e.op, s'.db) else s' == Effect(s, e)
  }

  const INITIAL := State(map[], map[], U.EMPTY, map[], map[], map[], {})

  ghost predicate IsRun(events: seq<Event>, states: seq<State>) {
    && |states| == |events| + 1 && states[0] == INITIAL
    && (forall i, j :: 0 <= i < j <= |events| && j == i + 1 ==> Step(states[i], events[i], states[j]))
  }

  // ---------- the invariant ----------

  function ApprovedUser(approvals: map<Id, Id>, id: Id): Id { if id in approvals then approvals[id] else [] }

  ghost predicate Known(challenges: C.Table, names: map<Id, Text>, approvals: map<Id, Id>) {
    && (forall c :: c in challenges ==>
          c in names && challenges[c].tokenName == names[c] && challenges[c].approvedUser == ApprovedUser(approvals, c))
    && (forall c :: c in approvals ==> c in names && approvals[c] != [])
  }

  ghost predicate Gone(challenges: C.Table, delivered: set<Id>, names: map<Id, Text>) {
    forall c :: c in delivered ==> c !in challenges && c in names
  }

  predicate HandlerFine(h: Handler, names: map<Id, Text>, approvals: map<Id, Id>, delivered: set<Id>) {
    && h.id in names && h.id in approvals && h.id !in delivered
    && h.copy.approvedUser == approvals[h.id] && h.copy.tokenName == names[h.id]
  }

  ghost predicate HandlersFine(handlers: map<nat, Handler>, names: map<Id, Text>, approvals: map<Id, Id>,
                               delivered: set<Id>)
  {
    forall p :: p in handlers ==> HandlerFine(handlers[p], names, approvals, delivered)
  }

  /** A token that a handler holds was created for its challenge. */
  ghost predicate HoldsIssued(handlers: map<nat, Handler>, issued: map<Id, Id>) {
    forall p :: p in handlers && !handlers[p].pc.Create? && !handlers[p].pc.GiveUp? ==>
      handlers[p].pc.token in issued && issued[handlers[p].pc.token] == handlers[p].id
  }

  ghost predicate Exclusive(handlers: map<nat, Handler>) {
    forall p, q :: p in handlers && q in handlers && handlers[p].id == handlers[q].id ==> p == q
  }

  ghost predicate InFlight(handlers: map<nat, Handler>, id: Id) {
    exists p :: p in handlers && handlers[p].id == id
  }

  /** The flag is set exactly while a handler issues a token. */
  ghost predicate FlagFits(challenges: C.Table, handlers: map<nat, Handler>) {
    forall c :: c in challenges ==> (challenges[c].issuing <==> InFlight(handlers, c))
  }

  ghost predicate TokensFine(tokens: map<Id, U.Token>, issued: map<Id, Id>, names: map<Id, Text>,
                             approvals: map<Id, Id>)
  {
    forall t :: t in issued ==>
      && issued[t] in names && issued[t] in approvals
      && (t in tokens ==> tokens[t].user == approvals[issued[t]] && tokens[t].name == GoTrim(names[issued[t]]))
  }

  ghost predicate Invariant(s: State) {
    && U.Invariant(s.db)
    && C.FewPerIp(s.challenges)
    && Known(s.challenges, s.names, s.approvals)
    && Gone(s.challenges, s.delivered, s.names)
    && HandlersFine(s.handlers, s.names, s.approvals, s.delivered)
    && HoldsIssued(s.handlers, s.issued)
    && Exclusive(s.handlers)
    && FlagFits(s.challenges, s.handlers)
    && TokensFine(s.db.tokens, s.issued, s.names, s.approvals)
  }

  // ---------- every event keeps it ----------

  ghost predicate Extends(m: map<Id, Id>, m': map<Id, Id>) {
    forall i :: i in m ==> i in m' && m'[i] == m[i]
  }

  /** New names and approvals do not disturb handlers and tokens. */
  lemma HistoryGrows(s: State, names: map<Id, Text>, approvals: map<Id, Id>)
    requires HandlersFine(s.handlers, s.names, s.approvals, s.delivered)
    requires TokensFine(s.db.tokens, s.issued, s.names, s.approvals)
    requires Extends(s.names, names) && Extends(s.approvals, approvals)
    ensures HandlersFine(s.handlers, names, approvals, s.delivered)
    ensures TokensFine(s.db.tokens, s.issued, names, approvals)
  {
    hide GoTrim;
  }

  lemma NobodyAt(s: State, id: Id)
    requires HandlersFine(s.handlers, s.names, s.approvals, s.delivered) && id !in s.names
    ensures !InFlight(s.handlers, id)
  {
  }

  lemma CleanedFacts(db: C.Table, now: int)
    ensures forall c :: c in C.Cleaned(db, now) ==> c in db && C.Cleaned(db, now)[c] == db[c]
  {
  }

  lemma AddTable(s: State, e: Event)
    requires Invariant(s) && Enabled(s, e) && e.AddEvent?
    ensures var s' := Effect(s, e);
      && Known(s'.challenges, s'.names, s'.approvals) && Gone(s'.challenges, s'.delivered, s'.names)
      && FlagFits(s'.challenges, s'.handlers)
  {
    hide U.Invariant, C.FewPerIp, HandlersFine, TokensFine, Exclusive, HoldsIssued, C.Cleaned, C.FromIp, InFlight;
    NobodyAt(s, e.id);
    CleanedFacts(s.challenges, e.now);
  }

  lemma AddKeeps(s: State, e: Event)
    requires Invariant(s) && Enabled(s, e) && e.AddEvent?
    ensures Invariant(Effect(s, e))
  {
    hide U.Invariant, C.FewPerIp, Known, Gone, FlagFits, HandlersFine, TokensFine, Exclusive, HoldsIssued, C.Add;
    C.AddKeepsFew(s.challenges, e.id, e.hash, e.tokenName, e.clientName, e.ip, e.now);
    AddTable(s, e);
    HistoryGrows(s, s.names[e.id := e.tokenName], s.approvals);
  }

  /** Removing challenges is harmless. */
  lemma ShrinkKeeps(s: State, challenges: C.Table)
    requires Invariant(s)
    requires forall c :: c in challenges ==> c in s.challenges && challenges[c] == s.challenges[c]
    ensures Invariant(s.(challenges := challenges))
  {
    hide U.Invariant, C.FewPerIp, GoTrim, TokensFine, HandlersFine, HoldsIssued, Exclusive, InFlight;
    C.FewerPerIp(s.challenges, challenges);
  }

  lemma ApproveExtends(s: State, e: Event)
    requires Known(s.challenges, s.names, s.approvals) && Enabled(s, e) && e.ApproveEvent?
    ensures Extends(s.approvals, Effect(s, e).approvals)
  {
    hide C.Cleaned;
    CleanedFacts(s.challenges, e.now);
  }

  lemma ApproveKnown(s: State, e: Event)
    requires Known(s.challenges, s.names, s.approvals) && Enabled(s, e) && e.ApproveEvent?
    ensures Known(Effect(s, e).challenges, s.names, Effect(s, e).approvals)
    ensures Extends(s.approvals, Effect(s, e).approvals)
  {
    hide C.Cleaned, Extends;
    CleanedFacts(s.challenges, e.now);
    ApproveExtends(s, e);
  }

  lemma ApproveFlag(s: State, e: Event)
    requires FlagFits(s.challenges, s.handlers) && Enabled(s, e) && e.ApproveEvent?
    ensures FlagFits(Effect(s, e).challenges, s.handlers)
  {
    hide C.Cleaned, InFlight;
    CleanedFacts(s.challenges, e.now);
  }

  lemma ApproveTable(s: State, e: Event)
    requires Invariant(s) && Enabled(s, e) && e.ApproveEvent?
    ensures var s' := Effect(s, e);
      && C.FewPerIp(s'.challenges) && Known(s'.challenges, s'.names, s'.approvals)
      && Gone(s'.challenges, s'.delivered, s'.names)
      && FlagFits(s'.challenges, s'.handlers) && Extends(s.approvals, s'.approvals)
  {
    hide U.Invariant, C.FewPerIp, HandlersFine, TokensFine, HoldsIssued, Exclusive, Known, FlagFits, C.Cleaned;
    CleanedFacts(s.challenges, e.now);
    C.FewerPerIp(s.challenges, Effect(s, e).challenges);
    ApproveKnown(s, e);
    ApproveFlag(s, e);
  }

  lemma ApproveKeeps(s: State, e: Event)
    requires Invariant(s) && Enabled(s, e) && e.ApproveEvent?
    ensures Invariant(Effect(s, e))
  {
    hide U.Invariant, C.FewPerIp, Known, Gone, FlagFits, HandlersFine, TokensFine, HoldsIssued, Exclusive, C.Approve;
    ApproveTable(s, e);
    HistoryGrows(s, s.names, Effect(s, e).approvals);
  }

  lemma PollFew(db: C.Table, id: Id, hash: Text, now: int)
    requires C.FewPerIp(db)
    ensures C.FewPerIp(C.Poll(db, id, hash, now).0)
  {
    hide C.FewPerIp;
    C.FewerPerIp(db, C.Poll(db, id, hash, now).0);
  }

  lemma PollTable(s: State, e: Event)
    requires Known(s.challenges, s.names, s.approvals) && Gone(s.challenges, s.delivered, s.names) && e.PollEvent?
    ensures var challenges := C.Poll(s.challenges, e.id, e.hash, e.now).0;
      Known(challenges, s.names, s.approvals) && Gone(challenges, s.delivered, s.names)
  {
    hide C.TooSoon, C.Alive;
  }

  lemma PollFlagStays(s: State, e: Event)
    requires FlagFits(s.challenges, s.handlers) && e.PollEvent?
    requires !C.Poll(s.challenges, e.id, e.hash, e.now).1.Approved?
    ensures FlagFits(C.Poll(s.challenges, e.id, e.hash, e.now).0, s.handlers)
  {
    hide C.TooSoon, C.Alive, InFlight;
  }

  lemma PollDoesNot(s: State, e: Event)
    requires Invariant(s) && Enabled(s, e) && e.PollEvent?
    requires !C.Poll(s.challenges, e.id, e.hash, e.now).1.Approved?
    ensures Invariant(Effect(s, e))
  {
    hide U.Invariant, TokensFine, HandlersFine, HoldsIssued, Exclusive, Known, Gone, FlagFits, C.Poll, C.FewPerIp;
    PollFew(s.challenges, e.id, e.hash, e.now);
    PollTable(s, e);
    PollFlagStays(s, e);
  }

  lemma KnownAt(s: State, id: Id)
    requires Known(s.challenges, s.names, s.approvals) && Gone(s.challenges, s.delivered, s.names) && id in s.challenges
    ensures id in s.names && s.challenges[id].tokenName == s.names[id] && id !in s.delivered
    ensures s.challenges[id].approvedUser == ApprovedUser(s.approvals, id)
  {
  }

  lemma FlagOff(s: State, id: Id)
    requires FlagFits(s.challenges, s.handlers) && id in s.challenges && !s.challenges[id].issuing
    ensures forall p :: p in s.handlers ==> s.handlers[p].id != id
  {
  }

  lemma FlagSet(s: State, e: Event)
    requires FlagFits(s.challenges, s.handlers) && Enabled(s, e) && e.PollEvent?
    requires C.Poll(s.challenges, e.id, e.hash, e.now).1.Approved?
    ensures FlagFits(Effect(s, e).challenges, Effect(s, e).handlers)
  {
    hide C.TooSoon, C.Alive;
    var s' := Effect(s, e);
    forall c | c in s'.challenges ensures s'.challenges[c].issuing <==> InFlight(s'.handlers, c) {
      if c == e.id {
        assert s'.handlers[e.handler].id == c;
      } else if InFlight(s.handlers, c) {
        var p :| p in s.handlers && s.handlers[p].id == c;
        assert s'.handlers[p].id == c;
      }
    }
  }

  lemma PollApproves(s: State, e: Event)
    requires Invariant(s) && Enabled(s, e) && e.PollEvent?
    requires C.Poll(s.challenges, e.id, e.hash, e.now).1.Approved?
    ensures Invariant(Effect(s, e))
  {
    hide U.Invariant, TokensFine, C.TooSoon, C.Alive, C.FewPerIp, FlagFits, InFlight, Known, Gone;
    PollFew(s.challenges, e.id, e.hash, e.now);
    PollTable(s, e);
    KnownAt(s, e.id);
    FlagOff(s, e.id);
    FlagSet(s, e);
  }

  lemma PollKeeps(s: State, e: Event)
    requires Invariant(s) && Enabled(s, e) && e.PollEvent?
    ensures Invariant(Effect(s, e))
  {
    hide Invariant, Effect, Enabled, C.Poll;
    var (challenges, status) := C.Poll(s.challenges, e.id, e.hash, e.now);
    if status.Approved? {
      PollApproves(s, e);
    } else {
      PollDoesNot(s, e);
    }
  }

  lemma CancelKeeps(s: State, e: Event)
    requires Invariant(s) && Enabled(s, e) && e.CancelEvent?
    ensures Invariant(Effect(s, e))
  {
    hide Invariant;
    ShrinkKeeps(s, C.Cancel(s.challenges, e.id, e.hash).0);
  }

  lemma GotoFlag(s: State, h: nat, pc: Pc)
    requires FlagFits(s.challenges, s.handlers) && At(s, h)
    ensures FlagFits(s.challenges, Goto(s, h, pc).handlers)
  {
    var handlers := Goto(s, h, pc).handlers;
    forall c ensures InFlight(handlers, c) <==> InFlight(s.handlers, c) {
      if InFlight(s.handlers, c) {
        var p :| p in s.handlers && s.handlers[p].id == c;
        assert handlers[p].id == c;
      }
      if InFlight(handlers, c) {
        var p :| p in handlers && handlers[p].id == c;
        assert s.handlers[p].id == c;
      }
    }
  }

  /** A handler moves on, holding no token or one created for its challenge. */
  lemma GotoKeeps(s: State, h: nat, pc: Pc, db: U.Db, issued: map<Id, Id>)
    requires Invariant(s) && At(s, h) && U.Invariant(db)
    requires TokensFine(db.tokens, issued, s.names, s.approvals)
    requires forall t :: t in s.issued ==> t in issued && issued[t] == s.issued[t]
    requires !pc.Create? && !pc.GiveUp? ==> pc.token in issued && issued[pc.token] == s.handlers[h].id
    ensures Invariant(Goto(s, h, pc).(db := db, issued := issued))
  {
    hide U.Invariant, C.FewPerIp, TokensFine, Known, Gone, FlagFits;
    GotoFlag(s, h, pc);
  }

  lemma CreateFacts(s: State, e: Event)
    requires Invariant(s) && Enabled(s, e) && e.CreateEvent?
    ensures var h := s.handlers[e.handler];
      var r := U.CreateToken(s.db, e.token, h.copy.approvedUser, h.copy.tokenName, None, e.now);
      && U.Invariant(s.db) && TokensFine(s.db.tokens, s.issued, s.names, s.approvals)
      && (r.Ok? ==> U.Invariant(r.value) && TokensFine(r.value.tokens, s.issued[e.token := h.id], s.names, s.approvals))
  {
    hide U.Invariant, GoTrim, U.ValidTokenName, U.TokensNamed, C.FewPerIp, Known, Gone, FlagFits, HoldsIssued;
    hide Exclusive;
    var h := s.handlers[e.handler];
    U.CreateTokenKeeps(s.db, e.token, h.copy.approvedUser, h.copy.tokenName, None, e.now);
  }

  lemma CreateKeeps(s: State, e: Event)
    requires Invariant(s) && Enabled(s, e) && e.CreateEvent?
    ensures Invariant(Effect(s, e))
  {
    hide Invariant, U.Invariant, U.CreateToken;
    var copy := s.handlers[e.handler].copy;
    var r := U.CreateToken(s.db, e.token, copy.approvedUser, copy.tokenName, None, e.now);
    CreateFacts(s, e);
    if r.Err? {
      GotoKeeps(s, e.handler, GiveUp, s.db, s.issued);
    } else {
      GotoKeeps(s, e.handler, Load(e.token), r.value, s.issued[e.token := s.handlers[e.handler].id]);
    }
  }

  lemma MoveKeeps(s: State, e: Event)
    requires Invariant(s) && Enabled(s, e) && (e.LoadEvent? || e.RecordEvent?)
    ensures Invariant(Effect(s, e))
  {
    hide U.Invariant, GoTrim, C.FewPerIp, Known, Gone, FlagFits, HandlersFine, TokensFine, Exclusive;
    GotoKeeps(s, e.handler, Effect(s, e).handlers[e.handler].pc, s.db, s.issued);
  }

  lemma RevokeKeeps(s: State, e: Event)
    requires Invariant(s) && Enabled(s, e) && e.RevokeEvent?
    ensures Invariant(Effect(s, e))
  {
    hide U.Invariant, GoTrim, C.FewPerIp, Known, Gone, FlagFits, HandlersFine, Exclusive;
    var db := Effect(s, e).db;
    if db != s.db { U.FewerTokens(s.db, db.tokens); }
    GotoKeeps(s, e.handler, GiveUp, db, s.issued);
  }

  lemma FinishTable(s: State, h: nat)
    requires Invariant(s) && At(s, h)
    ensures var s' := Finished(s, h);
      && C.FewPerIp(s'.challenges) && Known(s'.challenges, s'.names, s'.approvals)
      && Gone(s'.challenges, s'.delivered, s'.names)
  {
    hide U.Invariant, TokensFine, C.FewPerIp, FlagFits, Exclusive, HoldsIssued;
    C.FewerPerIp(s.challenges, Finished(s, h).challenges);
  }

  lemma FinishHandlers(s: State, h: nat)
    requires HandlersFine(s.handlers, s.names, s.approvals, s.delivered) && HoldsIssued(s.handlers, s.issued)
    requires Exclusive(s.handlers) && At(s, h)
    ensures var s' := Finished(s, h);
      && HandlersFine(s'.handlers, s.names, s.approvals, s'.delivered) && HoldsIssued(s'.handlers, s.issued)
      && Exclusive(s'.handlers)
  {
    hide C.Finish;
  }

  lemma FinishFlag(s: State, h: nat)
    requires FlagFits(s.challenges, s.handlers) && Exclusive(s.handlers) && At(s, h)
    ensures FlagFits(Finished(s, h).challenges, s.handlers - {h})
  {
    var challenges, handlers := Finished(s, h).challenges, s.handlers - {h};
    forall c | c in challenges ensures challenges[c].issuing <==> InFlight(handlers, c) {
      if InFlight(handlers, c) {
        var p :| p in handlers && handlers[p].id == c;
        assert p in s.handlers && s.handlers[p].id == c;
      }
      if InFlight(s.handlers, c) {
        var p :| p in s.handlers && s.handlers[p].id == c;
        assert p != h ==> p in handlers && handlers[p].id == c;
      }
    }
  }

  lemma FinishKeeps(s: State, e: Event)
    requires Invariant(s) && Enabled(s, e) && e.FinishEvent?
    ensures Invariant(Effect(s, e))
  {
    hide U.Invariant, TokensFine, C.FewPerIp, FlagFits, Known, Exclusive, HandlersFine, HoldsIssued, Gone, C.Finish;
    FinishTable(s, e.handler);
    FinishHandlers(s, e.handler);
    FinishFlag(s, e.handler);
  }

  lemma OnlyUsersChange(db: U.Db, op: U.Op, db': U.Db)
    requires U.Step(db, op, db') && (op.RegisterOp? || op.GoogleOp? || op.LoginOp?)
    ensures db'.tokens == db.tokens
  {
    hide U.WithEmail, U.WithSubject, U.EmailRows, U.Row, GoTrim;
  }

  /** Only CreateToken brings a token that was not there. */
  lemma TokensFromBefore(db: U.Db, op: U.Op, db': U.Db)
    requires U.Step(db, op, db')
    ensures forall t :: t in db'.tokens && !(op.CreateTokenOp? && t == op.hash) ==>
      t in db.tokens && db'.tokens[t].user == db.tokens[t].user && db'.tokens[t].name == db.tokens[t].name
  {
    hide GoTrim, U.ValidTokenName, U.TokensNamed, U.WithEmail, U.WithSubject, U.EmailRows, U.Row, U.DropSessions;
    hide U.ActiveAdmins, U.SessionRefused, U.Pruned, U.Register, U.GoogleUpserted, U.Authenticate;
    if op.RegisterOp? || op.GoogleOp? || op.LoginOp? { OnlyUsersChange(db, op, db'); }
  }

  lemma StoreKeeps(s: State, e: Event, s': State)
    requires Invariant(s) && e.StoreEvent? && Step(s, e, s')
    ensures Invariant(s')
  {
    hide U.Invariant, U.Step, GoTrim, C.FewPerIp, Known, Gone, FlagFits, HandlersFine, HoldsIssued, Exclusive;
    U.StepKeeps(s.db, e.op, s'.db);
    TokensFromBefore(s.db, e.op, s'.db);
  }

  lemma GetKeeps(s: State, e: Event)
    requires Invariant(s) && Enabled(s, e) && e.GetEvent?
    ensures Invariant(Effect(s, e))
  {
    hide Invariant, C.Cleaned;
    CleanedFacts(s.challenges, e.now);
    ShrinkKeeps(s, C.Cleaned(s.challenges, e.now));
  }

  lemma StepKeeps(s: State, e: Event, s': State)
    requires Invariant(s) && Step(s, e, s')
    ensures Invariant(s')
  {
    hide Invariant, Effect, Enabled, U.Step;
    match e
    case AddEvent(_, _, _, _, _, _) => AddKeeps(s, e);
    case GetEvent(now) => GetKeeps(s, e);
    case ApproveEvent(_, _, _) => ApproveKeeps(s, e);
    case PollEvent(_, _, _, _) => PollKeeps(s, e);
    case CancelEvent(_, _) => CancelKeeps(s, e);
    case CreateEvent(_, _, _) => CreateKeeps(s, e);
    case LoadEvent(_, _) => MoveKeeps(s, e);
    case RecordEvent(_, _) => MoveKeeps(s, e);
    case RevokeEvent(_, _) => RevokeKeeps(s, e);
    case FinishEvent(_) => FinishKeeps(s, e);
    case StoreEvent(_) => StoreKeeps(s, e, s');
  }

  lemma InitialInvariant()
    ensures Invariant(INITIAL)
  {
    U.EmptyInvariant();
    assert forall ip :: C.FromIp(INITIAL.challenges, ip) == {};
  }

  lemma {:induction false} RunKeeps(events: seq<Event>, states: seq<State>, n: nat)
    requires IsRun(events, states) && n <= |events|
    ensures Invariant(states[n])
  {
    hide Invariant, Step;
    if n == 0 {
      InitialInvariant();
    } else {
      RunKeeps(events, states, n - 1);
      StepKeeps(states[n - 1], events[n - 1], states[n]);
    }
  }

  // ---------- what the protocol guarantees ----------

  /** In every run at most one handler at a time issues a token for a challenge. */
  lemma AtMostOneIssue(events: seq<Event>, states: seq<State>, n: nat, p: nat, q: nat)
    requires IsRun(events, states) && n <= |events|
    requires p in states[n].handlers && q in states[n].handlers && states[n].handlers[p].id == states[n].handlers[q].id
    ensures p == q
  {
    hide U.Invariant, Step, C.FewPerIp, TokensFine, HandlersFine, FlagFits;
    RunKeeps(events, states, n);
  }

  function TokensFor(s: State, id: Id): set<Id> {
    set t | t in s.db.tokens && t in s.issued && s.issued[t] == id
  }

  /** In every run at most one token of a challenge exists at a time, even when
      a revocation failed, and it belongs to the account that approved. */
  lemma AtMostOneToken(events: seq<Event>, states: seq<State>, n: nat, id: Id)
    requires IsRun(events, states) && n <= |events|
    ensures |TokensFor(states[n], id)| <= 1
    ensures forall t :: t in TokensFor(states[n], id) ==>
      id in states[n].approvals && states[n].db.tokens[t].user == states[n].approvals[id]
  {
    hide Step, C.FewPerIp, HandlersFine, FlagFits, U.UsersFine, U.SessionOwners, U.TokenOwners, U.FewSessions;
    hide Fold, GoTrim;
    RunKeeps(events, states, n);
    var s := states[n];
    var tokens := TokensFor(s, id);
    if tokens != {} {
      var t :| t in tokens;
      forall u | u in tokens ensures u == t {
        assert U.SameName(s.db.tokens[u], s.db.tokens[t]);
      }
      assert tokens == {t};
    }
  }

  /** In every run no client address holds more than five challenges. */
  lemma AtMostFivePerIp(events: seq<Event>, states: seq<State>, n: nat, ip: Text)
    requires IsRun(events, states) && n <= |events|
    ensures |set c | c in states[n].challenges && states[n].challenges[c].clientIp == ip| <= 5
  {
    hide Step;
    RunKeeps(events, states, n);
    assert C.FromIp(states[n].challenges, ip)
        == set c | c in states[n].challenges && states[n].challenges[c].clientIp == ip;
  }

  /** An approval recorded at one moment of a run comes from an earlier event. */
  ghost predicate ApprovedBy(events: seq<Event>, states: seq<State>, k: nat, id: Id, user: Id)
    requires |states| == |events| + 1
  {
    && k < |events| && events[k].ApproveEvent? && events[k].id == id && events[k].user == user
    && id in states[k].challenges && events[k].now < states[k].challenges[id].expiresAt
    && id !in states[k].approvals
  }

  lemma NewApproval(s: State, e: Event, s': State, id: Id)
    requires Step(s, e, s') && id in s'.approvals && id !in s.approvals
    ensures e.ApproveEvent? && e.id == id && e.user == s'.approvals[id]
    ensures id in s.challenges && e.now < s.challenges[id].expiresAt
  {
    hide U.Step, C.Poll, C.Cancel, C.Add, C.Finish, U.CreateToken, U.RevokeCurrent;
  }

  lemma ApprovalStays(s: State, e: Event, s': State)
    requires Invariant(s) && Step(s, e, s')
    ensures Extends(s.approvals, s'.approvals)
  {
    hide U.Step, U.Invariant, C.Poll, C.Cancel, C.Add, C.Finish, U.CreateToken, U.RevokeCurrent, C.FewPerIp;
    hide HandlersFine, TokensFine, HoldsIssued, FlagFits, Exclusive, Gone;
  }

  lemma {:induction false} ApprovalHasEvent(events: seq<Event>, states: seq<State>, n: nat, id: Id)
    requires IsRun(events, states) && n <= |events| && id in states[n].approvals
    ensures exists k: nat :: k < n && ApprovedBy(events, states, k, id, states[n].approvals[id])
  {
    hide Invariant, Step;
    if n == 0 {
      assert false;
    } else {
      RunKeeps(events, states, n - 1);
      if id in states[n - 1].approvals {
        ApprovalHasEvent(events, states, n - 1, id);
        ApprovalStays(states[n - 1], events[n - 1], states[n]);
      } else {
        NewApproval(states[n - 1], events[n - 1], states[n], id);
        assert ApprovedBy(events, states, n - 1, id, states[n].approvals[id]);
      }
    }
  }

  /** In every run the account that approved a challenge never changes. */
  lemma {:induction false} ApprovedOnce(events: seq<Event>, states: seq<State>, m: nat, n: nat)
    requires IsRun(events, states) && m <= n <= |events|
    ensures Extends(states[m].approvals, states[n].approvals)
    decreases n
  {
    hide Invariant, Step;
    if m < n {
      ApprovedOnce(events, states, m, n - 1);
      RunKeeps(events, states, n - 1);
      ApprovalStays(states[n - 1], events[n - 1], states[n]);
    }
  }

  /** The last poll of a challenge is at least three seconds ago, if there was one. */
  predicate WellSpaced(c: C.Challenge, now: int) {
    c.lastPollAt.Some? ==> now >= c.lastPollAt.value + 3_000_000_000
  }

  lemma HandlerStarts(s: State, e: Event, s': State, p: nat)
    requires Invariant(s) && Step(s, e, s') && p !in s.handlers && p in s'.handlers
    ensures e.PollEvent? && e.handler == p && s'.handlers[p].id == e.id
    ensures e.id in s.challenges && e.now < s.challenges[e.id].expiresAt && e.hash == s.challenges[e.id].pollHash
    ensures e.id in s.approvals && !InFlight(s.handlers, e.id) && WellSpaced(s.challenges[e.id], e.now)
  {
    hide U.Step, U.Invariant, C.Cancel, C.Add, C.Finish, C.Approve, U.CreateToken, U.RevokeCurrent, C.FewPerIp;
    hide HandlersFine, TokensFine, HoldsIssued, Exclusive, Gone, InFlight;
  }

  /** A handler starts to issue only for a live, approved challenge that no
      other handler works on, with the poll secret of that challenge. */
  lemma IssueStarts(events: seq<Event>, states: seq<State>, n: nat, p: nat)
    requires IsRun(events, states) && n < |events|
    requires p !in states[n].handlers && p in states[n + 1].handlers
    ensures var e := events[n];
      && e.PollEvent? && e.handler == p && states[n + 1].handlers[p].id == e.id
      && e.id in states[n].challenges && e.now < states[n].challenges[e.id].expiresAt
      && e.hash == states[n].challenges[e.id].pollHash
      && e.id in states[n].approvals && !InFlight(states[n].handlers, e.id)
      && WellSpaced(states[n].challenges[e.id], e.now)
  {
    hide Invariant, Step;
    RunKeeps(events, states, n);
    HandlerStarts(states[n], events[n], states[n + 1], p);
  }

  // ---------- every approved client can get its token ----------

  ghost predicate Pollable(s: State, id: Id, now: int) {
    && id in s.challenges && s.challenges[id].approvedUser != [] && now < s.challenges[id].expiresAt
    && WellSpaced(s.challenges[id], now) && !InFlight(s.handlers, id)
  }

  lemma PollAnswers(s: State, h: nat, id: Id, now: int, s': State)
    requires Invariant(s) && Pollable(s, id, now) && Step(s, PollEvent(h, id, s.challenges[id].pollHash, now), s')
    ensures h in s'.handlers && s'.handlers[h].id == id && s'.handlers[h].pc == Create && id in s.approvals
    ensures id in s.challenges && id in s.names
    ensures s'.handlers[h].copy.approvedUser == s.challenges[id].approvedUser == s.approvals[id]
    ensures s'.handlers[h].copy.tokenName == s.challenges[id].tokenName == s.names[id]
    ensures s'.db == s.db && s'.issued == s.issued
  {
    hide U.Invariant, C.FewPerIp, TokensFine, HandlersFine, HoldsIssued, Exclusive;
  }

  /** In every reachable state an approved, live challenge that no handler works
      on gets a handler from a poll at least three seconds after the last one. */
  lemma PollStarts(events: seq<Event>, states: seq<State>, n: nat, h: nat, id: Id, now: int, s': State)
    requires IsRun(events, states) && n <= |events| && Pollable(states[n], id, now)
    requires Step(states[n], PollEvent(h, id, states[n].challenges[id].pollHash, now), s')
    ensures h in s'.handlers && s'.handlers[h].id == id && s'.handlers[h].pc == Create
    ensures id in states[n].approvals && s'.handlers[h].copy.approvedUser == states[n].approvals[id]
    ensures id in states[n].names && s'.handlers[h].copy.tokenName == states[n].names[id]
  {
    hide Invariant, Step, Pollable;
    RunKeeps(events, states, n);
    PollAnswers(states[n], h, id, now, s');
  }

  /** The account may get a token of that name: it is active and has none yet. */
  ghost predicate Grantable(db: U.Db, user: Id, rawName: Text) {
    && user in db.users && db.users[user].active && U.IsTokenName(GoTrim(rawName))
    && forall t :: t in db.tokens && db.tokens[t].user == user ==> Fold(db.tokens[t].name) != Fold(GoTrim(rawName))
  }

  lemma CreateAnswers(s: State, h: nat, token: Id, now: int, s': State)
    requires Step(s, CreateEvent(h, token, now), s') && token !in s.db.tokens
    requires Grantable(s.db, s.handlers[h].copy.approvedUser, s.handlers[h].copy.tokenName)
    ensures h in s'.handlers && s'.handlers[h] == s.handlers[h].(pc := Load(token)) && s'.db.users == s.db.users
    ensures s'.db.tokens == s.db.tokens[token := U.Token(s.handlers[h].copy.approvedUser,
      GoTrim(s.handlers[h].copy.tokenName), now / 1_000_000_000, None, None)]
  {
    hide GoTrim, U.ValidTokenName, U.IsTokenName, Fold;
    U.TokenNameIs(GoTrim(s.handlers[h].copy.tokenName));
  }

  lemma RestAnswers(s0: State, h: nat, s1: State, s2: State, s3: State)
    requires At(s0, h) && s0.handlers[h].pc.Load?
    requires Step(s0, LoadEvent(h, true), s1) && Step(s1, RecordEvent(h, true), s2) && Step(s2, FinishEvent(h), s3)
    ensures s3.db == s0.db && s0.handlers[h].id in s3.delivered && s0.handlers[h].id !in s3.challenges
  {
  }

  /** From every reachable state: if the approving account may get the token,
      the next poll in time leads to its delivery when the store does not fail,
      and the token is the account's, with the name asked for and no expiry. */
  lemma SignInCompletes(events: seq<Event>, states: seq<State>, n: nat, h: nat, id: Id, token: Id, poll: int,
                        create: int, s1: State, s2: State, s3: State, s4: State, s5: State)
    requires IsRun(events, states) && n <= |events| && Pollable(states[n], id, poll)
    requires Grantable(states[n].db, states[n].challenges[id].approvedUser, states[n].challenges[id].tokenName)
    requires token !in states[n].db.tokens
    requires Step(states[n], PollEvent(h, id, states[n].challenges[id].pollHash, poll), s1)
    requires Step(s1, CreateEvent(h, token, create), s2)
    requires Step(s2, LoadEvent(h, true), s3) && Step(s3, RecordEvent(h, true), s4) && Step(s4, FinishEvent(h), s5)
    ensures id in s5.delivered && id !in s5.challenges && id in states[n].approvals && id in states[n].names
    ensures s5.db.tokens == states[n].db.tokens[token := U.Token(
      states[n].approvals[id], GoTrim(states[n].names[id]), create / 1_000_000_000, None, None)]
  {
    hide Invariant, Step, Pollable, Grantable, GoTrim;
    RunKeeps(events, states, n);
    PollAnswers(states[n], h, id, poll, s1);
    CreateAnswers(s1, h, token, create, s2);
    RestAnswers(s2, h, s3, s4, s5);
  }

  lemma GaveUp(s: State, h: nat, now: int, s': State)
    requires Invariant(s) && At(s, h) && s.handlers[h].pc.GiveUp? && Step(s, FinishEvent(h), s')
    ensures var id := s.handlers[h].id;
      && s'.db == s.db && s'.delivered == s.delivered && id !in s'.delivered
      && s'.challenges == (if id in s.challenges then s.challenges[id := s.challenges[id].(issuing := false)]
                           else s.challenges)
      && (id in s.challenges && now < s.challenges[id].expiresAt && WellSpaced(s.challenges[id], now) ==>
            Pollable(s', id, now))
  {
    hide U.Invariant, TokensFine, C.FewPerIp, FlagFits, HoldsIssued, Gone;
  }

  /** When a handler gives up, its challenge is as it was, without the flag, and
      can be polled again: from every reachable state the client may try anew. */
  lemma GivingUpFrees(events: seq<Event>, states: seq<State>, n: nat, h: nat, now: int, s': State)
    requires IsRun(events, states) && n <= |events| && At(states[n], h) && states[n].handlers[h].pc.GiveUp?
    requires Step(states[n], FinishEvent(h), s')
    ensures var s, id := states[n], states[n].handlers[h].id;
      && s'.db == s.db && s'.delivered == s.delivered && id !in s'.delivered
      && s'.challenges == (if id in s.challenges then s.challenges[id := s.challenges[id].(issuing := false)]
                           else s.challenges)
      && (id in s.challenges && now < s.challenges[id].expiresAt && WellSpaced(s.challenges[id], now) ==>
            Pollable(s', id, now))
  {
    hide Invariant, Step, Pollable;
    RunKeeps(events, states, n);
    GaveUp(states[n], h, now, s');
  }

  lemma DeliveredIsOver(s: State, id: Id)
    requires Invariant(s)
    ensures id in s.delivered ==> !InFlight(s.handlers, id)
  {
    hide U.Invariant, TokensFine, C.FewPerIp, FlagFits;
  }

  lemma IssuedByHandler(s: State, e: Event, s': State, id: Id)
    requires Step(s, e, s') && !InFlight(s.handlers, id)
    ensures id in s.delivered ==> id in s'.delivered
    ensures forall t :: t in s'.issued && s'.issued[t] == id ==> t in s.issued && s.issued[t] == id
  {
    hide U.Step, C.Cancel, C.Add, C.Finish, C.Approve, C.Poll, U.CreateToken, U.RevokeCurrent;
  }

  /** Once a client got its token, no further token is created for its challenge. */
  lemma {:induction false} NoTokenAfterDelivery(events: seq<Event>, states: seq<State>, m: nat, n: nat, id: Id)
    requires IsRun(events, states) && m <= n <= |events| && id in states[m].delivered
    ensures id in states[n].delivered && !InFlight(states[n].handlers, id)
    ensures forall t :: t in states[n].issued && states[n].issued[t] == id ==>
      t in states[m].issued && states[m].issued[t] == id
    decreases n
  {
    hide Invariant, Step;
    RunKeeps(events, states, n);
    DeliveredIsOver(states[n], id);
    if m < n {
      NoTokenAfterDelivery(events, states, m, n - 1, id);
      IssuedByHandler(states[n - 1], events[n - 1], states[n], id);
    }
  }
}
