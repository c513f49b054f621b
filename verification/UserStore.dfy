/** Accounts, sessions and API tokens (auth/sqlite.go). Each store method is one
    transaction. Random ids, token and password hashes and clock readings (in
    seconds, where not said otherwise) are inputs; an e-mail address is an input that has already
    been brought to normal form or rejected. */
module UserStore {
  import opened Arithmetic
  import opened Outcomes
  import opened Sets
  import opened Text

  const SESSION_SECONDS: int := 30 * 24 * 60 * 60
  const MAX_SESSIONS: nat := 20
  const PASSWORD_MIN: nat := 10
  const SECOND: int := 1_000_000_000
  const TOKEN_MIN: nat := 20

  /** "bbk_" */
  const TOKEN_PREFIX: Text := [0x62, 0x62, 0x6B, 0x5F]

  type Id = Text

  datatype Role = Reader | Manager | Admin

  datatype User = User(
    email: Text,
    name: Text,
    role: Role,
    active: bool,
    passwordHash: Text,
    googleSubject: Option<Text>,
    createdAt: int,
    updatedAt: int,
    lastLogin: Option<int>)

  datatype Session = Session(user: Id, createdAt: int, expiresAt: int)

  datatype Token = Token(user: Id, name: Text, createdAt: int, lastUsed: Option<int>, expiresAt: Option<int>)

  datatype Db = Db(
    users: map<Id, User>,
    sessions: map<Id, Session>,
    tokens: map<Id, Token>,
    registrationOpen: bool)

  datatype Error =
    | InvalidEmail | ShortPassword | InvalidRole | EmailExists | RegistrationClosed | SubjectRequired | Inactive
    | IdentityConflict | LastAdmin | UserNotFound | InvalidTokenName | ExpiryInPast | TokenNameExists
    | TokenNotFound | InvalidCredentials | Constraint

  // ---------- texts ----------

  predicate TokenNameChar(c: nat) {
    || 0x41 <= c <= 0x5A || 0x61 <= c <= 0x7A || 0x30 <= c <= 0x39
    || c == 0x2E || c == 0x5F || c == 0x2D
  }

  predicate ValidTokenName(s: Text) {
    1 <= |s| <= 80 && forall i :: 0 <= i < |s| ==> TokenNameChar(s[i])
  }

  // ---------- queries ----------

  predicate HasEmail(u: User, email: Text) { Fold(u.email) == Fold(email) }

  function WithEmail(users: map<Id, User>, email: Text): set<Id> {
    set i | i in users && HasEmail(users[i], email)
  }

  /** The account of an address as typed. */
  ghost predicate Addressed(users: map<Id, User>, id: Id, rawEmail: Text) {
    id in users && Fold(users[id].email) == Fold(GoTrim(rawEmail))
  }

  function WithSubject(users: map<Id, User>, subject: Text): set<Id> {
    set i | i in users && users[i].googleSubject == Some(subject)
  }

  predicate ActiveAdmin(u: User) { u.active && u.role == Admin }

  function ActiveAdmins(users: map<Id, User>): set<Id> {
    set i | i in users && ActiveAdmin(users[i])
  }

  function SessionsOf(sessions: map<Id, Session>, user: Id): set<Id> {
    set h | h in sessions && sessions[h].user == user
  }

  function TokensNamed(tokens: map<Id, Token>, user: Id, name: Text): set<Id> {
    set h | h in tokens && tokens[h].user == user && Fold(tokens[h].name) == Fold(name)
  }

  /** The token that the user means by a name as typed. */
  ghost predicate Named(t: Token, user: Id, rawName: Text) {
    t.user == user && Fold(t.name) == Fold(GoTrim(rawName))
  }

  function DropSessions(sessions: map<Id, Session>, user: Id): map<Id, Session> {
    map h | h in sessions && sessions[h].user != user :: sessions[h]
  }

  function DropTokens(tokens: map<Id, Token>, user: Id): map<Id, Token> {
    map h | h in tokens && tokens[h].user != user :: tokens[h]
  }

  function Live(sessions: map<Id, Session>, now: int): map<Id, Session> {
    map h | h in sessions && sessions[h].expiresAt > now :: sessions[h]
  }

  /** The first account becomes the administrator. */
  function FirstRole(users: map<Id, User>): Role { if users == map[] then Admin else Reader }

  // ---------- the transactions ----------

  /** `size` is the length of the password in bytes. */
  function Register(db: Db, id: Id, email: Option<Text>, name: Text, size: nat, hash: Text,
                    now: int): Result<Db, Error>
  {
    if email.None? then Err(InvalidEmail)
    else if size < PASSWORD_MIN then Err(ShortPassword)
    else if WithEmail(db.users, email.value) != {} then Err(EmailExists)
    else if db.users != map[] && !db.registrationOpen then Err(RegistrationClosed)
    else if id in db.users then Err(Constraint)
    else Ok(db.(users := db.users[id :=
      User(email.value, name, FirstRole(db.users), true, hash, None, now, now, None)]))
  }

  function SignedIn(u: User, name: Text, now: int): User {
    u.(name := if u.name == [] then name else u.name, updatedAt := now, lastLogin := Some(now))
  }

  /** Sign-in with a verified Google identity. `bySubject` and `byEmail` are
      the rows that the two queries return, if any. */
  function GoogleUpserted(db: Db, id: Id, email: Option<Text>, name: Text, rawSubject: Text, authoritative: bool,
                        bySubject: Option<Id>, byEmail: Option<Id>, now: int): Result<Db, Error>
    requires bySubject.Some? ==> bySubject.value in db.users
    requires byEmail.Some? ==> byEmail.value in db.users
  {
    var subject := GoTrim(rawSubject);
    if email.None? then Err(InvalidEmail)
    else if subject == [] then Err(SubjectRequired)
    else if bySubject.Some? then
      var u := db.users[bySubject.value];
      if !u.active then Err(Inactive)
      else Ok(db.(users := db.users[bySubject.value := SignedIn(u, name, now)]))
    else if byEmail.Some? then
      var u := db.users[byEmail.value];
      if !u.active then Err(Inactive)
      else if (u.googleSubject.Some? && u.googleSubject.value != subject) || !authoritative then Err(IdentityConflict)
      else Ok(db.(users := db.users[byEmail.value := SignedIn(u, name, now).(googleSubject := Some(subject))]))
    else if db.users != map[] && !db.registrationOpen then Err(RegistrationClosed)
    else if id in db.users then Err(Constraint)
    else Ok(db.(users := db.users[id :=
      User(email.value, name, FirstRole(db.users), true, [], Some(subject), now, now, Some(now))]))
  }

  /** A row that a query for `found` returns: one of them, or none. */
  ghost predicate Row(row: Option<Id>, found: set<Id>) {
    if found == {} then row.None? else row.Some? && row.value in found
  }

  /** `role` is None for a name that is no role. */
  function UserUpdated(db: Db, id: Id, role: Option<Role>, active: bool, now: int): Result<Db, Error> {
    if role.None? then Err(InvalidRole)
    else if id !in db.users then Err(UserNotFound)
    else
      var u := db.users[id];
      if ActiveAdmin(u) && (!active || role.value != Admin) && |ActiveAdmins(db.users)| <= 1 then Err(LastAdmin)
      else
        var users := db.users[id := u.(role := role.value, active := active, updatedAt := now)];
        if active then Ok(db.(users := users))
        else Ok(db.(users := users, sessions := DropSessions(db.sessions, id), tokens := DropTokens(db.tokens, id)))
  }

  function PasswordSet(db: Db, id: Id, size: nat, hash: Text, now: int): Result<Db, Error> {
    if size < PASSWORD_MIN then Err(ShortPassword)
    else if id !in db.users then Err(UserNotFound)
    else Ok(db.(users := db.users[id := db.users[id].(passwordHash := hash, updatedAt := now)],
                sessions := DropSessions(db.sessions, id), tokens := DropTokens(db.tokens, id)))
  }

  /** Sign-in with a password: `row` is the account that the query by address
      returns and `fits` says which stored hashes the password fits. */
  function Authenticate(db: Db, row: Option<Id>, fits: Text -> bool, now: int): Result<Db, Error>
    requires row.Some? ==> row.value in db.users
  {
    if row.None? then Err(InvalidCredentials)
    else
      var u := db.users[row.value];
      if u.passwordHash == [] || !fits(u.passwordHash) then Err(InvalidCredentials)
      else if !u.active then Err(Inactive)
      else Ok(db.(users := db.users[row.value := u.(updatedAt := now, lastLogin := Some(now))]))
  }

  function NewToken(user: Id, name: Text, expiry: Option<int>, now: int): Token {
    Token(user, name, now / SECOND, None, if expiry.Some? then Some(expiry.value / SECOND) else None)
  }

  /** `expiry` and `now` are in nanoseconds here; the table keeps whole seconds. */
  function CreateToken(db: Db, hash: Id, user: Id, rawName: Text, expiry: Option<int>, now: int): Result<Db, Error> {
    var name := GoTrim(rawName);
    if !ValidTokenName(name) then Err(InvalidTokenName)
    else if expiry.Some? && expiry.value <= now then Err(ExpiryInPast)
    else if user !in db.users then Err(UserNotFound)
    else if !db.users[user].active then Err(Inactive)
    else if TokensNamed(db.tokens, user, name) != {} then Err(TokenNameExists)
    else if hash in db.tokens then Err(Constraint)
    else Ok(db.(tokens := db.tokens[hash := NewToken(user, name, expiry, now)]))
  }

  function RevokeToken(db: Db, user: Id, rawName: Text): Result<Db, Error> {
    var name := GoTrim(rawName);
    if !ValidTokenName(name) then Err(InvalidTokenName)
    else if TokensNamed(db.tokens, user, name) == {} then Err(TokenNotFound)
    else Ok(db.(tokens := db.tokens - TokensNamed(db.tokens, user, name)))
  }

  function RevokeCurrent(db: Db, hash: Id): Result<Db, Error> {
    if hash !in db.tokens then Err(TokenNotFound) else Ok(db.(tokens := db.tokens - {hash}))
  }

  /** The shape of a token; what the table is searched for is its hash. */
  predicate TokenShaped(token: Text) { TOKEN_PREFIX <= token && Utf8Size(token) >= TOKEN_MIN }

  function UseToken(db: Db, token: Text, hash: Id, now: int): Db {
    if !TokenShaped(token) || hash !in db.tokens then db
    else
      var t := db.tokens[hash];
      if (t.expiresAt.Some? && t.expiresAt.value <= now) || t.user !in db.users || !db.users[t.user].active then db
      else db.(tokens := db.tokens[hash := t.(lastUsed := Some(now))])
  }

  /** `kept` holds the newest sessions of the user, at most MAX_SESSIONS of
      them; sessions created in the same second may be kept in any order. */
  ghost predicate Pruned(all: map<Id, Session>, user: Id, kept: map<Id, Session>) {
    && (forall h :: h in kept ==> h in all && kept[h] == all[h])
    && (forall h :: h in all && all[h].user != user ==> h in kept)
    && |SessionsOf(kept, user)| == Min(MAX_SESSIONS, |SessionsOf(all, user)|)
    && (forall g, h :: g in kept && h in all && h !in kept && all[g].user == user ==>
          all[h].createdAt <= all[g].createdAt)
  }

  function WithNewSession(sessions: map<Id, Session>, hash: Id, user: Id, now: int): map<Id, Session> {
    Live(sessions, now)[hash := Session(user, now, now + SESSION_SECONDS)]
  }

  /** Why no session can be opened, if there is a reason. */
  function SessionRefused(db: Db, hash: Id, user: Id, now: int): Option<Error> {
    if user !in db.users then Some(UserNotFound)
    else if !db.users[user].active then Some(Inactive)
    else if hash in Live(db.sessions, now) then Some(Constraint)
    else None
  }

  ghost predicate SessionAdded(db: Db, hash: Id, user: Id, now: int, db': Db) {
    if SessionRefused(db, hash, user, now).Some? then db' == db
    else
      && db' == db.(sessions := db'.sessions)
      && Pruned(WithNewSession(db.sessions, hash, user, now), user, db'.sessions)
  }

  // ---------- what every reachable store satisfies ----------

  ghost predicate HasAdmin(users: map<Id, User>) {
    users != map[] ==> exists i :: i in users && ActiveAdmin(users[i])
  }

  ghost predicate UniqueEmails(users: map<Id, User>) {
    forall i, j :: i in users && j in users && HasEmail(users[i], users[j].email) ==> i == j
  }

  ghost predicate SameSubject(u: User, v: User) { u.googleSubject.Some? && u.googleSubject == v.googleSubject }

  ghost predicate UniqueSubjects(users: map<Id, User>) {
    forall i, j :: i in users && j in users && SameSubject(users[i], users[j]) ==> i == j
  }

  predicate IsActive(users: map<Id, User>, id: Id) { id in users && users[id].active }

  ghost predicate SessionOwners(users: map<Id, User>, sessions: map<Id, Session>) {
    forall h :: h in sessions ==> IsActive(users, sessions[h].user)
  }

  ghost predicate TokenOwners(users: map<Id, User>, tokens: map<Id, Token>) {
    forall h :: h in tokens ==> IsActive(users, tokens[h].user)
  }

  ghost predicate FewSessions(sessions: map<Id, Session>) {
    forall u :: |SessionsOf(sessions, u)| <= MAX_SESSIONS
  }

  ghost predicate SameName(t: Token, u: Token) { t.user == u.user && Fold(t.name) == Fold(u.name) }

  ghost predicate UniqueTokens(tokens: map<Id, Token>) {
    forall g, h :: g in tokens && h in tokens && SameName(tokens[g], tokens[h]) ==> g == h
  }

  ghost predicate UsersFine(users: map<Id, User>) { HasAdmin(users) && UniqueEmails(users) && UniqueSubjects(users) }

  ghost predicate Invariant(db: Db) {
    && UsersFine(db.users) && SessionOwners(db.users, db.sessions) && TokenOwners(db.users, db.tokens)
    && FewSessions(db.sessions) && UniqueTokens(db.tokens)
  }

  /** Accounts stay, keep their address, and keep a Google subject once set. */
  ghost predicate IdentityKept(users: map<Id, User>, users': map<Id, User>) {
    forall i :: i in users ==>
      && i in users' && users'[i].email == users[i].email
      && (users[i].googleSubject.Some? ==> users'[i].googleSubject == users[i].googleSubject)
  }

  const EMPTY := Db(map[], map[], map[], true)

  datatype Op =
    | RegisterOp(id: Id, email: Option<Text>, name: Text, size: nat, hash: Text, now: int)
    | GoogleOp(id: Id, email: Option<Text>, name: Text, subject: Text, authoritative: bool, now: int)
    | LoginOp(address: Text, fits: Text -> bool, now: int)
    | UpdateOp(id: Id, role: Option<Role>, active: bool, now: int)
    | PasswordOp(id: Id, size: nat, hash: Text, now: int)
    | NewSessionOp(hash: Id, user: Id, now: int)
    | DeleteSessionOp(hash: Id)
    | CreateTokenOp(hash: Id, user: Id, name: Text, expiry: Option<int>, now: int)
    | RevokeTokenOp(user: Id, name: Text)
    | RevokeCurrentOp(hash: Id)
    | UseTokenOp(token: Text, hash: Id, now: int)
    | SettingsOp(open: bool)

  /** A transaction that fails changes nothing. */
  function Commit(db: Db, r: Result<Db, Error>): Db { if r.Ok? then r.value else db }

  function EmailRows(users: map<Id, User>, email: Option<Text>): set<Id> {
    if email.Some? then WithEmail(users, email.value) else {}
  }

  ghost predicate GoogleStep(db: Db, op: Op, r: Result<Db, Error>)
    requires op.GoogleOp?
  {
    exists s, e :: Row(s, WithSubject(db.users, GoTrim(op.subject)))
      && Row(e, EmailRows(db.users, op.email))
      && r == GoogleUpserted(db, op.id, op.email, op.name, op.subject, op.authoritative, s, e, op.now)
  }

  ghost predicate LoginStep(db: Db, op: Op, r: Result<Db, Error>)
    requires op.LoginOp?
  {
    exists e :: Row(e, WithEmail(db.users, GoTrim(op.address))) && r == Authenticate(db, e, op.fits, op.now)
  }

  /** One call of the store, whichever rows and ties its queries return. */
  ghost predicate Step(db: Db, op: Op, db': Db) {
    match op
    case RegisterOp(id, email, name, size, hash, now) =>
      db' == Commit(db, Register(db, id, email, name, size, hash, now))
    case GoogleOp(_, _, _, _, _, _) => exists r :: GoogleStep(db, op, r) && db' == Commit(db, r)
    case LoginOp(_, _, _) => exists r :: LoginStep(db, op, r) && db' == Commit(db, r)
    case UpdateOp(id, role, active, now) => db' == Commit(db, UserUpdated(db, id, role, active, now))
    case PasswordOp(id, size, hash, now) => db' == Commit(db, PasswordSet(db, id, size, hash, now))
    case NewSessionOp(hash, user, now) => SessionAdded(db, hash, user, now, db')
    case DeleteSessionOp(hash) => db' == db.(sessions := db.sessions - {hash})
    case CreateTokenOp(hash, user, name, expiry, now) =>
      db' == Commit(db, CreateToken(db, hash, user, name, expiry, now))
    case RevokeTokenOp(user, name) => db' == Commit(db, RevokeToken(db, user, name))
    case RevokeCurrentOp(hash) => db' == Commit(db, RevokeCurrent(db, hash))
    case UseTokenOp(token, hash, now) => db' == UseToken(db, token, hash, now)
    case SettingsOp(open) => db' == db.(registrationOpen := open)
  }

  // ---------- changes to the users table ----------

  lemma AddKeepsAdmin(users: map<Id, User>, id: Id, u: User)
    requires HasAdmin(users) && id !in users && u.active && u.role == FirstRole(users)
    ensures HasAdmin(users[id := u])
  {
    if users == map[] {
      assert ActiveAdmin(users[id := u][id]);
    } else {
      var i :| i in users && ActiveAdmin(users[i]);
      assert ActiveAdmin(users[id := u][i]);
    }
  }

  lemma AddKeepsUnique(users: map<Id, User>, id: Id, u: User)
    requires UniqueEmails(users) && UniqueSubjects(users) && id !in users
    requires WithEmail(users, u.email) == {}
    requires u.googleSubject.Some? ==> WithSubject(users, u.googleSubject.value) == {}
    ensures UniqueEmails(users[id := u]) && UniqueSubjects(users[id := u])
  {
    hide Fold;
    forall i | i in users ensures !HasEmail(users[i], u.email) && !SameSubject(users[i], u) {
      assert i !in WithEmail(users, u.email);
      if u.googleSubject.Some? { assert i !in WithSubject(users, u.googleSubject.value); }
    }
  }

  lemma AddKeepsUsers(users: map<Id, User>, id: Id, u: User)
    requires UsersFine(users) && id !in users && u.active && u.role == FirstRole(users)
    requires WithEmail(users, u.email) == {}
    requires u.googleSubject.Some? ==> WithSubject(users, u.googleSubject.value) == {}
    ensures UsersFine(users[id := u]) && IdentityKept(users, users[id := u])
  {
    hide Fold;
    AddKeepsAdmin(users, id, u);
    AddKeepsUnique(users, id, u);
  }

  /** The subject stays, or a subject that no account has is set for the first time. */
  ghost predicate SubjectFine(users: map<Id, User>, before: User, u: User) {
    || u.googleSubject == before.googleSubject
    || (before.googleSubject.None? && u.googleSubject.Some? && WithSubject(users, u.googleSubject.value) == {})
  }

  lemma SetKeepsUnique(users: map<Id, User>, id: Id, u: User)
    requires UniqueEmails(users) && UniqueSubjects(users) && id in users
    requires u.email == users[id].email && SubjectFine(users, users[id], u)
    ensures UniqueEmails(users[id := u]) && UniqueSubjects(users[id := u]) && IdentityKept(users, users[id := u])
  {
    hide Fold;
    forall i | i in users && i != id ensures !SameSubject(users[i], u) && !SameSubject(u, users[i]) {
      assert SameSubject(users[i], users[id]) ==> i == id;
      assert SameSubject(users[id], users[i]) ==> i == id;
      if u.googleSubject != users[id].googleSubject { assert i !in WithSubject(users, u.googleSubject.value); }
    }
  }

  /** The guard of UpdateUser leaves another active administrator. */
  lemma AnotherAdmin(users: map<Id, User>, id: Id, u: User)
    requires HasAdmin(users) && id in users
    requires ActiveAdmin(users[id]) && !ActiveAdmin(u) ==> |ActiveAdmins(users)| > 1
    ensures HasAdmin(users[id := u])
  {
    var admins := ActiveAdmins(users);
    var a :| a in users && ActiveAdmin(users[a]);
    if ActiveAdmin(users[id]) && !ActiveAdmin(u) {
      assert |admins - {id}| == |admins| - 1;
      var b :| b in admins - {id};
      assert ActiveAdmin(users[id := u][b]);
    } else if a == id {
      assert ActiveAdmin(users[id := u][id]);
    } else {
      assert ActiveAdmin(users[id := u][a]);
    }
  }

  lemma OwnersKept(users: map<Id, User>, users': map<Id, User>, sessions: map<Id, Session>, tokens: map<Id, Token>)
    requires SessionOwners(users, sessions) && TokenOwners(users, tokens)
    requires forall i :: IsActive(users, i) ==> IsActive(users', i)
    ensures SessionOwners(users', sessions) && TokenOwners(users', tokens)
  {
  }

  lemma DropKeepsOwners(users: map<Id, User>, id: Id, u: User, sessions: map<Id, Session>, tokens: map<Id, Token>)
    requires SessionOwners(users, sessions) && TokenOwners(users, tokens) && id in users
    ensures SessionOwners(users[id := u], DropSessions(sessions, id))
    ensures TokenOwners(users[id := u], DropTokens(tokens, id))
  {
    assert forall i :: i != id ==> IsActive(users[id := u], i) == IsActive(users, i);
  }

  lemma FewerSessions(sessions: map<Id, Session>, fewer: map<Id, Session>)
    requires FewSessions(sessions)
    requires forall h :: h in fewer ==> h in sessions && fewer[h] == sessions[h]
    ensures FewSessions(fewer)
  {
    forall u ensures |SessionsOf(fewer, u)| <= MAX_SESSIONS {
      SubsetSize(SessionsOf(fewer, u), SessionsOf(sessions, u));
    }
  }

  lemma DropKeepsOthers(sessions: map<Id, Session>, tokens: map<Id, Token>, id: Id)
    requires FewSessions(sessions) && UniqueTokens(tokens)
    ensures FewSessions(DropSessions(sessions, id)) && UniqueTokens(DropTokens(tokens, id))
  {
    hide Fold;
    FewerSessions(sessions, DropSessions(sessions, id));
  }

  // ---------- every operation keeps the invariant ----------

  lemma AddUserKeeps(db: Db, id: Id, u: User)
    requires Invariant(db) && id !in db.users && u.active && u.role == FirstRole(db.users)
    requires WithEmail(db.users, u.email) == {}
    requires u.googleSubject.Some? ==> WithSubject(db.users, u.googleSubject.value) == {}
    ensures Invariant(db.(users := db.users[id := u])) && IdentityKept(db.users, db.users[id := u])
  {
    hide UsersFine, WithEmail, WithSubject, IdentityKept, FewSessions, UniqueTokens, SessionOwners, TokenOwners;
    AddKeepsUsers(db.users, id, u);
    OwnersKept(db.users, db.users[id := u], db.sessions, db.tokens);
  }

  /** Changing an account without touching its address, role or activity. */
  lemma TouchUserKeeps(db: Db, id: Id, u: User)
    requires Invariant(db) && id in db.users
    requires u.email == db.users[id].email && u.role == db.users[id].role && u.active == db.users[id].active
    requires SubjectFine(db.users, db.users[id], u)
    ensures Invariant(db.(users := db.users[id := u])) && IdentityKept(db.users, db.users[id := u])
  {
    hide UniqueEmails, UniqueSubjects, HasAdmin, SubjectFine, IdentityKept, FewSessions, UniqueTokens;
    hide SessionOwners, TokenOwners;
    SetKeepsUnique(db.users, id, u);
    AnotherAdmin(db.users, id, u);
    OwnersKept(db.users, db.users[id := u], db.sessions, db.tokens);
  }

  lemma IdentityReflexive(users: map<Id, User>)
    ensures IdentityKept(users, users)
  {
  }

  lemma RegisterKeeps(db: Db, id: Id, email: Option<Text>, name: Text, size: nat, hash: Text, now: int)
    requires Invariant(db)
    ensures var db' := Commit(db, Register(db, id, email, name, size, hash, now));
      Invariant(db') && IdentityKept(db.users, db'.users)
  {
    hide Invariant, IdentityKept, WithEmail;
    IdentityReflexive(db.users);
    if Register(db, id, email, name, size, hash, now).Ok? {
      AddUserKeeps(db, id, User(email.value, name, FirstRole(db.users), true, hash, None, now, now, None));
    }
  }

  lemma GoogleKeeps(db: Db, op: Op, s: Option<Id>, e: Option<Id>)
    requires Invariant(db) && op.GoogleOp? && Row(s, WithSubject(db.users, GoTrim(op.subject)))
    requires Row(e, EmailRows(db.users, op.email))
    ensures var spec := GoogleUpserted(db, op.id, op.email, op.name, op.subject, op.authoritative, s, e, op.now);
      var db' := Commit(db, spec);
      Invariant(db') && IdentityKept(db.users, db'.users)
  {
    hide Invariant, IdentityKept, HasEmail, GoTrim;
    IdentityReflexive(db.users);
    if GoogleUpserted(db, op.id, op.email, op.name, op.subject, op.authoritative, s, e, op.now).Ok? {
      if s.Some? {
        TouchUserKeeps(db, s.value, SignedIn(db.users[s.value], op.name, op.now));
      } else if e.Some? {
        var u := SignedIn(db.users[e.value], op.name, op.now);
        TouchUserKeeps(db, e.value, u.(googleSubject := Some(GoTrim(op.subject))));
      } else {
        var subject := Some(GoTrim(op.subject));
        var role := FirstRole(db.users);
        AddUserKeeps(db, op.id, User(op.email.value, op.name, role, true, [], subject, op.now, op.now, Some(op.now)));
      }
    }
  }

  lemma LoginKeeps(db: Db, op: Op, e: Option<Id>)
    requires Invariant(db) && op.LoginOp? && Row(e, WithEmail(db.users, GoTrim(op.address)))
    ensures var db' := Commit(db, Authenticate(db, e, op.fits, op.now));
      Invariant(db') && IdentityKept(db.users, db'.users)
  {
    hide Invariant, IdentityKept, HasEmail, GoTrim;
    IdentityReflexive(db.users);
    if Authenticate(db, e, op.fits, op.now).Ok? {
      TouchUserKeeps(db, e.value, db.users[e.value].(updatedAt := op.now, lastLogin := Some(op.now)));
    }
  }

  lemma UpdateKeeps(db: Db, id: Id, role: Option<Role>, active: bool, now: int)
    requires Invariant(db)
    ensures var db' := Commit(db, UserUpdated(db, id, role, active, now));
      Invariant(db') && IdentityKept(db.users, db'.users)
  {
    hide UniqueEmails, UniqueSubjects, HasAdmin, IdentityKept, FewSessions, UniqueTokens, SessionOwners;
    hide TokenOwners, DropSessions, DropTokens, ActiveAdmins;
    IdentityReflexive(db.users);
    if UserUpdated(db, id, role, active, now).Ok? {
      var u := db.users[id].(role := role.value, active := active, updatedAt := now);
      SetKeepsUnique(db.users, id, u);
      AnotherAdmin(db.users, id, u);
      if active {
        OwnersKept(db.users, db.users[id := u], db.sessions, db.tokens);
      } else {
        DropKeepsOwners(db.users, id, u, db.sessions, db.tokens);
        DropKeepsOthers(db.sessions, db.tokens, id);
      }
    }
  }

  lemma PasswordKeeps(db: Db, id: Id, size: nat, hash: Text, now: int)
    requires Invariant(db)
    ensures var db' := Commit(db, PasswordSet(db, id, size, hash, now));
      Invariant(db') && IdentityKept(db.users, db'.users)
  {
    hide UniqueEmails, UniqueSubjects, HasAdmin, IdentityKept, FewSessions, UniqueTokens, SessionOwners;
    hide TokenOwners, DropSessions, DropTokens;
    IdentityReflexive(db.users);
    if PasswordSet(db, id, size, hash, now).Ok? {
      var u := db.users[id].(passwordHash := hash, updatedAt := now);
      TouchUserKeeps(db, id, u);
      DropKeepsOwners(db.users, id, u, db.sessions, db.tokens);
      DropKeepsOthers(db.sessions, db.tokens, id);
    }
  }

  lemma AddedFew(sessions: map<Id, Session>, hash: Id, user: Id, now: int, kept: map<Id, Session>)
    requires FewSessions(sessions) && Pruned(WithNewSession(sessions, hash, user, now), user, kept)
    ensures FewSessions(kept)
  {
    forall u ensures |SessionsOf(kept, u)| <= MAX_SESSIONS {
      if u != user {
        SubsetSize(SessionsOf(kept, u), SessionsOf(sessions, u));
      }
    }
  }

  lemma AddedOwners(db: Db, hash: Id, user: Id, now: int, kept: map<Id, Session>)
    requires SessionOwners(db.users, db.sessions) && IsActive(db.users, user)
    requires Pruned(WithNewSession(db.sessions, hash, user, now), user, kept)
    ensures SessionOwners(db.users, kept)
  {
    var all := WithNewSession(db.sessions, hash, user, now);
    forall h | h in kept ensures IsActive(db.users, kept[h].user) {
      assert h in all && kept[h] == all[h];
      assert h == hash || h in db.sessions;
    }
  }

  lemma NewSessionKeeps(db: Db, hash: Id, user: Id, now: int, db': Db)
    requires Invariant(db) && SessionAdded(db, hash, user, now, db')
    ensures Invariant(db')
  {
    hide UsersFine, TokenOwners, UniqueTokens;
    if SessionRefused(db, hash, user, now).None? {
      AddedFew(db.sessions, hash, user, now, db'.sessions);
      AddedOwners(db, hash, user, now, db'.sessions);
    }
  }

  lemma DeleteSessionKeeps(db: Db, hash: Id)
    requires Invariant(db)
    ensures Invariant(db.(sessions := db.sessions - {hash}))
  {
    hide UsersFine, UniqueTokens, FewSessions, IsActive;
    FewerSessions(db.sessions, db.sessions - {hash});
  }

  lemma AddKeepsTokens(tokens: map<Id, Token>, hash: Id, t: Token)
    requires UniqueTokens(tokens) && TokensNamed(tokens, t.user, t.name) == {}
    ensures UniqueTokens(tokens[hash := t])
  {
    hide Fold;
    forall h | h in tokens ensures !SameName(tokens[h], t) {
      assert h !in TokensNamed(tokens, t.user, t.name);
    }
  }

  lemma CreateTokenKeeps(db: Db, hash: Id, user: Id, rawName: Text, expiry: Option<int>, now: int)
    requires Invariant(db)
    ensures Invariant(Commit(db, CreateToken(db, hash, user, rawName, expiry, now)))
  {
    hide UsersFine, SessionOwners, FewSessions, UniqueTokens, GoTrim, ValidTokenName, TokensNamed, TokenNameChar;
    var r := CreateToken(db, hash, user, rawName, expiry, now);
    if r.Ok? {
      AddKeepsTokens(db.tokens, hash, NewToken(user, GoTrim(rawName), expiry, now));
    }
  }

  /** Tokens may disappear or be marked as used. */
  lemma FewerTokens(db: Db, tokens: map<Id, Token>)
    requires Invariant(db)
    requires forall h :: h in tokens ==>
      h in db.tokens && tokens[h].user == db.tokens[h].user && tokens[h].name == db.tokens[h].name
    ensures Invariant(db.(tokens := tokens))
  {
    hide UsersFine, SessionOwners, FewSessions, IsActive, Fold;
  }

  lemma CreateTokenUsers(db: Db, hash: Id, user: Id, rawName: Text, expiry: Option<int>, now: int)
    ensures Commit(db, CreateToken(db, hash, user, rawName, expiry, now)).users == db.users
  {
    hide GoTrim, ValidTokenName, TokensNamed;
  }

  lemma RevokeTokenKeeps(db: Db, user: Id, name: Text)
    requires Invariant(db)
    ensures var db' := Commit(db, RevokeToken(db, user, name)); Invariant(db') && db'.users == db.users
  {
    hide Invariant, GoTrim, ValidTokenName, TokensNamed;
    FewerTokens(db, Commit(db, RevokeToken(db, user, name)).tokens);
  }

  lemma GoogleStepKeeps(db: Db, op: Op, db': Db)
    requires Invariant(db) && op.GoogleOp? && Step(db, op, db')
    ensures Invariant(db') && IdentityKept(db.users, db'.users)
  {
    hide Invariant, IdentityKept, GoogleUpserted, HasEmail;
    var r :| GoogleStep(db, op, r) && db' == Commit(db, r);
    var s, e :| Row(s, WithSubject(db.users, GoTrim(op.subject))) && Row(e, EmailRows(db.users, op.email))
      && r == GoogleUpserted(db, op.id, op.email, op.name, op.subject, op.authoritative, s, e, op.now);
    GoogleKeeps(db, op, s, e);
  }

  lemma LoginStepKeeps(db: Db, op: Op, db': Db)
    requires Invariant(db) && op.LoginOp? && Step(db, op, db')
    ensures Invariant(db') && IdentityKept(db.users, db'.users)
  {
    hide Invariant, IdentityKept, Authenticate, HasEmail;
    var r :| LoginStep(db, op, r) && db' == Commit(db, r);
    var e :| Row(e, WithEmail(db.users, GoTrim(op.address))) && r == Authenticate(db, e, op.fits, op.now);
    LoginKeeps(db, op, e);
  }

  lemma SettingsKeep(db: Db, open: bool)
    requires Invariant(db)
    ensures Invariant(db.(registrationOpen := open))
  {
  }

  /** Every call keeps the invariant and the identities. */
  lemma StepKeeps(db: Db, op: Op, db': Db)
    requires Invariant(db) && Step(db, op, db')
    ensures Invariant(db') && IdentityKept(db.users, db'.users)
  {
    hide Invariant, IdentityKept, SessionRefused, Register, Authenticate, GoogleUpserted, UserUpdated;
    hide PasswordSet, Row, EmailRows, WithSubject, WithEmail, CreateToken, RevokeToken, Pruned;
    IdentityReflexive(db.users);
    match op
    case RegisterOp(id, email, name, size, hash, now) => RegisterKeeps(db, id, email, name, size, hash, now);
    case GoogleOp(_, _, _, _, _, _) => GoogleStepKeeps(db, op, db');
    case LoginOp(_, _, _) => LoginStepKeeps(db, op, db');
    case UpdateOp(id, role, active, now) => UpdateKeeps(db, id, role, active, now);
    case PasswordOp(id, size, hash, now) => PasswordKeeps(db, id, size, hash, now);
    case NewSessionOp(hash, user, now) => NewSessionKeeps(db, hash, user, now, db');
    case DeleteSessionOp(hash) => DeleteSessionKeeps(db, hash);
    case CreateTokenOp(hash, user, name, expiry, now) =>
      CreateTokenKeeps(db, hash, user, name, expiry, now);
      CreateTokenUsers(db, hash, user, name, expiry, now);
    case RevokeTokenOp(user, name) => RevokeTokenKeeps(db, user, name);
    case RevokeCurrentOp(hash) => FewerTokens(db, db'.tokens);
    case UseTokenOp(_, hash, now) => FewerTokens(db, db'.tokens);
    case SettingsOp(open) => SettingsKeep(db, open);
  }

  ghost predicate IsRun(ops: seq<Op>, states: seq<Db>) {
    && |states| == |ops| + 1 && states[0] == EMPTY
    && (forall i, j :: 0 <= i < j <= |ops| && j == i + 1 ==> Step(states[i], ops[i], states[j]))
  }

  lemma EmptyInvariant()
    ensures Invariant(EMPTY)
  {
    assert forall u :: SessionsOf(EMPTY.sessions, u) == {};
  }

  /** Every reachable store satisfies the invariant. */
  lemma {:induction false} RunKeeps(ops: seq<Op>, states: seq<Db>, n: nat)
    requires IsRun(ops, states) && n <= |ops|
    ensures Invariant(states[n])
  {
    hide Invariant, Step;
    if n == 0 {
      EmptyInvariant();
    } else {
      RunKeeps(ops, states, n - 1);
      StepKeeps(states[n - 1], ops[n - 1], states[n]);
    }
  }

  /** In every run an account that exists stays, with its address and, once it
      is set, its Google subject. */
  lemma {:induction false} RunKeepsIdentity(ops: seq<Op>, states: seq<Db>, m: nat, n: nat)
    requires IsRun(ops, states) && m <= n <= |ops|
    ensures IdentityKept(states[m].users, states[n].users)
    decreases n
  {
    hide Invariant, Step;
    if m < n {
      RunKeepsIdentity(ops, states, m, n - 1);
      RunKeeps(ops, states, n - 1);
      StepKeeps(states[n - 1], ops[n - 1], states[n]);
    }
  }

  // ---------- does the session just opened survive the pruning? ----------

  /** The other sessions of the user, still alive, that are no older than now. */
  function Rivals(sessions: map<Id, Session>, user: Id, now: int): set<Id> {
    set h | h in Live(sessions, now) && sessions[h].user == user && sessions[h].createdAt >= now
  }

  lemma LostToRivals(sessions: map<Id, Session>, hash: Id, user: Id, now: int, kept: map<Id, Session>)
    requires hash !in Live(sessions, now) && hash !in kept
    requires Pruned(WithNewSession(sessions, hash, user, now), user, kept)
    ensures |Rivals(sessions, user, now)| >= MAX_SESSIONS
  {
    var all := WithNewSession(sessions, hash, user, now);
    var own, left := SessionsOf(all, user), SessionsOf(kept, user);
    assert left <= own - {hash};
    SubsetSize(left, own - {hash});
    assert left <= Rivals(sessions, user, now);
    SubsetSize(left, Rivals(sessions, user, now));
  }

  lemma {:induction false} Oldest(all: map<Id, Session>, own: set<Id>) returns (oldest: Id)
    requires own != {} && forall h :: h in own ==> h in all
    ensures oldest in own && forall h :: h in own ==> all[oldest].createdAt <= all[h].createdAt
    decreases |own|
  {
    oldest :| oldest in own;
    if own != {oldest} {
      assert own - {oldest} != {};
      var other := Oldest(all, own - {oldest});
      if all[other].createdAt < all[oldest].createdAt { oldest := other; }
    }
  }

  lemma {:induction false} Newest(all: map<Id, Session>, own: set<Id>, n: nat) returns (newest: set<Id>)
    requires n <= |own| && forall h :: h in own ==> h in all
    ensures newest <= own && |newest| == n
    ensures forall g, h :: g in newest && h in own - newest ==> all[h].createdAt <= all[g].createdAt
    decreases |own|
  {
    if |own| == n {
      newest := own;
    } else {
      var oldest := Oldest(all, own);
      newest := Newest(all, own - {oldest}, n);
    }
  }

  lemma PruneAway(sessions: map<Id, Session>, hash: Id, user: Id, now: int) returns (kept: map<Id, Session>)
    requires hash !in Live(sessions, now) && |Rivals(sessions, user, now)| >= MAX_SESSIONS
    ensures Pruned(WithNewSession(sessions, hash, user, now), user, kept) && hash !in kept
  {
    var all := WithNewSession(sessions, hash, user, now);
    var own, rivals := SessionsOf(all, user), Rivals(sessions, user, now);
    assert rivals <= own - {hash};
    SubsetSize(rivals, own - {hash});
    var newest := Newest(all, own - {hash}, MAX_SESSIONS);
    kept := map h | h in all && (all[h].user != user || h in newest) :: all[h];
    assert SessionsOf(kept, user) == newest;
    forall g | g in newest ensures all[g].createdAt >= now {
      if all[g].createdAt < now {
        assert rivals <= newest - {g};
        SubsetSize(rivals, newest - {g});
      }
    }
  }

  /** It does in whatever order ties are broken exactly when at most nineteen
      other sessions are no older. */
  lemma NewSessionSurvives(sessions: map<Id, Session>, hash: Id, user: Id, now: int)
    requires hash !in Live(sessions, now)
    ensures (forall kept :: Pruned(WithNewSession(sessions, hash, user, now), user, kept) ==> hash in kept)
      <==> |Rivals(sessions, user, now)| < MAX_SESSIONS
  {
    var all := WithNewSession(sessions, hash, user, now);
    var rivals := Rivals(sessions, user, now);
    if |rivals| < MAX_SESSIONS {
      forall kept | Pruned(all, user, kept) ensures hash in kept {
        if hash !in kept { LostToRivals(sessions, hash, user, now, kept); }
      }
    } else {
      var kept := PruneAway(sessions, hash, user, now);
      assert Pruned(all, user, kept) && hash !in kept;
    }
  }

  /** `n` different session hashes. */
  function Hashes(n: nat): set<Id> { if n == 0 then {} else Hashes(n - 1) + {[n - 1]} }

  lemma {:induction false} HashesFacts(n: nat)
    ensures |Hashes(n)| == n && forall m: nat :: m >= n ==> [m] !in Hashes(n)
  {
    if n > 0 { HashesFacts(n - 1); }
  }

  /** A store with one account, an active administrator, and `n` sessions of that account. */
  function Crowded(user: Id, n: nat, now: int): Db {
    Db(map[user := User([], [], Admin, true, [], None, now, now, None)],
       map h | h in Hashes(n) :: Session(user, now, now + SESSION_SECONDS), map[], true)
  }

  lemma CrowdedIsFine(user: Id, n: nat, now: int)
    requires n <= MAX_SESSIONS
    ensures Invariant(Crowded(user, n, now)) && SessionsOf(Crowded(user, n, now).sessions, user) == Hashes(n)
    ensures Live(Crowded(user, n, now).sessions, now) == Crowded(user, n, now).sessions
  {
    hide Fold, Hashes;
    HashesFacts(n);
    var db := Crowded(user, n, now);
    assert ActiveAdmin(db.users[user]);
    assert SessionsOf(db.sessions, user) == Hashes(n);
    assert forall u :: u != user ==> SessionsOf(db.sessions, u) == {};
  }

  /** For instance: twenty sessions opened this second; an admissible pruning
      drops the one that is opened now. */
  lemma NewSessionLost(user: Id, n: nat, now: int) returns (db: Db, db': Db)
    requires n == MAX_SESSIONS
    ensures Invariant(db) && IsActive(db.users, user) && [n] !in db.sessions
    ensures SessionRefused(db, [n], user, now).None? && SessionAdded(db, [n], user, now, db') && [n] !in db'.sessions
  {
    hide Hashes, Invariant, Pruned, WithNewSession;
    db := Crowded(user, n, now);
    CrowdedIsFine(user, n, now);
    HashesFacts(n);
    assert Rivals(db.sessions, user, now) == Hashes(n);
    var kept := PruneAway(db.sessions, [n], user, now);
    db' := db.(sessions := kept);
  }

  // ---------- the store ----------

  predicate Agrees<T>(spec: Result<Db, Error>, r: Result<T, Error>) {
    match spec
    case Ok(_) => r.Ok?
    case Err(e) => r.Err? && r.error == e
  }

  ghost function ArbitraryRow(found: set<Id>): (row: Option<Id>)
    ensures Row(row, found)
  {
    if found == {} then None else var i :| i in found; Some(i)
  }

  /** The outcome of a sign-in, whichever rows its queries return. */
  ghost predicate SignInDone(db: Db, op: Op, db': Db, r: Result<Id, Error>)
    requires op.GoogleOp? || op.LoginOp?
  {
    exists spec :: (if op.GoogleOp? then GoogleStep(db, op, spec) else LoginStep(db, op, spec))
      && db' == Commit(db, spec) && Agrees(spec, r)
  }

  lemma ChooseLogin(db: Db, op: Op, e: Option<Id>, spec: Result<Db, Error>, r: Result<Id, Error>)
    requires op.LoginOp? && Row(e, WithEmail(db.users, GoTrim(op.address)))
    requires spec == Authenticate(db, e, op.fits, op.now)
    requires Agrees(spec, r)
    ensures Step(db, op, Commit(db, spec)) && SignInDone(db, op, Commit(db, spec), r)
  {
    assert LoginStep(db, op, spec);
  }

  lemma ChooseGoogle(db: Db, op: Op, s: Option<Id>, e: Option<Id>, spec: Result<Db, Error>, r: Result<Id, Error>)
    requires op.GoogleOp? && Row(s, WithSubject(db.users, GoTrim(op.subject))) && Row(e, EmailRows(db.users, op.email))
    requires spec == GoogleUpserted(db, op.id, op.email, op.name, op.subject, op.authoritative, s, e, op.now)
    requires Agrees(spec, r)
    ensures Step(db, op, Commit(db, spec)) && SignInDone(db, op, Commit(db, spec), r)
  {
    assert GoogleStep(db, op, spec);
  }

  /** Of the sessions that are still good and the new one, everybody else's stay,
      and the twenty newest of the user, in any order within a second. */
  ghost predicate SessionOpened(sessions: map<Id, Session>, hash: Id, user: Id, now: int, sessions': map<Id, Session>) {
    var all := (map h | h in sessions && now < sessions[h].expiresAt :: sessions[h])
      [hash := Session(user, now, now + 2_592_000)];
    && (forall h :: h in sessions' ==> h in all && sessions'[h] == all[h])
    && (forall h :: h in all && all[h].user != user ==> h in sessions')
    && |set h | h in sessions' && sessions'[h].user == user| == Min(20, |set h | h in all && all[h].user == user|)
    && (forall g, h :: g in sessions' && h in all && h !in sessions' && all[g].user == user ==>
          all[h].createdAt <= all[g].createdAt)
  }

  lemma OnlyAdmin(users: map<Id, User>, id: Id)
    requires id in users
    ensures ActiveAdmins(users) == {id} <==> forall i :: i in users ==> (ActiveAdmin(users[i]) <==> i == id)
  {
    var admins := ActiveAdmins(users);
    if forall i :: i in users ==> (ActiveAdmin(users[i]) <==> i == id) { assert admins == {id}; }
    if admins == {id} {
      forall i | i in users ensures ActiveAdmin(users[i]) <==> i == id {
        assert ActiveAdmin(users[i]) <==> i in admins;
      }
    }
  }

  /** Everybody else's sessions and the newest of the user are a pruning. */
  lemma NewestIsPruned(all: map<Id, Session>, user: Id, newest: set<Id>, kept: map<Id, Session>)
    requires newest <= SessionsOf(all, user) && |newest| == Min(MAX_SESSIONS, |SessionsOf(all, user)|)
    requires forall g, h :: g in newest && h in SessionsOf(all, user) - newest ==> all[h].createdAt <= all[g].createdAt
    requires kept == map h | h in all && (all[h].user != user || h in newest) :: all[h]
    ensures Pruned(all, user, kept)
  {
    assert SessionsOf(kept, user) == newest;
  }

  lemma PrunedIsOpened(sessions: map<Id, Session>, hash: Id, user: Id, now: int, kept: map<Id, Session>)
    requires Pruned(WithNewSession(sessions, hash, user, now), user, kept)
    ensures SessionOpened(sessions, hash, user, now, kept)
  {
    var all := WithNewSession(sessions, hash, user, now);
    assert SessionsOf(kept, user) == set h | h in kept && kept[h].user == user;
    assert SessionsOf(all, user) == set h | h in all && all[h].user == user;
    assert Live(sessions, now) == map h | h in sessions && now < sessions[h].expiresAt :: sessions[h];
  }

  /** The account has no session and no token left; those of all others are as they were. */
  ghost predicate OthersKept(sessions: map<Id, Session>, tokens: map<Id, Token>, user: Id,
                             sessions': map<Id, Session>, tokens': map<Id, Token>)
  {
    && (forall h :: h in sessions' <==> h in sessions && sessions[h].user != user)
    && (forall h :: h in sessions' ==> sessions'[h] == sessions[h])
    && (forall h :: h in tokens' <==> h in tokens && tokens[h].user != user)
    && (forall h :: h in tokens' ==> tokens'[h] == tokens[h])
  }

  lemma NoSubject(users: map<Id, User>, subject: Text)
    ensures WithSubject(users, subject) == {} <==> forall i :: i in users ==> users[i].googleSubject != Some(subject)
  {
    if i :| i in users && users[i].googleSubject == Some(subject) { assert i in WithSubject(users, subject); }
  }

  /** The rows that the two queries of a Google sign-in return. */
  lemma GoogleRows(db: Db, op: Op, db': Db, r: Result<Id, Error>) returns (s: Option<Id>, e: Option<Id>)
    requires op.GoogleOp? && SignInDone(db, op, db', r)
    ensures Row(s, WithSubject(db.users, GoTrim(op.subject))) && Row(e, EmailRows(db.users, op.email))
    ensures (s.Some? ==> s.value in db.users) && (e.Some? ==> e.value in db.users)
    ensures var spec := GoogleUpserted(db, op.id, op.email, op.name, op.subject, op.authoritative, s, e, op.now);
      db' == Commit(db, spec) && Agrees(spec, r)
  {
    hide GoTrim, Fold;
    var spec :| GoogleStep(db, op, spec) && db' == Commit(db, spec) && Agrees(spec, r);
    s, e :| Row(s, WithSubject(db.users, GoTrim(op.subject))) && Row(e, EmailRows(db.users, op.email))
      && spec == GoogleUpserted(db, op.id, op.email, op.name, op.subject, op.authoritative, s, e, op.now);
  }

  lemma GoogleNeedsBoth(db: Db, op: Op, db': Db, r: Result<Id, Error>)
    requires op.GoogleOp? && SignInDone(db, op, db', r)
    ensures op.email.None? ==> r == Err(InvalidEmail) && db' == db
    ensures op.email.Some? && GoTrim(op.subject) == [] ==> r == Err(SubjectRequired) && db' == db
  {
    hide WithSubject, EmailRows, GoTrim, SignInDone, Row;
    var s, e := GoogleRows(db, op, db', r);
  }

  /** An account that has the subject is signed in, if it is active. */
  lemma GoogleBySubject(db: Db, op: Op, db': Db, r: Result<Id, Error>, id: Id)
    requires op.GoogleOp? && SignInDone(db, op, db', r) && UniqueSubjects(db.users)
    requires op.email.Some? && GoTrim(op.subject) != []
    requires id in db.users && db.users[id].googleSubject == Some(GoTrim(op.subject))
    ensures var u := db.users[id];
      if !u.active then r == Err(Inactive) && db' == db
      else r.Ok? && db' == db.(users := db.users[id :=
        u.(name := if u.name == [] then op.name else u.name, updatedAt := op.now, lastLogin := Some(op.now))])
  {
    hide EmailRows, GoTrim, SignInDone;
    var s, e := GoogleRows(db, op, db', r);
    assert id in WithSubject(db.users, GoTrim(op.subject));
    assert SameSubject(db.users[s.value], db.users[id]);
  }

  /** Otherwise the account of the address is linked, if it is active, has no
      other subject, and Google speaks for the address. */
  lemma GoogleByAddress(db: Db, op: Op, db': Db, r: Result<Id, Error>, id: Id)
    requires op.GoogleOp? && SignInDone(db, op, db', r) && UniqueEmails(db.users)
    requires op.email.Some? && GoTrim(op.subject) != []
    requires forall i :: i in db.users ==> db.users[i].googleSubject != Some(GoTrim(op.subject))
    requires id in db.users && Fold(db.users[id].email) == Fold(op.email.value)
    ensures var u := db.users[id];
      if !u.active then r == Err(Inactive) && db' == db
      else if u.googleSubject.Some? || !op.authoritative then r == Err(IdentityConflict) && db' == db
      else r.Ok? && db' == db.(users := db.users[id :=
        u.(name := if u.name == [] then op.name else u.name, updatedAt := op.now, lastLogin := Some(op.now),
           googleSubject := Some(GoTrim(op.subject)))])
  {
    hide Fold, GoTrim, SignInDone, WithSubject;
    NoSubject(db.users, GoTrim(op.subject));
    var s, e := GoogleRows(db, op, db', r);
    assert id in WithEmail(db.users, op.email.value);
    assert HasEmail(db.users[e.value], db.users[id].email);
  }

  /** 1 to 80 letters, digits, dots, underscores and hyphens. */
  ghost predicate IsTokenName(name: Text) {
    && 1 <= |name| <= 80
    && forall c :: c in name ==>
         || 'A' as nat <= c <= 'Z' as nat || 'a' as nat <= c <= 'z' as nat || '0' as nat <= c <= '9' as nat
         || c in {'.' as nat, '_' as nat, '-' as nat}
  }

  lemma TokenNameIs(name: Text)
    ensures ValidTokenName(name) <==> IsTokenName(name)
  {
    if IsTokenName(name) {
      forall i | 0 <= i < |name| ensures TokenNameChar(name[i]) { assert name[i] in name; }
    }
  }

  lemma Taken(users: map<Id, User>, email: Text)
    ensures WithEmail(users, email) != {} <==> exists i :: i in users && Fold(users[i].email) == Fold(email)
  {
    hide Fold;
    if i :| i in users && Fold(users[i].email) == Fold(email) { assert i in WithEmail(users, email); }
  }

  /** Otherwise an account is made, if registration is open or there is none yet. */
  lemma GoogleNew(db: Db, op: Op, db': Db, r: Result<Id, Error>)
    requires op.GoogleOp? && SignInDone(db, op, db', r) && op.email.Some? && GoTrim(op.subject) != []
    requires forall i :: i in db.users ==>
      db.users[i].googleSubject != Some(GoTrim(op.subject)) && Fold(db.users[i].email) != Fold(op.email.value)
    ensures if db.users != map[] && !db.registrationOpen then r == Err(RegistrationClosed) && db' == db
      else if op.id in db.users then r.Err? && db' == db
      else r.Ok? && db' == db.(users := db.users[op.id :=
        User(op.email.value, op.name, if db.users == map[] then Admin else Reader, true, [],
             Some(GoTrim(op.subject)), op.now, op.now, Some(op.now))])
  {
    hide Fold, GoTrim, SignInDone, WithSubject, WithEmail;
    NoSubject(db.users, GoTrim(op.subject));
    Taken(db.users, op.email.value);
    var s, e := GoogleRows(db, op, db', r);
  }

  lemma UniqueIn(db: Db)
    requires Invariant(db)
    ensures UniqueEmails(db.users)
  {
  }

  lemma StillAddressed(db: Db, mid: Db, id: Id, rawEmail: Text)
    requires id in db.users && id in mid.users && mid.users[id].email == db.users[id].email
    ensures Addressed(mid.users, id, rawEmail) <==> Addressed(db.users, id, rawEmail)
  {
    hide Fold, GoTrim;
  }

  lemma LoginRow(db: Db, op: Op, db': Db, r: Result<Id, Error>) returns (e: Option<Id>)
    requires op.LoginOp? && SignInDone(db, op, db', r)
    ensures Row(e, WithEmail(db.users, GoTrim(op.address))) && (e.Some? ==> e.value in db.users)
    ensures var spec := Authenticate(db, e, op.fits, op.now); db' == Commit(db, spec) && Agrees(spec, r)
  {
    hide Fold, GoTrim;
    var spec :| LoginStep(db, op, spec) && db' == Commit(db, spec) && Agrees(spec, r);
    e :| Row(e, WithEmail(db.users, GoTrim(op.address))) && spec == Authenticate(db, e, op.fits, op.now);
  }

  lemma AddressedBy(users: map<Id, User>, rawEmail: Text)
    ensures forall i :: i in WithEmail(users, GoTrim(rawEmail)) <==> Addressed(users, i, rawEmail)
    ensures forall i :: Addressed(users, i, rawEmail) ==> i in users
    ensures UniqueEmails(users) ==>
      forall i, j :: Addressed(users, i, rawEmail) && Addressed(users, j, rawEmail) ==> i == j
  {
    hide Fold, GoTrim;
  }

  /** After a change of password the account signs in with the new one, and only with it. */
  lemma NewPasswordCounts(db: Db, id: Id, size: nat, hash: Text, now: int, op: Op, db': Db, r: Result<Id, Error>)
    requires Invariant(db) && PasswordSet(db, id, size, hash, now).Ok?
    requires op.LoginOp? && Addressed(db.users, id, op.address)
    requires SignInDone(PasswordSet(db, id, size, hash, now).value, op, db', r)
    ensures r.Ok? <==> db.users[id].active && hash != [] && op.fits(hash)
    ensures r.Ok? ==> id in db'.users && db'.users[id].lastLogin == Some(op.now) && db'.users[id].passwordHash == hash
  {
    hide Fold, GoTrim, Invariant, SignInDone, UniqueEmails, Addressed, WithEmail;
    var mid := PasswordSet(db, id, size, hash, now).value;
    PasswordKeeps(db, id, size, hash, now);
    var e := LoginRow(mid, op, db', r);
    StillAddressed(db, mid, id, op.address);
    AddressedBy(mid.users, op.address);
    UniqueIn(mid);
  }

  class Store {
    var users: map<Id, User>
    var sessions: map<Id, Session>
    var tokens: map<Id, Token>
    var registrationOpen: bool

    ghost function Contents(): Db
      reads this
    {
      Db(users, sessions, tokens, registrationOpen)
    }

    constructor ()
      ensures Contents() == EMPTY
    {
      users, sessions, tokens, registrationOpen := map[], map[], map[], true;
    }

    method RegisterEmail(email: Option<Text>, name: Text, size: nat, hash: Text, id: Id, now: int)
      returns (r: Result<Id, Error>)
      modifies this`users
      ensures Step(old(Contents()), RegisterOp(id, email, name, size, hash, now), Contents())
      ensures Agrees(Register(old(Contents()), id, email, name, size, hash, now), r)
      ensures r.Ok? ==> r.value == id && email.Some?
      ensures r.Ok? ==>
        var role := if old(users) == map[] then Admin else Reader;
        users == old(users)[id := User(email.value, name, role, true, hash, None, now, now, None)]
      ensures r.Err? ==> users == old(users)
      ensures match email
        case None => r == Err(InvalidEmail)
        case Some(address) =>
          var taken := exists i :: i in old(users) && Fold(old(users)[i].email) == Fold(address);
          && (r == Err(ShortPassword) <==> size < 10)
          && (r == Err(EmailExists) <==> size >= 10 && taken)
          && (r == Err(RegistrationClosed) <==> size >= 10 && !taken && old(users) != map[] && !registrationOpen)
          && (r.Ok? <==> size >= 10 && !taken && (old(users) == map[] || registrationOpen) && id !in old(users))
    {
      hide WithEmail, Fold;
      if email.Some? { Taken(users, email.value); }
      if email.None? { return Err(InvalidEmail); }
      if size < PASSWORD_MIN { return Err(ShortPassword); }
      if WithEmail(users, email.value) != {} { return Err(EmailExists); }
      if |users| != 0 && !registrationOpen { return Err(RegistrationClosed); }
      var role := Reader;
      if |users| == 0 { role := Admin; }
      if id in users { return Err(Constraint); }
      users := users[id := User(email.value, name, role, true, hash, None, now, now, None)];
      return Ok(id);
    }

    method AuthenticateEmail(rawEmail: Text, fits: Text -> bool, now: int) returns (r: Result<Id, Error>)
      modifies this`users
      ensures Step(old(Contents()), LoginOp(rawEmail, fits, now), Contents())
      ensures SignInDone(old(Contents()), LoginOp(rawEmail, fits, now), Contents(), r)
      ensures r.Ok? ==> Addressed(old(users), r.value, rawEmail) && old(users)[r.value].active
      ensures r.Ok? ==> old(users)[r.value].passwordHash != [] && fits(old(users)[r.value].passwordHash)
      ensures r.Ok? ==> users == old(users)[r.value := old(users)[r.value].(updatedAt := now, lastLogin := Some(now))]
      ensures r.Err? ==> users == old(users)
      ensures forall i :: UniqueEmails(old(users)) && Addressed(old(users), i, rawEmail) ==>
        var u := old(users)[i];
        r == if u.passwordHash == [] || !fits(u.passwordHash) then Err(InvalidCredentials)
             else if u.active then Ok(i) else Err(Inactive)
      ensures (forall i :: !Addressed(old(users), i, rawEmail)) ==> r == Err(InvalidCredentials)
    {
      hide WithEmail, HasEmail, GoTrim, Step, SignInDone, Addressed, UniqueEmails;
      var found := WithEmail(users, GoTrim(rawEmail));
      AddressedBy(users, rawEmail);
      ghost var op := LoginOp(rawEmail, fits, now);
      if found == {} {
        ChooseLogin(Contents(), op, None, Err(InvalidCredentials), Err(InvalidCredentials));
        return Err(InvalidCredentials);
      }
      var id :| id in found;
      var u := users[id];
      if u.passwordHash == [] || !fits(u.passwordHash) {
        ChooseLogin(Contents(), op, Some(id), Err(InvalidCredentials), Err(InvalidCredentials));
        return Err(InvalidCredentials);
      }
      if !u.active {
        ChooseLogin(Contents(), op, Some(id), Err(Inactive), Err(Inactive));
        return Err(Inactive);
      }
      users := users[id := u.(updatedAt := now, lastLogin := Some(now))];
      ChooseLogin(old(Contents()), op, Some(id), Ok(Contents()), Ok(id));
      return Ok(id);
    }

    method UpsertGoogle(email: Option<Text>, name: Text, rawSubject: Text, authoritative: bool, id: Id, now: int)
      returns (r: Result<Id, Error>)
      modifies this`users
      ensures Step(old(Contents()), GoogleOp(id, email, name, rawSubject, authoritative, now), Contents())
      ensures SignInDone(old(Contents()), GoogleOp(id, email, name, rawSubject, authoritative, now), Contents(), r)
      ensures r.Ok? ==>
        r.value in users && users[r.value].googleSubject == Some(GoTrim(rawSubject)) && users[r.value].active
      ensures r.Ok? ==> users[r.value].lastLogin == Some(now)
      ensures r.Err? ==> users == old(users)
    {
      hide HasEmail, GoTrim, Step, SignInDone;
      var subject := GoTrim(rawSubject);
      ghost var op := GoogleOp(id, email, name, rawSubject, authoritative, now);
      ghost var e := ArbitraryRow(EmailRows(users, email));
      var found := WithSubject(users, subject);
      ghost var s := ArbitraryRow(found);
      if email.None? {
        ChooseGoogle(Contents(), op, s, e, Err(InvalidEmail), Err(InvalidEmail));
        return Err(InvalidEmail);
      }
      if subject == [] {
        ChooseGoogle(Contents(), op, s, e, Err(SubjectRequired), Err(SubjectRequired));
        return Err(SubjectRequired);
      }
      if found != {} {
        var i :| i in found;
        if !users[i].active {
          ChooseGoogle(Contents(), op, Some(i), e, Err(Inactive), Err(Inactive));
          return Err(Inactive);
        }
        users := users[i := SignedIn(users[i], name, now)];
        ChooseGoogle(old(Contents()), op, Some(i), e, Ok(Contents()), Ok(i));
        return Ok(i);
      }
      found := WithEmail(users, email.value);
      if found != {} {
        var i :| i in found;
        var u := users[i];
        if !u.active {
          ChooseGoogle(Contents(), op, None, Some(i), Err(Inactive), Err(Inactive));
          return Err(Inactive);
        }
        if u.googleSubject.Some? && u.googleSubject.value != subject {
          ChooseGoogle(Contents(), op, None, Some(i), Err(IdentityConflict), Err(IdentityConflict));
          return Err(IdentityConflict);
        }
        if !authoritative {
          ChooseGoogle(Contents(), op, None, Some(i), Err(IdentityConflict), Err(IdentityConflict));
          return Err(IdentityConflict);
        }
        users := users[i := SignedIn(u, name, now).(googleSubject := Some(subject))];
        ChooseGoogle(old(Contents()), op, None, Some(i), Ok(Contents()), Ok(i));
        return Ok(i);
      }
      if |users| != 0 && !registrationOpen {
        ChooseGoogle(Contents(), op, None, None, Err(RegistrationClosed), Err(RegistrationClosed));
        return Err(RegistrationClosed);
      }
      var role := Reader;
      if |users| == 0 { role := Admin; }
      if id in users {
        ChooseGoogle(Contents(), op, None, None, Err(Constraint), Err(Constraint));
        return Err(Constraint);
      }
      users := users[id := User(email.value, name, role, true, [], Some(subject), now, now, Some(now))];
      ChooseGoogle(old(Contents()), op, None, None, Ok(Contents()), Ok(id));
      return Ok(id);
    }

    method NewSession(user: Id, hash: Id, now: int) returns (r: Result<Id, Error>)
      modifies this`sessions
      ensures Step(old(Contents()), NewSessionOp(hash, user, now), Contents())
      ensures match SessionRefused(old(Contents()), hash, user, now) {
                case Some(e) => r == Err(e)
                case None => r == Ok(hash)
              }
      ensures r.Ok? <==>
        user in users && users[user].active && (hash in old(sessions) ==> old(sessions)[hash].expiresAt <= now)
      ensures r.Err? ==> sessions == old(sessions)
      ensures r.Ok? ==> SessionOpened(old(sessions), hash, user, now, sessions)
    {
      hide SessionOpened, Pruned;
      if user !in users { return Err(UserNotFound); }
      if !users[user].active { return Err(Inactive); }
      var alive := Live(sessions, now);
      if hash in alive { return Err(Constraint); }
      var all := alive[hash := Session(user, now, now + SESSION_SECONDS)];
      var newest := KeepNewest(all, SessionsOf(all, user));
      sessions := map h | h in all && (all[h].user != user || h in newest) :: all[h];
      NewestIsPruned(all, user, newest, sessions);
      PrunedIsOpened(old(sessions), hash, user, now, sessions);
      return Ok(hash);
    }

    /** ORDER BY created_at DESC LIMIT -1 OFFSET 20 names the rows outside the result. */
    static method KeepNewest(all: map<Id, Session>, own: set<Id>) returns (newest: set<Id>)
      requires forall h :: h in own ==> h in all
      ensures newest <= own && |newest| == Min(MAX_SESSIONS, |own|)
      ensures forall g, h :: g in newest && h in own - newest ==> all[h].createdAt <= all[g].createdAt
    {
      newest := own;
      while |newest| > MAX_SESSIONS
        invariant newest <= own && |newest| >= Min(MAX_SESSIONS, |own|)
        invariant forall g, h :: g in newest && h in own - newest ==> all[h].createdAt <= all[g].createdAt
        decreases |newest|
      {
        var oldest := FindOldest(all, newest);
        newest := newest - {oldest};
      }
      SubsetSize(newest, own);
    }

    static method FindOldest(all: map<Id, Session>, own: set<Id>) returns (oldest: Id)
      requires own != {} && forall h :: h in own ==> h in all
      ensures oldest in own && forall h :: h in own ==> all[oldest].createdAt <= all[h].createdAt
    {
      oldest :| oldest in own;
      var rest := own - {oldest};
      while rest != {}
        invariant rest <= own && oldest in own - rest
        invariant forall h :: h in own - rest ==> all[oldest].createdAt <= all[h].createdAt
        decreases rest
      {
        var h :| h in rest;
        if all[h].createdAt < all[oldest].createdAt { oldest := h; }
        rest := rest - {h};
      }
    }

    method DeleteSession(hash: Id)
      modifies this`sessions
      ensures Step(old(Contents()), DeleteSessionOp(hash), Contents())
      ensures sessions == old(sessions) - {hash}
    {
      sessions := sessions - {hash};
    }

    method CreateAPIToken(user: Id, rawName: Text, expiry: Option<int>, hash: Id, now: int)
      returns (r: Result<Text, Error>)
      modifies this`tokens
      ensures Step(old(Contents()), CreateTokenOp(hash, user, rawName, expiry, now), Contents())
      ensures Agrees(CreateToken(old(Contents()), hash, user, rawName, expiry, now), r)
      ensures r.Ok? ==> r.value == GoTrim(rawName)
      ensures r.Ok? <==>
        && IsTokenName(GoTrim(rawName)) && (expiry.Some? ==> expiry.value > now)
        && user in users && users[user].active && hash !in old(tokens)
        && forall h :: h in old(tokens) && old(tokens)[h].user == user ==>
             Fold(old(tokens)[h].name) != Fold(GoTrim(rawName))
      ensures r.Ok? ==>
        var seconds := if expiry.Some? then Some(expiry.value / 1_000_000_000) else None;
        tokens == old(tokens)[hash := Token(user, GoTrim(rawName), now / 1_000_000_000, None, seconds)]
      ensures r.Err? ==> tokens == old(tokens)
    {
      hide GoTrim, Fold, ValidTokenName, IsTokenName;
      var name := GoTrim(rawName);
      TokenNameIs(name);
      if !ValidTokenName(name) { return Err(InvalidTokenName); }
      if expiry.Some? && expiry.value <= now { return Err(ExpiryInPast); }
      if user !in users { return Err(UserNotFound); }
      if !users[user].active { return Err(Inactive); }
      if TokensNamed(tokens, user, name) != {} { return Err(TokenNameExists); }
      assert forall h :: h in tokens ==> h !in TokensNamed(tokens, user, name);
      if hash in tokens { return Err(Constraint); }
      tokens := tokens[hash := NewToken(user, name, expiry, now)];
      return Ok(name);
    }

    method RevokeAPIToken(user: Id, rawName: Text) returns (r: Result<(), Error>)
      modifies this`tokens
      ensures Step(old(Contents()), RevokeTokenOp(user, rawName), Contents())
      ensures Agrees(RevokeToken(old(Contents()), user, rawName), r)
      ensures r.Ok? <==>
        && IsTokenName(GoTrim(rawName))
        && exists h :: h in old(tokens) && Named(old(tokens)[h], user, rawName)
      ensures r.Err? ==> tokens == old(tokens)
      ensures r.Ok? ==> forall h :: h in tokens <==> h in old(tokens) && !Named(old(tokens)[h], user, rawName)
      ensures forall h :: h in tokens ==> tokens[h] == old(tokens)[h]
    {
      hide GoTrim, ValidTokenName, IsTokenName, Fold;
      var name := GoTrim(rawName);
      TokenNameIs(name);
      if !ValidTokenName(name) { return Err(InvalidTokenName); }
      var affected := TokensNamed(tokens, user, name);
      assert forall h :: h in affected <==> h in tokens && Named(tokens[h], user, rawName);
      if affected == {} { return Err(TokenNotFound); }
      tokens := tokens - affected;
      return Ok(());
    }

    method RevokeCurrentAPIToken(hash: Id) returns (r: Result<(), Error>)
      modifies this`tokens
      ensures Step(old(Contents()), RevokeCurrentOp(hash), Contents())
      ensures Agrees(RevokeCurrent(old(Contents()), hash), r)
      ensures r == if hash in old(tokens) then Ok(()) else Err(TokenNotFound)
      ensures tokens == old(tokens) - {hash}
    {
      if hash !in tokens { return Err(TokenNotFound); }
      tokens := tokens - {hash};
      return Ok(());
    }

    /** The account that a token stands for, if the token is good. */
    method UserForAPIToken(token: Text, hash: Id, now: int) returns (user: Option<Id>)
      modifies this`tokens
      ensures Step(old(Contents()), UseTokenOp(token, hash, now), Contents())
      ensures user.Some? <==>
        && ['b' as nat, 'b' as nat, 'k' as nat, '_' as nat] <= token && Utf8Size(token) >= 20 && hash in old(tokens)
        && old(tokens)[hash].user in users && users[old(tokens)[hash].user].active
        && (old(tokens)[hash].expiresAt.Some? ==> old(tokens)[hash].expiresAt.value > now)
      ensures user.Some? ==> user.value == old(tokens)[hash].user
      ensures user.Some? ==> tokens == old(tokens)[hash := old(tokens)[hash].(lastUsed := Some(now))]
      ensures user.None? ==> tokens == old(tokens)
    {
      if !TokenShaped(token) { return None; }
      if hash !in tokens { return None; }
      var t := tokens[hash];
      if t.expiresAt.Some? && t.expiresAt.value <= now { return None; }
      if t.user !in users || !users[t.user].active { return None; }
      tokens := tokens[hash := t.(lastUsed := Some(now))];
      return Some(t.user);
    }

    method UpdateUser(id: Id, role: Option<Role>, active: bool, now: int) returns (r: Result<User, Error>)
      modifies this`users, this`sessions, this`tokens
      ensures Step(old(Contents()), UpdateOp(id, role, active, now), Contents())
      ensures r.Ok? ==>
        id in users && r.value == users[id] && Some(users[id].role) == role && users[id].active == active
      ensures r == Err(LastAdmin) <==>
        
        && role.Some? && id in old(users) && (!active || role.value != Admin)
        && forall i :: i in old(users) ==> (old(users)[i].active && old(users)[i].role == Admin <==> i == id)
      ensures r == Err(InvalidRole) <==> role.None?
      ensures r == Err(UserNotFound) <==> role.Some? && id !in old(users)
      ensures r.Err? ==> r.error in {LastAdmin, UserNotFound, InvalidRole}
      ensures r.Err? ==> Contents() == old(Contents())
      ensures r.Ok? ==>
        users == old(users)[id := old(users)[id].(role := role.value, active := active, updatedAt := now)]
      ensures r.Ok? && active ==> sessions == old(sessions) && tokens == old(tokens)
      ensures r.Ok? && !active ==> OthersKept(old(sessions), old(tokens), id, sessions, tokens)
    {
      if role.None? { return Err(InvalidRole); }
      if id !in users { return Err(UserNotFound); }
      var u := users[id];
      if u.active && u.role == Admin && (!active || role.value != Admin) {
        var activeAdmins := ActiveAdmins(users);
        assert id in activeAdmins;
        OnlyOne(activeAdmins, id);
        OnlyAdmin(users, id);
        if |activeAdmins| <= 1 { return Err(LastAdmin); }
      } else {
        assert !ActiveAdmin(u) ==> id !in ActiveAdmins(users);
      }
      users := users[id := u.(role := role.value, active := active, updatedAt := now)];
      if !active {
        sessions := DropSessions(sessions, id);
        tokens := DropTokens(tokens, id);
      }
      return Ok(users[id]);
    }

    method SetPassword(id: Id, size: nat, hash: Text, now: int) returns (r: Result<(), Error>)
      modifies this`users, this`sessions, this`tokens
      ensures Step(old(Contents()), PasswordOp(id, size, hash, now), Contents())
      ensures Agrees(PasswordSet(old(Contents()), id, size, hash, now), r)
      ensures r == if size < 10 then Err(ShortPassword) else if id !in old(users) then Err(UserNotFound) else Ok(())
      ensures r.Err? ==> Contents() == old(Contents())
      ensures r.Ok? ==> users == old(users)[id := old(users)[id].(passwordHash := hash, updatedAt := now)]
      ensures r.Ok? ==> OthersKept(old(sessions), old(tokens), id, sessions, tokens)
    {
      if size < PASSWORD_MIN { return Err(ShortPassword); }
      if id !in users { return Err(UserNotFound); }
      users := users[id := users[id].(passwordHash := hash, updatedAt := now)];
      sessions := DropSessions(sessions, id);
      tokens := DropTokens(tokens, id);
      return Ok(());
    }
  }
}
