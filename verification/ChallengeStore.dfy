/** The pending Google sign-ins of command-line clients (server/api_auth.go).
    Every operation runs under one mutex, so it is one atomic step. Times are
    nanoseconds; a poll secret is represented by its SHA-256 digest. */
module ChallengeStore {
  import opened Outcomes
  import opened Sets
  import opened Text

  const LIFETIME: int := 5 * 60 * 1000000000
  const POLL_INTERVAL: int := 3 * 1000000000
  const MAX_PER_IP: nat := 5

  type Id = Text

  /** An empty `approvedUser` means that nobody has approved the request yet. */
  datatype Challenge = Challenge(
    pollHash: Text,
    tokenName: Text,
    clientName: Text,
    clientIp: Text,
    expiresAt: int,
    lastPollAt: Option<int>,
    approvedUser: Text,
    issuing: bool)

  type Table = map<Id, Challenge>

  datatype Error = TooMany | Gone | AlreadyApproved

  datatype Status = Invalid | Expired | Slow | Pending | Approved(challenge: Challenge)

  predicate Alive(c: Challenge, now: int) { now < c.expiresAt }

  function Cleaned(db: Table, now: int): Table {
    map i | i in db && Alive(db[i], now) :: db[i]
  }

  function FromIp(db: Table, ip: Text): set<Id> {
    set i | i in db && db[i].clientIp == ip
  }

  function NewChallenge(hash: Text, tokenName: Text, clientName: Text, ip: Text, now: int): Challenge {
    Challenge(hash, tokenName, clientName, ip, now + LIFETIME, None, [], false)
  }

  /** Expired requests are dropped even when the new one is refused. */
  function Add(db: Table, id: Id, hash: Text, tokenName: Text, clientName: Text, ip: Text,
               now: int): (r: (Table, Result<Challenge, Error>))
  {
    var alive := Cleaned(db, now);
    if |FromIp(alive, ip)| >= MAX_PER_IP then (alive, Err(TooMany))
    else
      var c := NewChallenge(hash, tokenName, clientName, ip, now);
      (alive[id := c], Ok(c))
  }

  function Approve(db: Table, id: Id, user: Text, now: int): (r: (Table, Result<(), Error>)) {
    var alive := Cleaned(db, now);
    if id !in alive then (alive, Err(Gone))
    else if alive[id].approvedUser != [] then (alive, Err(AlreadyApproved))
    else (alive[id := alive[id].(approvedUser := user)], Ok(()))
  }

  predicate TooSoon(c: Challenge, now: int) {
    c.lastPollAt.Some? && now - c.lastPollAt.value < POLL_INTERVAL
  }

  function Poll(db: Table, id: Id, hash: Text, now: int): (r: (Table, Status)) {
    if id !in db then (db, Invalid)
    else if !Alive(db[id], now) then (db - {id}, Expired)
    else if db[id].pollHash != hash then (db, Invalid)
    else if TooSoon(db[id], now) then (db, Slow)
    else
      var c := db[id].(lastPollAt := Some(now));
      if c.approvedUser == [] then (db[id := c], Pending)
      else if c.issuing then (db[id := c], Slow)
      else (db[id := c.(issuing := true)], Approved(c.(issuing := true)))
  }

  function Finish(db: Table, id: Id, success: bool): Table {
    if success then db - {id} else if id in db then db[id := db[id].(issuing := false)] else db
  }

  function Cancel(db: Table, id: Id, hash: Text): (r: (Table, bool)) {
    if id in db && db[id].pollHash == hash then (db - {id}, true) else (db, false)
  }

  // ---------- the limit per client address ----------

  ghost predicate FewPerIp(db: Table) {
    forall ip :: |FromIp(db, ip)| <= MAX_PER_IP
  }

  /** Requests that only disappear or keep their address keep the limit. */
  lemma FewerPerIp(db: Table, db': Table)
    requires FewPerIp(db)
    requires forall i :: i in db' ==> i in db && db'[i].clientIp == db[i].clientIp
    ensures FewPerIp(db')
  {
    forall ip ensures |FromIp(db', ip)| <= MAX_PER_IP {
      SubsetSize(FromIp(db', ip), FromIp(db, ip));
    }
  }

  lemma AddKeepsFew(db: Table, id: Id, hash: Text, tokenName: Text, clientName: Text, ip: Text, now: int)
    requires FewPerIp(db)
    ensures FewPerIp(Add(db, id, hash, tokenName, clientName, ip, now).0)
  {
    var alive := Cleaned(db, now);
    FewerPerIp(db, alive);
    if |FromIp(alive, ip)| < MAX_PER_IP {
      var db' := alive[id := NewChallenge(hash, tokenName, clientName, ip, now)];
      forall other ensures |FromIp(db', other)| <= MAX_PER_IP {
        if other == ip {
          SubsetSize(FromIp(db', ip), FromIp(alive, ip) + {id});
        } else {
          SubsetSize(FromIp(db', other), FromIp(alive, other));
        }
      }
    }
  }

  class Store {
    var challenges: Table

    constructor ()
      ensures challenges == map[]
    {
      challenges := map[];
    }

    method CleanupLocked(now: int)
      modifies this
      ensures challenges == Cleaned(old(challenges), now)
      ensures forall i :: i in challenges <==> i in old(challenges) && now < old(challenges)[i].expiresAt
      ensures forall i :: i in challenges ==> challenges[i] == old(challenges)[i]
    {
      var ids := challenges.Keys;
      while ids != {}
        invariant ids <= challenges.Keys <= old(challenges).Keys
        invariant forall i :: i in challenges ==>
          challenges[i] == old(challenges)[i] && (i in ids || Alive(challenges[i], now))
        invariant forall i :: i in old(challenges) && i !in challenges ==> !Alive(old(challenges)[i], now)
        decreases ids
      {
        var id :| id in ids;
        if now >= challenges[id].expiresAt { challenges := challenges - {id}; }
        ids := ids - {id};
      }
    }

    /** How many requests come from one client address. */
    method CountFrom(ip: Text) returns (active: nat)
      ensures active == |FromIp(challenges, ip)|
      ensures active == |set i | i in challenges && challenges[i].clientIp == ip|
    {
      active := 0;
      var ids := challenges.Keys;
      ghost var counted: set<Id> := {};
      while ids != {}
        invariant ids <= challenges.Keys
        invariant forall i :: i in counted <==> i in challenges && i !in ids && challenges[i].clientIp == ip
        invariant active == |counted|
        decreases ids
      {
        var id :| id in ids;
        if challenges[id].clientIp == ip {
          active := active + 1;
          counted := counted + {id};
        }
        ids := ids - {id};
      }
      assert counted == FromIp(challenges, ip);
    }

    method AddChallenge(id: Id, hash: Text, tokenName: Text, clientName: Text, ip: Text, now: int)
      returns (r: Result<Challenge, Error>)
      modifies this
      ensures (challenges, r) == Add(old(challenges), id, hash, tokenName, clientName, ip, now)
      ensures r.Err? <==>
        |set i | i in old(challenges) && now < old(challenges)[i].expiresAt && old(challenges)[i].clientIp == ip| >= 5
      ensures r.Err? ==> r.error == TooMany
      ensures r.Ok? ==> r.value == Challenge(hash, tokenName, clientName, ip, now + 300_000_000_000, None, [], false)
      ensures r.Ok? ==> id in challenges && challenges[id] == r.value
      ensures forall i :: i != id || r.Err? ==>
        (i in challenges <==> i in old(challenges) && now < old(challenges)[i].expiresAt)
      ensures forall i :: i in challenges && (i != id || r.Err?) ==> challenges[i] == old(challenges)[i]
    {
      hide Cleaned, FromIp;
      CleanupLocked(now);
      var active := CountFrom(ip);
      assert (set i | i in challenges && challenges[i].clientIp == ip) ==
        set i | i in old(challenges) && now < old(challenges)[i].expiresAt && old(challenges)[i].clientIp == ip;
      if active >= MAX_PER_IP { return Err(TooMany); }
      var c := NewChallenge(hash, tokenName, clientName, ip, now);
      challenges := challenges[id := c];
      return Ok(c);
    }

    method Get(id: Id, now: int) returns (c: Option<Challenge>)
      modifies this
      ensures challenges == Cleaned(old(challenges), now)
      ensures c.Some? <==> id in old(challenges) && now < old(challenges)[id].expiresAt
      ensures c.Some? ==> c.value == old(challenges)[id]
    {
      CleanupLocked(now);
      if id !in challenges { return None; }
      return Some(challenges[id]);
    }

    method ApproveChallenge(id: Id, user: Text, now: int) returns (r: Result<(), Error>)
      modifies this
      ensures (challenges, r) == Approve(old(challenges), id, user, now)
      ensures var there := id in old(challenges) && now < old(challenges)[id].expiresAt;
        && (r == Err(Gone) <==> !there)
        && (r == Err(AlreadyApproved) <==> there && old(challenges)[id].approvedUser != [])
        && (r.Ok? <==> there && old(challenges)[id].approvedUser == [])
      ensures r.Ok? ==> challenges[id] == old(challenges)[id].(approvedUser := user)
      ensures forall i :: i in challenges <==> i in old(challenges) && now < old(challenges)[i].expiresAt
      ensures forall i :: i in challenges && (i != id || r.Err?) ==> challenges[i] == old(challenges)[i]
    {
      hide Cleaned;
      CleanupLocked(now);
      if id !in challenges { return Err(Gone); }
      if challenges[id].approvedUser != [] { return Err(AlreadyApproved); }
      challenges := challenges[id := challenges[id].(approvedUser := user)];
      return Ok(());
    }

    method PollChallenge(id: Id, hash: Text, now: int) returns (status: Status)
      modifies this
      ensures (challenges, status) == Poll(old(challenges), id, hash, now)
      ensures forall i :: i != id ==> (i in challenges <==> i in old(challenges))
      ensures forall i :: i in challenges && i != id ==> challenges[i] == old(challenges)[i]
      ensures status.Expired? <==> id in old(challenges) && now >= old(challenges)[id].expiresAt
      ensures status.Invalid? <==>
        id !in old(challenges) || (now < old(challenges)[id].expiresAt && old(challenges)[id].pollHash != hash)
      ensures id in challenges <==> id in old(challenges) && now < old(challenges)[id].expiresAt
      ensures id in challenges && old(challenges)[id].pollHash != hash ==> challenges[id] == old(challenges)[id]
      ensures id in challenges && old(challenges)[id].pollHash == hash ==>
        var c := old(challenges)[id];
        var early := c.lastPollAt.Some? && now - c.lastPollAt.value < 3_000_000_000;
        && (status.Slow? <==> early || (c.approvedUser != [] && c.issuing))
        && (status.Pending? <==> !early && c.approvedUser == [])
        && (status.Approved? <==> !early && c.approvedUser != [] && !c.issuing)
        && (status.Approved? ==> challenges[id].issuing && status.challenge == challenges[id])
        && challenges[id] == c.(lastPollAt := if early then c.lastPollAt else Some(now),
                                issuing := c.issuing || status.Approved?)
    {
      if id !in challenges { return Invalid; }
      if !Alive(challenges[id], now) {
        challenges := challenges - {id};
        return Expired;
      }
      if challenges[id].pollHash != hash { return Invalid; }
      if TooSoon(challenges[id], now) { return Slow; }
      challenges := challenges[id := challenges[id].(lastPollAt := Some(now))];
      if challenges[id].approvedUser == [] { return Pending; }
      if challenges[id].issuing { return Slow; }
      challenges := challenges[id := challenges[id].(issuing := true)];
      assert challenges == old(challenges)[id := challenges[id]];
      return Approved(challenges[id]);
    }

    method FinishChallenge(id: Id, success: bool)
      modifies this
      ensures challenges == Finish(old(challenges), id, success)
      ensures forall i :: i in challenges <==> i in old(challenges) && !(success && i == id)
      ensures forall i :: i in challenges ==>
        challenges[i] == if i == id then old(challenges)[i].(issuing := false) else old(challenges)[i]
    {
      if success {
        challenges := challenges - {id};
      } else if id in challenges {
        challenges := challenges[id := challenges[id].(issuing := false)];
      }
    }

    method CancelChallenge(id: Id, hash: Text) returns (ok: bool)
      modifies this
      ensures (challenges, ok) == Cancel(old(challenges), id, hash)
      ensures ok <==> id in old(challenges) && old(challenges)[id].pollHash == hash
      ensures forall i :: i in challenges <==> i in old(challenges) && !(ok && i == id)
      ensures forall i :: i in challenges ==> challenges[i] == old(challenges)[i]
    {
      if id !in challenges || challenges[id].pollHash != hash { return false; }
      challenges := challenges - {id};
      return true;
    }
  }
}
