/** The Broker's table of outstanding sessions: what PutSession and TakeSession
    do to it, and what they keep. */
module Sessions {
  import opened Basics
  import Base64

  const SECOND := 1_000_000_000
  const SESSION_LIFETIME := 120 * SECOND
  const MAX_SESSIONS := 256
  const MAX_SESSIONS_PER_CALLER := 32
  const IDENTIFIER_LENGTH := 32
  const ATTEMPTS := 4

  datatype Kind = Authentication | Registration | RemovalAuthorization

  datatype Session = Session(
    kind: Kind,
    callerSid: Sid,
    targetSid: Sid,
    username: string,
    challenge: string,
    rpId: string,
    origin: string,
    keyLabel: string,
    credentialToRemove: string,
    expiresAt: int)

  datatype Caller = Caller(sid: Sid, isSystem: bool, isElevatedAdmin: bool)

  type Table = map<string, Session>

  /** What RandomId(24) returns: nothing when the generator fails. */
  type Identifier = id: string | id == "" || |id| == IDENTIFIER_LENGTH

  /** BrokerService.cpp, RandomId; None when the generator fails. */
  function RandomId(octets: Option<Base64.Bytes>): string {
    if octets.None? then "" else Base64.UrlEncode(octets.value, false)
  }

  /** The encoding of 24 octets passes the length check of TakeSession. */
  lemma RandomIdIsIdentifier(octets: Option<Base64.Bytes>)
    requires octets.Some? ==> |octets.value| == 24
    ensures |RandomId(octets)| == if octets.Some? then IDENTIFIER_LENGTH else 0
  {
    if octets.Some? {
      Base64.UrlDecodeInvertsUrlEncode(octets.value);
    }
  }

  datatype SessionError =
    | NoCryptographicSession | TooManySessions | NoUniqueSession
    | InvalidIdentifier | UnknownSession | Expired | WrongKind | ForeignSession

  // ----- The specification -----

  function Pruned(t: Table, now: int): Table {
    map id | id in t && t[id].expiresAt > now :: t[id]
  }

  function OwnedBy(t: Table, sid: Sid): set<string> {
    set id | id in t && SameText(t[id].callerSid, sid)
  }

  /** The first usable identifier among the draws from `attempt` on. */
  function Allotted(t: Table, draw: nat -> Identifier, attempt: nat): (id: Option<string>)
    requires attempt <= ATTEMPTS
    ensures id.Some? ==> |id.value| == IDENTIFIER_LENGTH && id.value !in t
    decreases ATTEMPTS - attempt
  {
    if attempt == ATTEMPTS then None
    else if draw(attempt) != "" && draw(attempt) !in t then Some(draw(attempt))
    else Allotted(t, draw, attempt + 1)
  }

  predicate Full(t: Table, sid: Sid) {
    |t| >= MAX_SESSIONS || |OwnedBy(t, sid)| >= MAX_SESSIONS_PER_CALLER
  }

  function Put(t: Table, session: Session, now: int, draw: nat -> Identifier): (Table, Result<string, SessionError>) {
    if session.challenge == "" || session.rpId == "" || session.origin == "" then (t, Failure(NoCryptographicSession))
    else
      var kept := Pruned(t, now);
      var id := Allotted(kept, draw, 0);
      if Full(kept, session.callerSid) then (kept, Failure(TooManySessions))
      else if id.None? then (kept, Failure(NoUniqueSession))
      else (kept[id.value := session.(expiresAt := now + SESSION_LIFETIME)], Success(id.value))
  }

  function Without(t: Table, id: string): Table {
    t - {id}
  }

  /** The session is removed before anything about it is checked. */
  function Take(t: Table, id: string, caller: Caller, expected: Kind, now: int): (Table, Result<Session,
                SessionError>) {
    if |id| != IDENTIFIER_LENGTH then (t, Failure(InvalidIdentifier))
    else if id !in t then (t, Failure(UnknownSession))
    else
      (Without(t, id),
       if t[id].expiresAt <= now then Failure(Expired)
       else if t[id].kind != expected then Failure(WrongKind)
       else if !caller.isSystem && !SameText(caller.sid, t[id].callerSid) then Failure(ForeignSession)
       else Success(t[id]))
  }

  // ----- What both keep -----

  ghost predicate WithinLimits(t: Table) {
    && |t| <= MAX_SESSIONS
    && (forall sid: Sid :: |OwnedBy(t, sid)| <= MAX_SESSIONS_PER_CALLER)
    && (forall id :: id in t ==> |id| == IDENTIFIER_LENGTH)
  }

  ghost predicate Within(t: Table, u: Table) {
    forall id :: id in t ==> id in u && t[id] == u[id]
  }

  lemma SmallerSet<T>(a: set<T>, b: set<T>)
    requires a <= b
    ensures |a| <= |b|
  {
    if a != b {
      assert b == a + (b - a);
    }
  }

  lemma SmallerTable(t: Table, u: Table)
    requires Within(t, u) && WithinLimits(u)
    ensures WithinLimits(t)
  {
    assert t.Keys <= u.Keys;
    SmallerSet(t.Keys, u.Keys);
    forall sid: Sid
      ensures |OwnedBy(t, sid)| <= MAX_SESSIONS_PER_CALLER
    {
      SmallerSet(OwnedBy(t, sid), OwnedBy(u, sid));
    }
  }

  lemma OwnersAfter(t: Table, id: string, session: Session, sid: Sid)
    requires id !in t
    ensures OwnedBy(t[id := session], sid) == OwnedBy(t, sid) + if SameText(session.callerSid, sid) then {id} else {}
  {
    var u := t[id := session];
    forall other
      ensures other in OwnedBy(u, sid) <==>
        other in OwnedBy(t, sid) || (other == id && SameText(session.callerSid, sid))
    {
    }
  }

  lemma OneMoreOwned(t: Table, id: string, session: Session, sid: Sid)
    requires id !in t && |OwnedBy(t, sid)| <= MAX_SESSIONS_PER_CALLER && !Full(t, session.callerSid)
    ensures |OwnedBy(t[id := session], sid)| <= MAX_SESSIONS_PER_CALLER
  {
    OwnersAfter(t, id, session, sid);
    if SameText(session.callerSid, sid) {
      SameOwners(t, session.callerSid, sid);
    }
  }

  lemma SameOwners(t: Table, sid: Sid, other: Sid)
    requires SameText(sid, other)
    ensures OwnedBy(t, sid) == OwnedBy(t, other)
  {
  }

  lemma OneMore(t: Table, id: string, session: Session)
    requires WithinLimits(t) && id !in t && |id| == IDENTIFIER_LENGTH && !Full(t, session.callerSid)
    ensures WithinLimits(t[id := session])
  {
    var u := t[id := session];
    assert u.Keys == t.Keys + {id};
    forall sid: Sid
      ensures |OwnedBy(u, sid)| <= MAX_SESSIONS_PER_CALLER
    {
      OneMoreOwned(t, id, session, sid);
    }
  }

  /** At most 256 sessions, and at most 32 of one caller whatever the case of
      its SID, survive a put; all the others in the table are unchanged. */
  lemma PutKeepsLimits(t: Table, session: Session, now: int, draw: nat -> Identifier)
    requires WithinLimits(t)
    ensures
      var (u, id) := Put(t, session, now, draw);
      && WithinLimits(u)
      && (id.Success? ==>
             id.value in u && u[id.value] == session.(expiresAt := now + SESSION_LIFETIME)
               && Within(Without(u, id.value), t))
      && (id.Failure? ==> Within(u, t))
  {
    var kept := Pruned(t, now);
    SmallerTable(kept, t);
    var (u, id) := Put(t, session, now, draw);
    if id.Success? {
      OneMore(kept, id.value, session.(expiresAt := now + SESSION_LIFETIME));
    }
  }

  /** A session in the table after a put is the new one, or was there before. */
  lemma PutOrigin(t: Table, session: Session, now: int, draw: nat -> Identifier, id: string)
    requires id in Put(t, session, now, draw).0
    ensures
      var (u, allotted) := Put(t, session, now, draw);
      (allotted == Success(id) && u[id] == session.(expiresAt := now + SESSION_LIFETIME)) || (id in t && u[id] == t[id])
  {
  }

  lemma TakeOrigin(t: Table, taken: string, caller: Caller, expected: Kind, now: int, id: string)
    requires id in Take(t, taken, caller, expected, now).0
    ensures id in t && Take(t, taken, caller, expected, now).0[id] == t[id]
  {
  }

  /** A put drops nothing that is still alive. */
  lemma PutKeepsTheLiving(t: Table, session: Session, now: int, draw: nat -> Identifier, id: string)
    requires id in t && t[id].expiresAt > now
    ensures id in Put(t, session, now, draw).0 && Put(t, session, now, draw).0[id] == t[id]
  {
    assert id in Pruned(t, now);
  }

  /** Taking consumes the session whether or not it is accepted. */
  lemma TakeConsumes(t: Table, id: string, caller: Caller, expected: Kind, now: int)
    requires WithinLimits(t)
    ensures
      var (u, taken) := Take(t, id, caller, expected, now);
      && WithinLimits(u) && Within(u, t)
      && id !in u
      && (forall other :: other in t && other != id ==> other in u)
      && (taken.Success? <==>
             id in t && now < t[id].expiresAt && t[id].kind == expected
               && (caller.isSystem || SameText(caller.sid, t[id].callerSid)))
      && (taken.Success? ==> taken.value == t[id])
  {
    var (u, taken) := Take(t, id, caller, expected, now);
    SmallerTable(u, t);
  }

  predicate Usable(t: Table, id: Identifier) {
    id != "" && id !in t
  }

  lemma {:induction false} AllottedFirstUsable(t: Table, draw: nat -> Identifier, attempt: nat)
    requires attempt <= ATTEMPTS
    ensures Allotted(t, draw, attempt).Some? <==> exists k: nat :: attempt <= k < ATTEMPTS && Usable(t, draw(k))
    decreases ATTEMPTS - attempt
  {
    if attempt < ATTEMPTS {
      AllottedFirstUsable(t, draw, attempt + 1);
    }
  }

  /** A put succeeds exactly when the session is complete, there is room among the
      sessions that are still alive, and one of four draws is usable; it then drops
      the expired ones. */
  lemma PutSucceedsIff(t: Table, session: Session, now: int, draw: nat -> Identifier)
    ensures
      var (u, id) := Put(t, session, now, draw);
      && (id.Success? <==>
            && session.challenge != "" && session.rpId != "" && session.origin != ""
            && !Full(Pruned(t, now), session.callerSid)
            && exists k: nat :: k < ATTEMPTS && Usable(Pruned(t, now), draw(k)))
      && (id.Success? ==> forall other :: other in u ==> u[other].expiresAt > now)
  {
    AllottedFirstUsable(Pruned(t, now), draw, 0);
  }
}
