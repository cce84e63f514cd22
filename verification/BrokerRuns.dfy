/** Whole runs of the Broker: any stream of callers and requests, any answers of
    the world, any failures, and crashes and restarts at any point. */
module BrokerRuns {
  import opened Basics
  import opened Broker
  import opened BrokerSteps
  import opened CredentialStore
  import opened FidoVerifier
  import opened Sessions
  import opened VaultChanges
  import opened Vaults

  /** A request that is answered; a request that a crash cuts short, with the fates
      of the saves it had begun; the start of a new process. */
  datatype Event =
    | Call(caller: Caller, request: Request, world: World, fates: Fates)
    | Crash(caller: Caller, request: Request, world: World, fates: Fates)
    | Restart(world: World, fate: RefreshFate)

  /** A crash forgets the sessions and answers nobody; a restart refreshes the store. */
  function Next(s: State, e: Event, valid: Vault -> bool): State {
    match e
    case Call(caller, request, w, fates) => Handled(s, caller, request, w, fates, valid).0
    case Crash(caller, request, w, fates) => State(Handled(s, caller, request, w, fates, valid).0.loaded, map[])
    case Restart(w, fate) => State(AfterRefresh(s.loaded, w, fate, valid).0, map[])
  }

  datatype Run = Run(states: seq<State>, events: seq<Event>)

  /** A run of a new process over any disk. */
  ghost predicate IsRun(run: Run, valid: Vault -> bool) {
    && Trusted(valid)
    && |run.states| == |run.events| + 1
    && run.states[0].sessions == map[] && LoadsValid(run.states[0].loaded, valid)
    && forall k: nat :: k < |run.events| ==> Follows(run, valid, k)
  }

  predicate Follows(run: Run, valid: Vault -> bool, k: nat)
    requires k < |run.events| < |run.states|
  {
    run.states[k + 1] == Next(run.states[k], run.events[k], valid)
  }

  /** The vault a request works on: the refreshed one. */
  function Working(s: State, e: Event, valid: Vault -> bool): Option<Vault> {
    if e.Restart? then None
    else
      var (loaded, ok) := AfterRefresh(s.loaded, e.world, e.fates.refresh, valid);
      if ok then Some(loaded.value) else None
  }

  // ----- One step -----

  /** The session a step opens and leaves in the table, with its identifier. */
  function OpenedBy(s: State, e: Event, valid: Vault -> bool): Option<(string, Session)> {
    var v := Working(s, e, valid);
    if !e.Call? || v.None? || Offered(v.value, e.caller, e.request, e.world).None? then None
    else
      var session := Offered(v.value, e.caller, e.request, e.world).value;
      var id := Put(s.sessions, session, e.world.now, e.world.draw).1;
      if id.Failure? then None else Some((id.value, session.(expiresAt := e.world.now + SESSION_LIFETIME)))
  }

  /** The session a step takes and is let in by. */
  function UsedBy(s: State, e: Event, valid: Vault -> bool): Option<Session> {
    if Working(s, e, valid).None? then None else SessionOf(s.sessions, e.caller, e.request, e.world)
  }

  /** The session table after a step. */
  function TableAfter(s: State, e: Event, valid: Vault -> bool): Table {
    var v := Working(s, e, valid);
    if !e.Call? then map[]
    else if v.None? then s.sessions
    else if Consumed(e.request).Some? then
      Take(s.sessions, Consumed(e.request).value, e.caller, KindTaken(e.request), e.world.now).0
    else if Offered(v.value, e.caller, e.request, e.world).Some? then
      Put(s.sessions, Offered(v.value, e.caller, e.request, e.world).value, e.world.now, e.world.draw).0
    else s.sessions
  }

  lemma StepSessions(s: State, e: Event, valid: Vault -> bool)
    ensures Next(s, e, valid).sessions == TableAfter(s, e, valid)
  {
    if Working(s, e, valid).Some? {
      ServedSessions(Working(s, e, valid).value, s.sessions, e.caller, e.request, e.world, e.fates, valid);
    }
  }

  /** A session that a step opens was checked by that step. */
  lemma OpenedIsChecked(s: State, e: Event, valid: Vault -> bool, id: string, session: Session)
    requires OpenedBy(s, e, valid) == Some((id, session))
    ensures e.Call? && CheckedFor(session, e.caller, e.request, e.world)
    ensures session.expiresAt == e.world.now + SESSION_LIFETIME
  {
    OfferedIsChecked(Working(s, e, valid).value, e.caller, e.request, e.world);
  }

  lemma TableOrigin(s: State, e: Event, valid: Vault -> bool, id: string)
    requires id in TableAfter(s, e, valid)
    ensures
      var session := TableAfter(s, e, valid)[id];
      OpenedBy(s, e, valid) == Some((id, session)) || (id in s.sessions && s.sessions[id] == session)
  {
    var v := Working(s, e, valid);
    if v.Some? {
      if Consumed(e.request).Some? {
        TakeOrigin(s.sessions, Consumed(e.request).value, e.caller, KindTaken(e.request), e.world.now, id);
      } else if Offered(v.value, e.caller, e.request, e.world).Some? {
        PutOrigin(s.sessions, Offered(v.value, e.caller, e.request, e.world).value, e.world.now, e.world.draw, id);
      }
    }
  }

  /** A session in the table after a step was just opened, or was there before. */
  lemma SessionAfterStep(s: State, e: Event, valid: Vault -> bool, id: string)
    requires id in Next(s, e, valid).sessions
    ensures
      var session := Next(s, e, valid).sessions[id];
      OpenedBy(s, e, valid) == Some((id, session)) || (id in s.sessions && s.sessions[id] == session)
  {
    StepSessions(s, e, valid);
    TableOrigin(s, e, valid, id);
  }

  /** A request that names a session it may take removes it, whatever comes of it. */
  lemma UseConsumes(s: State, e: Event, valid: Vault -> bool, id: string)
    requires Working(s, e, valid).Some? && Consumed(e.request) == Some(id) && |id| == IDENTIFIER_LENGTH
    ensures id !in Next(s, e, valid).sessions
  {
    StepSessions(s, e, valid);
  }

  lemma UsedWasThere(s: State, e: Event, valid: Vault -> bool)
    requires UsedBy(s, e, valid).Some?
    ensures
      var id := Consumed(e.request);
      && id.Some? && |id.value| == IDENTIFIER_LENGTH && id.value in s.sessions
      && s.sessions[id.value] == UsedBy(s, e, valid).value
      && e.world.now < s.sessions[id.value].expiresAt
      && s.sessions[id.value].kind == KindTaken(e.request)
      && (e.caller.isSystem || SameText(e.caller.sid, s.sessions[id.value].callerSid))
      && id.value !in Next(s, e, valid).sessions
  {
    SessionIsTaken(s.sessions, e.caller, e.request, e.world);
    UseConsumes(s, e, valid, Consumed(e.request).value);
  }

  lemma StepKeepsLimits(s: State, e: Event, valid: Vault -> bool)
    requires WithinLimits(s.sessions)
    ensures WithinLimits(Next(s, e, valid).sessions)
  {
    StepSessions(s, e, valid);
    var v := Working(s, e, valid);
    if !e.Call? {
      NoSessions();
    } else if v.Some? {
      if Consumed(e.request).Some? {
        TakeConsumes(s.sessions, Consumed(e.request).value, e.caller, KindTaken(e.request), e.world.now);
      } else if Offered(v.value, e.caller, e.request, e.world).Some? {
        PutKeepsLimits(s.sessions, Offered(v.value, e.caller, e.request, e.world).value, e.world.now, e.world.draw);
      }
    }
  }

  lemma NoSessions()
    ensures WithinLimits(map[])
  {
    forall sid: Sid
      ensures OwnedBy(map[], sid) == {}
    {
    }
  }

  /** The counter that a step stores for a credential. */
  function CounterStored(s: State, e: Event, valid: Vault -> bool, sid: Sid, id: string): Option<Counter> {
    var v := Working(s, e, valid);
    if v.None? || !CounterReachesDisk(v.value, s.sessions, e.caller, e.request, e.world, e.fates, valid) then None
    else AssertedCounter(Held(s.loaded, sid), s.sessions, e.caller, e.request, e.world, sid, id)
  }

  /** How one credential of one account comes, goes and changes in a step. */
  lemma StepRecord(s: State, e: Event, valid: Vault -> bool, sid: Sid, id: string)
    requires Trusted(valid) && LoadsValid(s.loaded, valid)
    ensures
      var before, after := RecordOf(s.loaded, sid, id), RecordOf(Next(s, e, valid).loaded, sid, id);
      var stays := !Unmaps(s.loaded, e.world, sid);
      && LoadsValid(Next(s, e, valid).loaded, valid)
      && (before.None? && after.Some? ==>
            Working(s, e, valid).Some? && after.value.credentialId == id
              && Enrols(s.sessions, e.caller, e.request, e.world, sid, after.value))
      && (before.Some? && after.None? && stays ==>
            && Working(s, e, valid).Some?
            && (RemovesDirectly(e.caller, e.request, e.world, sid, id)
                || RemovesBySession(Held(s.loaded, sid), s.sessions, e.caller, e.request, e.world, sid, id)))
      && (before.Some? && after.Some? && stays ==> after == Recounted(before, CounterStored(s, e, valid, sid, id)))
  {
    var fate := if e.Restart? then e.fate else e.fates.refresh;
    HeldAfterRefresh(s.loaded, e.world, fate, valid, sid);
    var v := Working(s, e, valid);
    if v.Some? {
      ServedRecord(v.value, s.sessions, e.caller, e.request, e.world, e.fates, valid, sid, id);
      ServedPolicy(v.value, s.sessions, e.caller, e.request, e.world, e.fates, valid, sid);
    }
  }

  /** The policy of an account changes only by an elevated, password-checked
      request of the account itself, or with the deletion of an unmapped account. */
  lemma StepPolicy(s: State, e: Event, valid: Vault -> bool, sid: Sid)
    requires Trusted(valid) && LoadsValid(s.loaded, valid)
    ensures
      var before, after := Held(s.loaded, sid).enforced, Held(Next(s, e, valid).loaded, sid).enforced;
      before == after
      || (Working(s, e, valid).Some? && SetsPolicy(e.caller, e.request, e.world, sid, after))
      || (Unmaps(s.loaded, e.world, sid) && before && !after)
  {
    var fate := if e.Restart? then e.fate else e.fates.refresh;
    HeldAfterRefresh(s.loaded, e.world, fate, valid, sid);
    var v := Working(s, e, valid);
    if v.Some? {
      ServedPolicy(v.value, s.sessions, e.caller, e.request, e.world, e.fates, valid, sid);
    }
  }

  // ----- Sessions over whole runs -----

  ghost predicate Step(run: Run, valid: Vault -> bool, k: nat) {
    IsRun(run, valid) && k < |run.events| && Follows(run, valid, k)
  }

  /** What each step of a run opens, and the session table in each state. */
  function Openings(run: Run, valid: Vault -> bool): nat -> Option<(string, Session)>
    requires |run.events| < |run.states|
  {
    (k: nat) => if k < |run.events| then OpenedBy(run.states[k], run.events[k], valid) else None
  }

  function Tables(run: Run): nat -> Table {
    (k: nat) => if k < |run.states| then run.states[k].sessions else map[]
  }

  predicate Holds(t: Table, id: string, session: Session) {
    id in t && t[id] == session
  }

  /** Every session of the later table was just opened or is in the earlier one. */
  predicate ComesFrom(t: Table, opening: Option<(string, Session)>, u: Table) {
    forall id :: id in u ==> opening == Some((id, u[id])) || Holds(t, id, u[id])
  }

  /** Step `j` opens the session. */
  ghost predicate Opens(run: Run, valid: Vault -> bool, j: nat, id: string, session: Session)
    requires IsRun(run, valid)
  {
    j < |run.events| && Openings(run, valid)(j) == Some((id, session))
  }

  /** It is in the table, unchanged, from there up to state `k`. */
  ghost predicate Outstanding(run: Run, j: nat, k: nat, id: string, session: Session) {
    forall i: nat :: j < i <= k ==> Holds(Tables(run)(i), id, session)
  }

  lemma {:induction false} Origin(tables: nat -> Table, openings: nat -> Option<(string, Session)>, k: nat, id: string,
                                  session: Session)
    returns (j: nat)
    requires tables(0) == map[] && Holds(tables(k), id, session)
    requires forall m: nat :: m < k ==> ComesFrom(tables(m), openings(m), tables(m + 1))
    ensures j < k && openings(j) == Some((id, session))
    ensures forall i: nat :: j < i <= k ==> Holds(tables(i), id, session)
  {
    assert ComesFrom(tables(k - 1), openings(k - 1), tables(k));
    if openings(k - 1) == Some((id, session)) {
      j := k - 1;
    } else {
      j := Origin(tables, openings, k - 1, id, session);
    }
  }

  lemma StepComesFrom(run: Run, valid: Vault -> bool, k: nat)
    requires Step(run, valid, k)
    ensures ComesFrom(Tables(run)(k), Openings(run, valid)(k), Tables(run)(k + 1))
  {
    var u := run.states[k + 1].sessions;
    forall id | id in u
      ensures Openings(run, valid)(k) == Some((id, u[id])) || Holds(run.states[k].sessions, id, u[id])
    {
      SessionAfterStep(run.states[k], run.events[k], valid, id);
    }
  }

  /** Step `k` takes the session and is let in by it. */
  ghost predicate Uses(run: Run, valid: Vault -> bool, k: nat, id: string, session: Session)
    requires IsRun(run, valid)
  {
    k < |run.events| && UsedBy(run.states[k], run.events[k], valid) == Some(session)
      && Consumed(run.events[k].request) == Some(id)
  }

  lemma LimitsHoldNext(run: Run, valid: Vault -> bool, k: nat)
    requires IsRun(run, valid) && k < |run.events| && WithinLimits(run.states[k].sessions)
    ensures WithinLimits(run.states[k + 1].sessions)
  {
    assert Follows(run, valid, k);
    StepKeepsLimits(run.states[k], run.events[k], valid);
  }

  /** In every state: at most 256 sessions, at most 32 of one caller, and only
      identifiers of 32 characters. */
  lemma {:induction false} LimitsAlwaysHold(run: Run, valid: Vault -> bool, k: nat)
    requires IsRun(run, valid) && k < |run.states|
    ensures WithinLimits(run.states[k].sessions)
  {
    if k == 0 {
      NoSessions();
    } else {
      LimitsAlwaysHold(run, valid, k - 1);
      LimitsHoldNext(run, valid, k - 1);
    }
  }

  /** Every session in the table was opened by one step and has been there since. */
  lemma SessionHasOrigin(run: Run, valid: Vault -> bool, k: nat, id: string, session: Session) returns (j: nat)
    requires IsRun(run, valid) && k < |run.states| && Holds(run.states[k].sessions, id, session)
    ensures j < k && Opens(run, valid, j, id, session) && Outstanding(run, j, k, id, session)
  {
    forall m: nat | m < k
      ensures ComesFrom(Tables(run)(m), Openings(run, valid)(m), Tables(run)(m + 1))
    {
      assert Follows(run, valid, m);
      StepComesFrom(run, valid, m);
    }
    j := Origin(Tables(run), Openings(run, valid), k, id, session);
  }

  /** A session is used only after it was opened, before it expires, for its own
      kind of request, by its creator or SYSTEM; using it removes it. */
  lemma UsedSession(run: Run, valid: Vault -> bool, k: nat, id: string, session: Session) returns (j: nat)
    requires IsRun(run, valid) && Uses(run, valid, k, id, session)
    ensures j < k && Opens(run, valid, j, id, session) && Outstanding(run, j, k, id, session)
    ensures
      var opening, use := run.events[j], run.events[k];
      && opening.Call? && use.world.now < opening.world.now + SESSION_LIFETIME
      && CheckedFor(session, opening.caller, opening.request, opening.world)
      && session.kind == KindTaken(use.request)
      && (use.caller.isSystem || SameText(use.caller.sid, opening.caller.sid))
      && |id| == IDENTIFIER_LENGTH && id !in run.states[k + 1].sessions
  {
    assert Follows(run, valid, k);
    UsedWasThere(run.states[k], run.events[k], valid);
    j := SessionHasOrigin(run, valid, k, id, session);
    OpenedIsChecked(run.states[j], run.events[j], valid, id, session);
  }

  /** No session is used twice. */
  lemma UsedAtMostOnce(run: Run, valid: Vault -> bool, j: nat, id: string, session: Session, k: nat, other: nat)
    requires IsRun(run, valid) && Uses(run, valid, k, id, session) && Uses(run, valid, other, id, session)
    requires j < k && j < other && Outstanding(run, j, k, id, session) && Outstanding(run, j, other, id, session)
    ensures k == other
  {
    assert k < other ==> Holds(Tables(run)(k + 1), id, session);
    assert other < k ==> Holds(Tables(run)(other + 1), id, session);
    UseRemoves(run, valid, k, id, session);
    UseRemoves(run, valid, other, id, session);
  }

  lemma UseRemoves(run: Run, valid: Vault -> bool, k: nat, id: string, session: Session)
    requires IsRun(run, valid) && Uses(run, valid, k, id, session)
    ensures id !in run.states[k + 1].sessions
  {
    assert Follows(run, valid, k);
    UsedWasThere(run.states[k], run.events[k], valid);
  }

  /** A request that names a session consumes it even when it is refused for
      being late, of the wrong kind or of somebody else. */
  lemma RefusedUseConsumes(run: Run, valid: Vault -> bool, k: nat, id: string)
    requires Step(run, valid, k) && Working(run.states[k], run.events[k], valid).Some?
    requires Consumed(run.events[k].request) == Some(id) && id in run.states[k].sessions
    ensures id !in run.states[k + 1].sessions
  {
    LimitsAlwaysHold(run, valid, k);
    UseConsumes(run.states[k], run.events[k], valid, id);
  }

  // ----- Authorization over whole runs -----

  /** What every load over a run returns passes the validity test. */
  lemma {:induction false} AlwaysLoadsValid(run: Run, valid: Vault -> bool, k: nat)
    requires IsRun(run, valid) && k < |run.states|
    ensures LoadsValid(run.states[k].loaded, valid)
  {
    if k > 0 {
      AlwaysLoadsValid(run, valid, k - 1);
      assert Follows(run, valid, k - 1);
      StepRecord(run.states[k - 1], run.events[k - 1], valid, "", "");
    }
  }

  /** Step `j` is a request of the account itself with its password. */
  predicate PasswordChecked(e: Event, sid: Sid) {
    && e.Call? && (e.request.BeginRegistration? || e.request.BeginRemove?)
    && SameText(e.caller.sid, sid) && SameText(e.request.sid, sid)
    && KnowsPassword(e.caller, e.request.sid, e.request.username, e.request.password, e.world)
  }

  /** Step `j` opened the session that step `k` used, less than 120 s before. */
  ghost predicate Backs(run: Run, valid: Vault -> bool, j: nat, k: nat, id: string, session: Session)
    requires IsRun(run, valid)
  {
    && j < k && Opens(run, valid, j, id, session) && Outstanding(run, j, k, id, session)
    && Uses(run, valid, k, id, session)
    && run.events[k].world.now < run.events[j].world.now + SESSION_LIFETIME
    && (run.events[k].caller.isSystem || SameText(run.events[k].caller.sid, run.events[j].caller.sid))
  }

  /** Step `k` registers the credential for the account on the strength of the
      password that step `j` checked and of a verified ceremony over the
      challenge of step `j`. */
  ghost predicate RegistersFor(run: Run, valid: Vault -> bool, j: nat, k: nat, sid: Sid, record: CredentialRecord)
    requires IsRun(run, valid)
  {
    exists sessionId, session ::
      && Backs(run, valid, j, k, sessionId, session)
      && PasswordChecked(run.events[j], sid) && run.events[j].request.BeginRegistration?
      && session.challenge == run.events[j].world.challenge
      && run.events[k].request.CommitRegistration? && run.events[k].request.payload.Some?
      && CeremonyYields(session, run.events[k].request.payload.value, run.events[k].world, record)
  }

  /** The ceremony over the challenge of the session holds, and what it yields is
      the credential up to the counter. */
  ghost predicate CeremonyYields(session: Session, payload: Payload, w: World, record: CredentialRecord) {
    exists result ::
      && RegistrationHolds(session.challenge, session.rpId, session.origin, payload.attestationObject,
                           payload.clientDataJson, w.lib, result)
      && Stores(record.(signCount := result.signCount), result, session, w)
  }

  lemma VerifiedYields(session: Session, payload: Payload, w: World, record: CredentialRecord)
    requires
      var result := VerifyRegistration(session.challenge, session.rpId, session.origin, payload.attestationObject,
                                       payload.clientDataJson, w.lib);
      result.Success? && record == NewRecord(result.value, session.keyLabel, w.utcNow)
    ensures CeremonyYields(session, payload, w, record)
  {
    var result := VerifyRegistration(session.challenge, session.rpId, session.origin, payload.attestationObject,
                                     payload.clientDataJson, w.lib).value;
    RegistrationIff(session.challenge, session.rpId, session.origin, payload.attestationObject, payload.clientDataJson,
                    w.lib, result);
    AcceptedRegistration(session.challenge, session.rpId, session.origin, payload.attestationObject,
                         payload.clientDataJson, w.lib);
  }

  /** Two credentials that one ceremony of one session yields are the same key. */
  lemma YieldsOneKey(session: Session, payload: Payload, w: World, a: CredentialRecord, b: CredentialRecord)
    requires CeremonyYields(session, payload, w, a) && CeremonyYields(session, payload, w, b)
    ensures SameKey(a, b)
  {
    var r, s :|
      && RegistrationHolds(session.challenge, session.rpId, session.origin, payload.attestationObject,
                           payload.clientDataJson, w.lib, r)
      && Stores(a.(signCount := r.signCount), r, session, w)
      && RegistrationHolds(session.challenge, session.rpId, session.origin, payload.attestationObject,
                           payload.clientDataJson, w.lib, s)
      && Stores(b.(signCount := s.signCount), s, session, w);
    RegistrationIff(session.challenge, session.rpId, session.origin, payload.attestationObject, payload.clientDataJson,
                    w.lib, r);
    RegistrationIff(session.challenge, session.rpId, session.origin, payload.attestationObject, payload.clientDataJson,
                    w.lib, s);
  }

  /** Equal in everything but the counter. */
  predicate SameKey(a: CredentialRecord, b: CredentialRecord) {
    a == b.(signCount := a.signCount)
  }

  lemma SessionBacks(run: Run, valid: Vault -> bool, k: nat) returns (j: nat)
    requires Step(run, valid, k) && UsedBy(run.states[k], run.events[k], valid).Some?
    ensures
      var id, session := Consumed(run.events[k].request), UsedBy(run.states[k], run.events[k], valid).value;
      id.Some? && Backs(run, valid, j, k, id.value, session)
    ensures
      var session := UsedBy(run.states[k], run.events[k], valid).value;
      && session.kind == KindTaken(run.events[k].request)
      && run.events[j].Call? && CheckedFor(session, run.events[j].caller, run.events[j].request, run.events[j].world)
  {
    UsedWasThere(run.states[k], run.events[k], valid);
    j := UsedSession(run, valid, k, Consumed(run.events[k].request).value,
                     UsedBy(run.states[k], run.events[k], valid).value);
  }

  lemma RegistrationIsBacked(run: Run, valid: Vault -> bool, k: nat, sid: Sid, record: CredentialRecord)
    returns (j: nat)
    requires Step(run, valid, k) && Working(run.states[k], run.events[k], valid).Some?
    requires Enrols(run.states[k].sessions, run.events[k].caller, run.events[k].request, run.events[k].world, sid,
                    record)
    ensures j < k && RegistersFor(run, valid, j, k, sid, record)
  {
    j := SessionBacks(run, valid, k);
    var session := UsedBy(run.states[k], run.events[k], valid).value;
    SameIsTransitive(run.events[j].request.sid, session.targetSid, sid);
    VerifiedYields(session, run.events[k].request.payload.value, run.events[k].world, record);
  }

  /** Every credential that appears comes from a password-checked registration
      request of its own account, less than 120 s earlier, and is the one that the
      ceremony over the challenge of that request yields. */
  lemma AdditionIsAuthorized(run: Run, valid: Vault -> bool, k: nat, sid: Sid, id: string) returns (j: nat)
    requires Step(run, valid, k)
    requires RecordOf(run.states[k].loaded, sid, id).None? && RecordOf(run.states[k + 1].loaded, sid, id).Some?
    ensures j < k && RegistersFor(run, valid, j, k, sid, RecordOf(run.states[k + 1].loaded, sid, id).value)
    ensures RecordOf(run.states[k + 1].loaded, sid, id).value.credentialId == id
  {
    AlwaysLoadsValid(run, valid, k);
    StepRecord(run.states[k], run.events[k], valid, sid, id);
    j := RegistrationIsBacked(run, valid, k, sid, RecordOf(run.states[k + 1].loaded, sid, id).value);
  }

  lemma SameIsTransitive(a: Sid, b: Sid, c: Sid)
    requires SameText(a, b) && SameText(b, c)
    ensures SameText(a, c)
  {
  }

  /** A credential after a step was enrolled by it or was there before, with the
      same key. */
  lemma StepKey(s: State, e: Event, valid: Vault -> bool, sid: Sid, id: string)
    requires Trusted(valid) && LoadsValid(s.loaded, valid) && RecordOf(Next(s, e, valid).loaded, sid, id).Some?
    ensures
      var before, after := RecordOf(s.loaded, sid, id), RecordOf(Next(s, e, valid).loaded, sid, id).value;
      || (Working(s, e, valid).Some? && Enrols(s.sessions, e.caller, e.request, e.world, sid, after))
      || (before.Some? && SameKey(before.value, after))
  {
    var fate := if e.Restart? then e.fate else e.fates.refresh;
    HeldAfterRefresh(s.loaded, e.world, fate, valid, sid);
    var v := Working(s, e, valid);
    if v.Some? {
      ServedRecord(v.value, s.sessions, e.caller, e.request, e.world, e.fates, valid, sid, id);
    }
  }

  /** Every credential held in a run was there from the start, or was registered by
      its own account with its password; its key has been the same ever since. */
  lemma {:induction false} KeyHasOrigin(run: Run, valid: Vault -> bool, k: nat, sid: Sid, id: string)
    requires IsRun(run, valid) && k < |run.states| && RecordOf(run.states[k].loaded, sid, id).Some?
    ensures HasOrigin(run, valid, k, sid, id, RecordOf(run.states[k].loaded, sid, id).value)
    decreases k
  {
    if k > 0 {
      var s, e := run.states[k - 1], run.events[k - 1];
      AlwaysLoadsValid(run, valid, k - 1);
      assert Follows(run, valid, k - 1);
      StepKey(s, e, valid, sid, id);
      var before, after := RecordOf(s.loaded, sid, id), RecordOf(run.states[k].loaded, sid, id).value;
      if before.Some? && SameKey(before.value, after) {
        KeyHasOrigin(run, valid, k - 1, sid, id);
        OriginOfSameKey(run, valid, k - 1, k, sid, id, before.value, after);
      } else {
        var j := RegistrationIsBacked(run, valid, k - 1, sid, after);
      }
    }
  }

  ghost predicate HasOrigin(run: Run, valid: Vault -> bool, k: nat, sid: Sid, id: string, record: CredentialRecord)
    requires IsRun(run, valid)
  {
    var first := RecordOf(run.states[0].loaded, sid, id);
    || (first.Some? && SameKey(first.value, record))
    || exists j: nat, m: nat :: j < m < k && RegistersFor(run, valid, j, m, sid, record)
  }

  lemma OriginOfSameKey(run: Run, valid: Vault -> bool, k: nat, later: nat, sid: Sid, id: string,
                        before: CredentialRecord, after: CredentialRecord)
    requires IsRun(run, valid) && HasOrigin(run, valid, k, sid, id, before) && SameKey(before, after) && k <= later
    ensures HasOrigin(run, valid, later, sid, id, after)
  {
    var first := RecordOf(run.states[0].loaded, sid, id);
    if first.None? || !SameKey(first.value, before) {
      var j: nat, m: nat :| j < m < k && RegistersFor(run, valid, j, m, sid, before);
      RegistersSameKey(run, valid, j, m, sid, before, after);
    }
  }

  lemma RegistersSameKey(run: Run, valid: Vault -> bool, j: nat, k: nat, sid: Sid, before: CredentialRecord,
                         after: CredentialRecord)
    requires IsRun(run, valid) && RegistersFor(run, valid, j, k, sid, before) && SameKey(before, after)
    ensures RegistersFor(run, valid, j, k, sid, after)
  {
  }

  /** No password check stands behind two registrations. */
  lemma OneRegistrationPerPassword(run: Run, valid: Vault -> bool, j: nat, k: nat, other: nat,
                                   sid: Sid, record: CredentialRecord, sid': Sid, record': CredentialRecord)
    requires IsRun(run, valid) && RegistersFor(run, valid, j, k, sid, record)
      && RegistersFor(run, valid, j, other, sid', record')
    ensures k == other && SameKey(record, record') && SameText(sid, sid')
  {
    var sessionId, session :| Backs(run, valid, j, k, sessionId, session);
    var sessionId', session' :| Backs(run, valid, j, other, sessionId', session');
    UsedAtMostOnce(run, valid, j, sessionId, session, k, other);
    YieldsOneKey(session, run.events[k].request.payload.value, run.events[k].world, record, record');
  }

  /** Step `k` removes the credential on the strength of the password that step
      `j` checked for exactly this credential, and of a verified assertion of a
      credential of the account over the challenge of step `j`. */
  ghost predicate RemovesWithKey(run: Run, valid: Vault -> bool, j: nat, k: nat, sid: Sid, id: string)
    requires IsRun(run, valid)
  {
    exists sessionId, session ::
      && Backs(run, valid, j, k, sessionId, session)
      && PasswordChecked(run.events[j], sid) && run.events[j].request.BeginRemove?
      && run.events[j].request.credentialId == Some(id)
      && session.challenge == run.events[j].world.challenge
      && RemovesBySession(Held(run.states[k].loaded, sid), run.states[k].sessions, run.events[k].caller,
                          run.events[k].request, run.events[k].world, sid, id)
  }

  lemma KeyRemovalIsBacked(run: Run, valid: Vault -> bool, k: nat, sid: Sid, id: string) returns (j: nat)
    requires Step(run, valid, k) && Working(run.states[k], run.events[k], valid).Some?
    requires RemovesBySession(Held(run.states[k].loaded, sid), run.states[k].sessions, run.events[k].caller,
                              run.events[k].request, run.events[k].world, sid, id)
    ensures j < k && RemovesWithKey(run, valid, j, k, sid, id)
  {
    j := SessionBacks(run, valid, k);
    var session := UsedBy(run.states[k], run.events[k], valid).value;
    SameIsTransitive(run.events[j].request.sid, session.targetSid, sid);
  }

  /** Every credential that disappears does so by a password-checked request of
      its own account that names it, now or less than 120 s earlier, unless the
      operating system no longer knows the account; then the whole account is gone
      before the request is served. */
  lemma RemovalIsAuthorized(run: Run, valid: Vault -> bool, k: nat, sid: Sid, id: string)
    requires Step(run, valid, k)
    requires RecordOf(run.states[k].loaded, sid, id).Some? && RecordOf(run.states[k + 1].loaded, sid, id).None?
    ensures
      var e := run.events[k];
      || Unmaps(run.states[k].loaded, e.world, sid)
      || (!e.Restart? && RemovesDirectly(e.caller, e.request, e.world, sid, id))
      || exists j: nat :: j < k && RemovesWithKey(run, valid, j, k, sid, id)
    ensures
      var e, s := run.events[k], run.states[k];
      Unmaps(s.loaded, e.world, sid) && Working(s, e, valid).Some? ==> AccountOf(Working(s, e, valid).value, sid).None?
  {
    AlwaysLoadsValid(run, valid, k);
    StepRecord(run.states[k], run.events[k], valid, sid, id);
    var e := run.events[k];
    if Unmaps(run.states[k].loaded, e.world, sid) && Working(run.states[k], e, valid).Some? {
      UnmappedIsGone(run.states[k].loaded, e.world, e.fates.refresh, valid, sid);
    }
    if !Unmaps(run.states[k].loaded, e.world, sid) && !RemovesDirectly(e.caller, e.request, e.world, sid, id) {
      var j := KeyRemovalIsBacked(run, valid, k, sid, id);
    }
  }

  /** Every change of an account's policy is an elevated, password-checked request
      of the account itself, or the deletion of an account that the operating
      system no longer knows. */
  lemma PolicyIsAuthorized(run: Run, valid: Vault -> bool, k: nat, sid: Sid)
    requires Step(run, valid, k)
    requires Held(run.states[k].loaded, sid).enforced != Held(run.states[k + 1].loaded, sid).enforced
    ensures
      var e, after := run.events[k], Held(run.states[k + 1].loaded, sid).enforced;
      || (!e.Restart? && SetsPolicy(e.caller, e.request, e.world, sid, after))
      || (!after && Unmaps(run.states[k].loaded, e.world, sid))
  {
    AlwaysLoadsValid(run, valid, k);
    StepPolicy(run.states[k], run.events[k], valid, sid);
  }

  /** In every state an enforced account has a credential, however many removals
      were under way. */
  lemma EnforcedKeepsCredential(run: Run, valid: Vault -> bool, k: nat, sid: Sid)
    requires IsRun(run, valid) && k < |run.states|
    ensures Held(run.states[k].loaded, sid).enforced ==> Held(run.states[k].loaded, sid).credentials != []
    ensures DistinctIds(Held(run.states[k].loaded, sid).credentials)
  {
    AlwaysLoadsValid(run, valid, k);
    if run.states[k].loaded.Success? {
      OrderlyHolding(run.states[k].loaded.value, sid);
    }
  }

  // ----- Signature counters over whole runs -----

  /** The credential is registered in every state from `i` to `k`, and its account
      is never unmapped in between. */
  ghost predicate StaysRegistered(run: Run, i: nat, k: nat, sid: Sid, id: string) {
    && (forall m :: i <= m <= k && m < |run.states| ==> RecordOf(run.states[m].loaded, sid, id).Some?)
    && (forall m ::
           i <= m < k && m < |run.events| && m < |run.states| ==>
             !Unmaps(run.states[m].loaded, run.events[m].world, sid))
  }

  function StoredCounter(run: Run, k: nat, sid: Sid, id: string): Counter
    requires k < |run.states|
  {
    var record := RecordOf(run.states[k].loaded, sid, id);
    if record.Some? then record.value.signCount else 0
  }

  /** The last value stored from step `i` on, before step `k`. */
  function Last(stores: nat -> Option<Counter>, i: nat, k: nat): Option<Counter>
    requires i <= k
    decreases k
  {
    if k == i then None
    else if stores(k - 1).Some? then stores(k - 1)
    else Last(stores, i, k - 1)
  }

  /** What each step of a run stores as the counter of a credential. */
  function CountersStored(run: Run, valid: Vault -> bool, sid: Sid, id: string): nat -> Option<Counter>
    requires |run.events| < |run.states|
  {
    (k: nat) => if k < |run.events| then CounterStored(run.states[k], run.events[k], valid, sid, id) else None
  }

  /** The stored counter in each state of a run. */
  function CountersHeld(run: Run, sid: Sid, id: string): nat -> Counter {
    (k: nat) => if k < |run.states| then StoredCounter(run, k, sid, id) else 0
  }

  predicate RisesTo(before: Counter, stored: Option<Counter>, after: Counter) {
    after == (if stored.Some? then stored.value else before) && before <= after
  }

  lemma {:induction false} LastIsHeld(held: nat -> Counter, stores: nat -> Option<Counter>, i: nat, k: nat)
    requires i <= k
    requires forall m: nat :: i <= m < k ==> RisesTo(held(m), stores(m), held(m + 1))
    ensures RisesTo(held(i), Last(stores, i, k), held(k))
    decreases k
  {
    if i < k {
      LastIsHeld(held, stores, i, k - 1);
    }
  }

  /** A stored counter obeys the rule against the one it replaces. */
  lemma StoredCounterRises(s: State, e: Event, valid: Vault -> bool, sid: Sid, id: string)
    requires CounterStored(s, e, valid, sid, id).Some?
    ensures RecordOf(s.loaded, sid, id).Some?
    ensures
      var before, after := RecordOf(s.loaded, sid, id).value.signCount, CounterStored(s, e, valid, sid, id).value;
      (before == 0 && after == 0) || after > before
  {
    VerifiedCounterRises(Held(s.loaded, sid), UsedBy(s, e, valid).value, AssertionOf(e.request), e.world.lib, sid, id);
  }

  lemma CounterAfterStep(run: Run, valid: Vault -> bool, k: nat, sid: Sid, id: string)
    requires Step(run, valid, k) && StaysRegistered(run, k, k + 1, sid, id)
    ensures RisesTo(CountersHeld(run, sid, id)(k), CountersStored(run, valid, sid, id)(k),
                    CountersHeld(run, sid, id)(k + 1))
  {
    AlwaysLoadsValid(run, valid, k);
    StepRecord(run.states[k], run.events[k], valid, sid, id);
    if CounterStored(run.states[k], run.events[k], valid, sid, id).Some? {
      StoredCounterRises(run.states[k], run.events[k], valid, sid, id);
    }
  }

  /** While a credential stays registered, the vault holds the last counter that
      was stored for it, and the counter never goes back. */
  lemma CountersNeverGoBack(run: Run, valid: Vault -> bool, i: nat, k: nat, sid: Sid, id: string)
    requires IsRun(run, valid) && i <= k < |run.states| && StaysRegistered(run, i, k, sid, id)
    ensures RisesTo(CountersHeld(run, sid, id)(i), Last(CountersStored(run, valid, sid, id), i, k),
                    CountersHeld(run, sid, id)(k))
  {
    var held, stores := CountersHeld(run, sid, id), CountersStored(run, valid, sid, id);
    forall m: nat | i <= m < k
      ensures RisesTo(held(m), stores(m), held(m + 1))
    {
      StaysForAStep(run, i, k, m, sid, id);
      assert Follows(run, valid, m);
      CounterAfterStep(run, valid, m, sid, id);
    }
    LastIsHeld(held, stores, i, k);
  }

  lemma StaysForAStep(run: Run, i: nat, k: nat, m: nat, sid: Sid, id: string)
    requires StaysRegistered(run, i, k, sid, id) && i <= m < k
    ensures StaysRegistered(run, m, m + 1, sid, id)
  {
  }

  /** Counters stored by two steps for a credential that stays registered increase
      strictly, once they are not zero. */
  lemma StoredCountersIncrease(run: Run, valid: Vault -> bool, i: nat, k: nat, sid: Sid, id: string)
    requires IsRun(run, valid) && i < k < |run.events| && StaysRegistered(run, i, k, sid, id)
    requires CounterStored(run.states[i], run.events[i], valid, sid, id).Some?
    requires CounterStored(run.states[k], run.events[k], valid, sid, id).Some?
    ensures
      var first, second := CounterStored(run.states[i], run.events[i], valid, sid, id).value,
        CounterStored(run.states[k], run.events[k], valid, sid, id).value;
      (first == 0 && second == 0) || first < second
  {
    assert Follows(run, valid, i);
    CounterAfterStep(run, valid, i, sid, id);
    CountersNeverGoBack(run, valid, i + 1, k, sid, id);
    StoredCounterRises(run.states[k], run.events[k], valid, sid, id);
  }

  // ----- Accepted assertions -----

  /** The counter of an assertion that VerifySessionAssertion accepts during a
      request that is answered. */
  function AcceptedCounter(s: State, e: Event, valid: Vault -> bool, sid: Sid, id: string): Option<Counter> {
    var v, session := Working(s, e, valid), UsedBy(s, e, valid);
    if !e.Call? || session.None?
       || AfterAssertion(v.value, session.value, AssertionOf(e.request), e.world.lib, e.fates.counter, valid).1.Some?
    then None
    else AssertedCounter(Held(s.loaded, sid), s.sessions, e.caller, e.request, e.world, sid, id)
  }

  /** The accepted counter is stored; a stored counter was accepted unless its save
      failed with the new vault in place, or a crash came before the answer. */
  lemma StoredUnlessUnanswered(s: State, e: Event, valid: Vault -> bool, sid: Sid, id: string)
    ensures CounterStored(s, e, valid, sid, id).Some? ==>
      AcceptedCounter(s, e, valid, sid, id) == if e.Crash? || e.fates.counter.Kept? then None
        else CounterStored(s, e, valid, sid, id)
    ensures AcceptedCounter(s, e, valid, sid, id).Some? ==>
      CounterStored(s, e, valid, sid, id) == AcceptedCounter(s, e, valid, sid, id)
  {
  }

  /** The counter that a request, served after this refresh, would verify with for
      a credential, whatever becomes of its saves. */
  function WouldVerify(s: State, caller: Caller, r: Request, w: World, sid: Sid, id: string): Option<Counter> {
    AssertedCounter(Held(s.loaded, sid), s.sessions, caller, r, w, sid, id)
  }

  /** The stored counter is neither the accepted one nor the one before. */
  predicate Untracked(s: State, e: Event, valid: Vault -> bool, sid: Sid, id: string) {
    var before, after := RecordOf(s.loaded, sid, id), RecordOf(Next(s, e, valid).loaded, sid, id);
    && before.Some? && after.Some?
    && var accepted := AcceptedCounter(s, e, valid, sid, id);
       after.value.signCount != if accepted.Some? then accepted.value else before.value.signCount
  }

  function AcceptedCounters(run: Run, valid: Vault -> bool, sid: Sid, id: string): nat -> Option<Counter>
    requires |run.events| < |run.states|
  {
    (k: nat) => if k < |run.events| then AcceptedCounter(run.states[k], run.events[k], valid, sid, id) else None
  }

  /** Step `k` stored a counter that no answer accepted: the save failed and so did
      its undo, or the process crashed. */
  predicate StoresUnanswered(run: Run, valid: Vault -> bool, k: nat, sid: Sid, id: string)
    requires k < |run.events| < |run.states|
  {
    && CountersStored(run, valid, sid, id)(k).Some?
    && (run.events[k].Crash? || (run.events[k].Call? && run.events[k].fates.counter.Kept?))
  }

  /** Which steps leave the stored counter at the last accepted one. */
  lemma TracksAcceptance(run: Run, valid: Vault -> bool, k: nat, sid: Sid, id: string)
    requires Step(run, valid, k) && StaysRegistered(run, k, k + 1, sid, id)
    ensures
      var accepted, held := AcceptedCounters(run, valid, sid, id)(k), CountersHeld(run, sid, id);
      held(k + 1) == (if accepted.Some? then accepted.value else held(k))
      <==> !(StoresUnanswered(run, valid, k, sid, id) && CountersStored(run, valid, sid, id)(k).value != held(k))
  {
    CounterAfterStep(run, valid, k, sid, id);
    StoredUnlessUnanswered(run.states[k], run.events[k], valid, sid, id);
  }

  lemma {:induction false} SameLast(first: nat -> Option<Counter>, second: nat -> Option<Counter>, i: nat, k: nat)
    requires i <= k && forall m: nat :: i <= m < k ==> first(m) == second(m)
    ensures Last(first, i, k) == Last(second, i, k)
    decreases k
  {
    if i < k {
      SameLast(first, second, i, k - 1);
    }
  }

  /** While a credential stays registered and no unanswered counter is stored, the
      stored counter is that of the last accepted assertion. */
  lemma StoredIsLastAccepted(run: Run, valid: Vault -> bool, i: nat, k: nat, sid: Sid, id: string)
    requires IsRun(run, valid) && i <= k < |run.states| && StaysRegistered(run, i, k, sid, id)
    requires forall m: nat :: i <= m < k ==> !StoresUnanswered(run, valid, m, sid, id)
    ensures RisesTo(CountersHeld(run, sid, id)(i), Last(AcceptedCounters(run, valid, sid, id), i, k),
                    CountersHeld(run, sid, id)(k))
  {
    var stored, accepted := CountersStored(run, valid, sid, id), AcceptedCounters(run, valid, sid, id);
    CountersNeverGoBack(run, valid, i, k, sid, id);
    forall m: nat | i <= m < k
      ensures stored(m) == accepted(m)
    {
      assert !StoresUnanswered(run, valid, m, sid, id);
      StoredUnlessUnanswered(run.states[m], run.events[m], valid, sid, id);
    }
    SameLast(stored, accepted, i, k);
  }

  /** An answered finish_auth was asked for by begin_auth or begin_test of the
      account itself or of SYSTEM, less than 120 s before, and its assertion over
      that challenge verifies for a registered credential of the account. */
  lemma AuthenticationIsBacked(run: Run, valid: Vault -> bool, k: nat) returns (j: nat, sid: Sid, id: string)
    requires Step(run, valid, k) && run.events[k].Call? && run.events[k].request.FinishAuth?
    requires
      var e := run.events[k];
      Handled(run.states[k], e.caller, e.request, e.world, e.fates, valid).1 == Done
    ensures UsedBy(run.states[k], run.events[k], valid).Some?
    ensures
      var session := UsedBy(run.states[k], run.events[k], valid).value;
      && Backs(run, valid, j, k, run.events[k].request.sessionId, session)
      && (run.events[j].request.BeginAuth? || run.events[j].request.BeginTest?) && run.events[j].request.sid == sid
      && (run.events[j].caller.isSystem || SameText(run.events[j].caller.sid, sid))
      && session.challenge == run.events[j].world.challenge
      && AssertionOf(run.events[k].request).Some?
      && VerifiedCounter(HoldingOf(AccountOf(Working(run.states[k], run.events[k], valid).value, sid)), session,
                         AssertionOf(run.events[k].request), run.events[k].world.lib, sid, id).Some?
  {
    var e := run.events[k];
    var v := Working(run.states[k], e, valid).value;
    FinishAuthDone(v, run.states[k].sessions, e.caller, e.request, e.world, e.fates.counter, valid);
    var session := UsedBy(run.states[k], e, valid).value;
    j := SessionBacks(run, valid, k);
    sid, id := session.targetSid, e.request.assertion.value.items[0].credentialId;
  }

  lemma FinishAuthDone(v: Vault, t: Table, caller: Caller, r: Request, w: World, fate: SaveFate, valid: Vault -> bool)
    requires r.FinishAuth? && AfterFinishAuth(v, t, caller, r, w, fate, valid).reply == Done
    ensures SessionOf(t, caller, r, w).Some? && r.assertion.Some? && |r.assertion.value.items| == 1
    ensures
      var session := SessionOf(t, caller, r, w).value;
      VerifiedCounter(HoldingOf(AccountOf(v, session.targetSid)), session, r.assertion, w.lib, session.targetSid,
                      r.assertion.value.items[0].credentialId).Some?
  {
    CountedIsVerified(v, SessionOf(t, caller, r, w).value, r.assertion, w.lib);
  }
}
