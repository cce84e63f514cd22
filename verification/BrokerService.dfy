/** The Broker process: its session table and the store it works on. Every
    operation does its steps one by one and is proved to end where module Broker
    says. */
module BrokerProcess {
  import opened Basics
  import opened Broker
  import opened CredentialStore
  import opened FidoVerifier
  import opened Sessions
  import opened Vaults
  import BrokerRuns
  import BrokerSteps
  import opened VaultChanges

  class BrokerService {
    const store: Machine
    var sessions: Table

    constructor (store: Machine)
      ensures this.store == store && sessions == map[]
    {
      this.store := store;
      sessions := map[];
    }

    ghost function Now(): State
      reads this, store
    {
      State(store.Loaded(), sessions)
    }

    // ----- Sessions -----

    /** The first loop of PutSession. */
    method Prune(now: int)
      modifies `sessions
      ensures sessions == Pruned(old(sessions), now)
    {
      var pending := sessions.Keys;
      while pending != {}
        invariant pending <= old(sessions).Keys
        invariant sessions == map id | id in old(sessions) && (id in pending || old(sessions)[id].expiresAt > now) ::
          old(sessions)[id]
        decreases |pending|
      {
        var id :| id in pending;
        if sessions[id].expiresAt <= now {
          sessions := sessions - {id};
        }
        pending := pending - {id};
      }
    }

    method CountOwned(sid: Sid) returns (count: nat)
      ensures count == |OwnedBy(sessions, sid)|
    {
      var pending := sessions.Keys;
      count := 0;
      ghost var owned := OwnedBy(sessions, sid);
      while pending != {}
        invariant pending <= sessions.Keys
        invariant count == |owned - pending|
        decreases |pending|
      {
        var id :| id in pending;
        OneLessPending(owned, pending, id);
        if SameText(sessions[id].callerSid, sid) {
          count := count + 1;
        }
        pending := pending - {id};
      }
      assert owned - pending == owned;
    }

    method PutSession(session: Session, now: int, draw: nat -> Identifier) returns (r: Result<string, SessionError>)
      modifies `sessions
      ensures (sessions, r) == Put(old(sessions), session, now, draw)
    {
      if session.challenge == "" || session.rpId == "" || session.origin == "" {
        return Failure(NoCryptographicSession);
      }
      Prune(now);
      var owned := CountOwned(session.callerSid);
      if |sessions| >= MAX_SESSIONS || owned >= MAX_SESSIONS_PER_CALLER {
        return Failure(TooManySessions);
      }
      ghost var kept := sessions;
      for attempt := 0 to ATTEMPTS
        invariant sessions == kept
        invariant Allotted(kept, draw, 0) == Allotted(kept, draw, attempt)
      {
        var id := draw(attempt);
        if id != "" && id !in sessions {
          sessions := sessions[id := session.(expiresAt := now + SESSION_LIFETIME)];
          return Success(id);
        }
      }
      return Failure(NoUniqueSession);
    }

    method TakeSession(id: string, caller: Caller, expected: Kind, now: int) returns (r: Result<Session, SessionError>)
      modifies `sessions
      ensures (sessions, r) == Take(old(sessions), id, caller, expected, now)
    {
      if |id| != IDENTIFIER_LENGTH {
        return Failure(InvalidIdentifier);
      }
      if id !in sessions {
        return Failure(UnknownSession);
      }
      var session := sessions[id];
      sessions := sessions - {id};
      if session.expiresAt <= now {
        return Failure(Expired);
      }
      if session.kind != expected {
        return Failure(WrongKind);
      }
      if !caller.isSystem && !SameText(caller.sid, session.callerSid) {
        return Failure(ForeignSession);
      }
      return Success(session);
    }

    // ----- Saving -----

    method UpsertAccount(account: AccountRecord, newId: string, ghost v: Vault)
      returns (ok: bool, ghost fate: SaveFate, ghost trace: seq<Disk>)
      requires store.Loaded() == Success(v)
      modifies store
      ensures (store.Loaded(), ok) == SaveOutcome(v, Some(Upserted(v, account)), fate, store.valid)
      ensures EndsAt(trace, old(store.Now()), store.Now())
      ensures OneOf(trace, v, AfterSave(v, Some(Upserted(v, account)), Commits, store.valid).0, store.valid)
      ensures store.faults >= old(store.faults)
      ensures store.faults == old(store.faults) ==> fate.Commits?
    {
      ok, trace := store.UpsertAccount(account, newId);
      fate := FateOfChange(v, Some(Upserted(v, account)), trace, store.Now(), ok, store.faults == old(store.faults),
                           store.valid);
      CrashIsAFate(v, Some(Upserted(v, account)), trace, store.valid);
    }

    method RemoveCredential(sid: Sid, credentialId: string, newId: string, ghost v: Vault)
      returns (ok: bool, ghost fate: SaveFate, ghost trace: seq<Disk>)
      requires store.Loaded() == Success(v)
      modifies store
      ensures (store.Loaded(), ok) == SaveOutcome(v, WithoutCredential(v, sid, credentialId), fate, store.valid)
      ensures EndsAt(trace, old(store.Now()), store.Now())
      ensures OneOf(trace, v, AfterSave(v, WithoutCredential(v, sid, credentialId), Commits, store.valid).0,
                    store.valid)
      ensures store.faults >= old(store.faults)
      ensures store.faults == old(store.faults) ==> fate.Commits?
    {
      ok, trace := store.RemoveCredential(sid, credentialId, newId);
      fate := FateOfChange(v, WithoutCredential(v, sid, credentialId), trace, store.Now(), ok,
                           store.faults == old(store.faults),
                           store.valid);
      CrashIsAFate(v, WithoutCredential(v, sid, credentialId), trace, store.valid);
    }

    method SetEnforced(sid: Sid, enforced: bool, newId: string, ghost v: Vault)
      returns (ok: bool, ghost fate: SaveFate, ghost trace: seq<Disk>)
      requires store.Loaded() == Success(v)
      modifies store
      ensures (store.Loaded(), ok) == SaveOutcome(v, WithEnforcement(v, sid, enforced), fate, store.valid)
      ensures EndsAt(trace, old(store.Now()), store.Now())
      ensures OneOf(trace, v, AfterSave(v, WithEnforcement(v, sid, enforced), Commits, store.valid).0, store.valid)
      ensures store.faults >= old(store.faults)
      ensures store.faults == old(store.faults) ==> fate.Commits?
    {
      ok, trace := store.SetEnforced(sid, enforced, newId);
      fate := FateOfChange(v, WithEnforcement(v, sid, enforced), trace, store.Now(), ok,
                           store.faults == old(store.faults),
                           store.valid);
      CrashIsAFate(v, WithEnforcement(v, sid, enforced), trace, store.valid);
    }

    method Save(changed: Vault, ghost v: Vault) returns (ok: bool, ghost fate: SaveFate, ghost trace: seq<Disk>)
      requires store.Loaded() == Success(v)
      modifies store
      ensures (store.Loaded(), ok) == SaveOutcome(v, Some(changed), fate, store.valid)
      ensures EndsAt(trace, old(store.Now()), store.Now())
      ensures OneOf(trace, v, AfterSave(v, Some(changed), Commits, store.valid).0, store.valid)
      ensures store.faults >= old(store.faults)
      ensures store.faults == old(store.faults) ==> fate.Commits?
    {
      ghost var undone;
      ok, trace, undone := store.Save(changed);
      assert Through(trace, Success(v), Some(v), Some(changed), store.valid);
      fate := FateOfChange(v, Some(changed), trace, store.Now(), ok, store.faults == old(store.faults),
                           store.valid);
      CrashIsAFate(v, Some(changed), trace, store.valid);
    }

    // ----- Operations -----

    method VerifySessionAssertion(session: Session, assertion: Option<Assertion>, w: World, ghost v: Vault)
      returns (error: Option<Error>, ghost fate: SaveFate, ghost trace: seq<Disk>)
      requires store.Loaded() == Success(v)
      modifies store
      ensures store.Loaded() == Success(AfterAssertion(v, session, assertion, w.lib, fate, store.valid).0)
      ensures error == AfterAssertion(v, session, assertion, w.lib, fate, store.valid).1
      ensures EndsAt(trace, old(store.Now()), store.Now())
      ensures OneOf(trace, v, AfterAssertion(v, session, assertion, w.lib, Commits, store.valid).0, store.valid)
      ensures store.faults >= old(store.faults)
      ensures store.faults == old(store.faults) ==> fate.Commits?
    {
      fate, trace := Commits, [];
      if assertion.None? {
        return Some(MissingField), fate, trace;
      }
      var account, _ := store.FindAccount(session.targetSid, w.newId);
      if account.None? || account.value.credentials == [] {
        return Some(NoCredentials), fate, trace;
      }
      if |assertion.value.items| != 1 {
        return Some(OfCeremony(NotOneAssertion)), fate, trace;
      }
      var cs := account.value.credentials;
      var c := FindCredential(cs, assertion.value.items[0].credentialId);
      if c == |cs| {
        return Some(NotRegistered), fate, trace;
      }
      var counter := VerifyAssertion(cs[c], session.challenge, session.rpId, session.origin, assertion.value, w.lib);
      if counter.Failure? {
        return Some(OfCeremony(counter.error)), fate, trace;
      }
      var updated := account.value.(credentials := cs[c := cs[c].(signCount := counter.value)]);
      assert Counted(v, session, assertion, w.lib) == Success(updated);
      var ok;
      ok, fate, trace := UpsertAccount(updated, w.newId, v);
      error := if ok then None else Some(NotSaved);
    }

    method CredentialIds(cs: seq<CredentialRecord>) returns (ids: seq<string>)
      ensures ids == IdsOf(cs)
    {
      ids := [];
      for k := 0 to |cs|
        invariant ids == IdsOf(cs)[..k]
      {
        ids := ids + [cs[k].credentialId];
      }
    }

    method Challenge(session: Session, cs: seq<CredentialRecord>, w: World) returns (reply: Reply)
      modifies `sessions
      ensures (sessions, reply) == Challenged(old(sessions), session, cs, w)
    {
      var id := PutSession(session, w.now, w.draw);
      if id.Failure? {
        return Refused(OfSession(id.error));
      }
      var ids := CredentialIds(cs);
      return Reply.Challenge(id.value, session.challenge, session.rpId, session.origin, ids);
    }

    method Status(caller: Caller, sid: Sid, w: World, ghost v: Vault) returns (reply: Reply)
      requires store.Loaded() == Success(v)
      modifies store
      ensures store.Now() == old(store.Now()) && store.faults == old(store.faults)
      ensures reply == StatusOf(v, caller, sid)
    {
      if !caller.isSystem && !caller.isElevatedAdmin && !SameText(caller.sid, sid) {
        return Refused(AccessDenied);
      }
      var account, _ := store.FindAccount(sid, w.newId);
      return AccountStatus(account);
    }

    method BeginAuth(caller: Caller, sid: Sid, vault: Vault, w: World) returns (reply: Reply)
      requires store.Loaded() == Success(vault) && InStep(store.Now(), store.Loaded())
      modifies `sessions, store
      ensures store.Now() == old(store.Now()) && store.faults == old(store.faults)
      ensures (sessions, reply) == AfterBeginAuth(vault, old(sessions), caller, sid, w)
    {
      if !caller.isSystem && !SameText(caller.sid, sid) {
        return Refused(AccessDenied);
      }
      var account, _ := store.FindAccount(sid, w.newId);
      if account.None? || !account.value.enforced {
        var listed := store.IsSidEnforced(sid);
        assert listed <==> ListedFor(vault, sid);
        return if listed then Refused(PolicyInconsistent) else NotEnforced;
      }
      if account.value.credentials == [] {
        return Refused(NoCredentials);
      }
      reply := Challenge(NewSession(Authentication, caller, sid, vault, w), account.value.credentials, w);
    }

    method BeginTest(caller: Caller, sid: Sid, vault: Vault, w: World) returns (reply: Reply)
      requires store.Loaded() == Success(vault)
      modifies `sessions, store
      ensures store.Now() == old(store.Now()) && store.faults == old(store.faults)
      ensures (sessions, reply) == AfterBeginTest(vault, old(sessions), caller, sid, w)
    {
      if !caller.isSystem && !SameText(caller.sid, sid) {
        return Refused(AccessDenied);
      }
      var account, _ := store.FindAccount(sid, w.newId);
      if account.None? || account.value.credentials == [] {
        return Refused(NoCredentials);
      }
      reply := Challenge(NewSession(Authentication, caller, sid, vault, w), account.value.credentials, w);
    }

    method BeginRegistration(caller: Caller, r: Request, vault: Vault, w: World) returns (reply: Reply)
      requires r.BeginRegistration? && store.Loaded() == Success(vault)
      modifies `sessions, store
      ensures store.Now() == old(store.Now()) && store.faults == old(store.faults)
      ensures (sessions, reply) == AfterBeginRegistration(vault, old(sessions), caller, r, w)
    {
      if !SameText(caller.sid, r.sid) {
        return Refused(AccessDenied);
      }
      var resolved := w.accountOf(r.username);
      if resolved.None? || !SameText(r.sid, resolved.value.sid) {
        return Refused(NotThisAccount);
      }
      if !w.passwordOk(resolved.value.name, r.password) {
        return Refused(WrongPassword);
      }
      var account, _ := store.FindAccount(r.sid, w.newId);
      if account.Some? && |account.value.credentials| >= MAX_CREDENTIALS {
        return Refused(TooManyCredentials);
      }
      var keyLabel := CheckedLabel(r.keyLabel);
      if keyLabel.None? {
        return Refused(BadLabel);
      }
      var session := RegistrationSession(vault, caller, r.sid, resolved.value.name, keyLabel.value, w);
      var id := PutSession(session, w.now, w.draw);
      if id.Failure? {
        return Refused(OfSession(id.error));
      }
      if w.userId == "" {
        return Refused(NoUserHandle);
      }
      var excludes := CredentialIds(CredentialsOf(account));
      return RegistrationChallenge(id.value, session.challenge, session.rpId, session.origin, w.userId, excludes);
    }

    /** The loops of commit_registration over every credential of every account. */
    method IsIdInUse(accounts: seq<AccountRecord>, id: string) returns (found: bool)
      ensures found <==> IdInUse(accounts, id)
    {
      for i := 0 to |accounts|
        invariant forall k :: 0 <= k < i ==> id !in IdsOf(accounts[k].credentials)
      {
        var cs := accounts[i].credentials;
        for c := 0 to |cs|
          invariant forall k :: 0 <= k < c ==> cs[k].credentialId != id
        {
          if cs[c].credentialId == id {
            assert IdsOf(cs)[c] == id;
            return true;
          }
        }
      }
      return false;
    }

    method CommitRegistration(caller: Caller, r: Request, w: World, ghost v: Vault)
      returns (reply: Reply, ghost fate: SaveFate, ghost trace: seq<Disk>)
      requires r.CommitRegistration? && store.Loaded() == Success(v)
      modifies `sessions, store
      ensures Reached(AfterCommitRegistration(v, old(sessions), caller, r, w, fate, store.valid), reply)
      ensures EndsAt(trace, old(store.Now()), store.Now())
      ensures OneOf(trace, v, AfterCommitRegistration(v, old(sessions), caller, r, w, Commits, store.valid).vault,
                    store.valid)
      ensures store.faults >= old(store.faults)
      ensures store.faults == old(store.faults) ==> fate.Commits?
    {
      fate, trace := Commits, [];
      var taken := TakeSession(r.sessionId, caller, Registration, w.now);
      if taken.Failure? {
        return Refused(OfSession(taken.error)), fate, trace;
      }
      var session := taken.value;
      if r.payload.None? {
        return Refused(MissingField), fate, trace;
      }
      var registration := VerifyRegistration(session.challenge, session.rpId, session.origin,
                                             r.payload.value.attestationObject, r.payload.value.clientDataJson, w.lib);
      if registration.Failure? {
        return Refused(OfCeremony(registration.error)), fate, trace;
      }
      reply, fate, trace := Enroll(session, registration.value, w, v);
    }

    /** The second half of commit_registration: the vault is edited in place. */
    method Enroll(session: Session, registration: RegistrationResult, w: World, ghost v: Vault)
      returns (reply: Reply, ghost fate: SaveFate, ghost trace: seq<Disk>)
      requires store.Loaded() == Success(v)
      modifies store
      ensures
        var account := Enrolled(v, session, registration, w.utcNow);
        if account.Failure? then store.Loaded() == Success(v) && reply == Refused(account.error)
        else
          var (after, ok) := AfterSave(v, Some(Upserted(v, account.value)), fate, store.valid);
          && store.Loaded() == Success(after)
          && reply == if ok then Registered(|account.value.credentials|) else Refused(NotSaved)
      ensures EndsAt(trace, old(store.Now()), store.Now())
      ensures
        var account := Enrolled(v, session, registration, w.utcNow);
        var after :=
          if account.Failure? then v else AfterSave(v, Some(Upserted(v, account.value)), Commits, store.valid).0;
        OneOf(trace, v, after, store.valid)
      ensures store.faults >= old(store.faults)
      ensures store.faults == old(store.faults) ==> fate.Commits?
    {
      fate, trace := Commits, [];
      var current, _ := store.LoadOrCreate(w.newId);
      if current.Failure? {
        return Refused(VaultUnavailable), fate, trace;
      }
      var found := IsIdInUse(current.value.accounts, registration.credentialId);
      if found {
        return Refused(AlreadyRegistered), fate, trace;
      }
      var record := NewRecord(registration, session.keyLabel, w.utcNow);
      var accounts := current.value.accounts;
      var k := FindAccount(accounts, session.targetSid);
      if k == |accounts| {
        accounts := accounts + [AccountRecord(session.targetSid, session.username, false, [])];
      } else {
        accounts := accounts[k := accounts[k].(username := session.username)];
      }
      if |accounts[k].credentials| >= MAX_CREDENTIALS {
        return Refused(TooManyCredentials), fate, trace;
      }
      accounts := accounts[k := accounts[k].(credentials := accounts[k].credentials + [record])];
      EnrolledInPlace(v, session, registration, w.utcNow, accounts);
      var ok;
      ok, fate, trace := Save(current.value.(accounts := accounts), v);
      reply := if ok then Registered(|accounts[k].credentials|) else Refused(NotSaved);
    }

    /** The process is where the specification says. */
    ghost predicate Reached(e: Effect, reply: Reply)
      reads this, store
    {
      store.Loaded() == Success(e.vault) && sessions == e.sessions && reply == e.reply
    }

    method FinishAuth(caller: Caller, r: Request, w: World, ghost v: Vault)
      returns (reply: Reply, ghost fate: SaveFate, ghost trace: seq<Disk>)
      requires r.FinishAuth? && store.Loaded() == Success(v)
      modifies `sessions, store
      ensures Reached(AfterFinishAuth(v, old(sessions), caller, r, w, fate, store.valid), reply)
      ensures EndsAt(trace, old(store.Now()), store.Now())
      ensures OneOf(trace, v, AfterFinishAuth(v, old(sessions), caller, r, w, Commits, store.valid).vault, store.valid)
      ensures store.faults >= old(store.faults)
      ensures store.faults == old(store.faults) ==> fate.Commits?
    {
      fate, trace := Commits, [];
      var session := TakeSession(r.sessionId, caller, Authentication, w.now);
      if session.Failure? {
        return Refused(OfSession(session.error)), fate, trace;
      }
      var error;
      error, fate, trace := VerifySessionAssertion(session.value, r.assertion, w, v);
      reply := if error.Some? then Refused(error.value) else Done;
    }

    /** The tests that begin_remove and remove_with_password begin with. */
    method CheckRemovable(caller: Caller, sid: Sid, username: string, password: string, credentialId: Option<string>,
                          w: World, ghost v: Vault)
      returns (name: Result<string, Error>)
      requires store.Loaded() == Success(v)
      modifies store
      ensures store.Now() == old(store.Now()) && store.faults == old(store.faults)
      ensures name == Removable(v, caller, sid, username, password, credentialId, w)
    {
      if !SameText(caller.sid, sid) {
        return Failure(AccessDenied);
      }
      var resolved := w.accountOf(username);
      if resolved.None? || !SameText(sid, resolved.value.sid) {
        return Failure(NotThisAccount);
      }
      if !w.passwordOk(resolved.value.name, password) {
        return Failure(WrongPassword);
      }
      var account, _ := store.FindAccount(sid, w.newId);
      if account.None? || account.value.credentials == [] {
        return Failure(NoCredentials);
      }
      if account.value.enforced && |account.value.credentials| <= 1 {
        return Failure(LastCredential);
      }
      if credentialId.None? {
        return Failure(MissingField);
      }
      var ids := CredentialIds(account.value.credentials);
      if credentialId.value !in ids {
        return Failure(NotRegistered);
      }
      return Success(resolved.value.name);
    }

    method BeginRemove(caller: Caller, r: Request, vault: Vault, w: World) returns (reply: Reply)
      requires r.BeginRemove? && store.Loaded() == Success(vault)
      modifies `sessions, store
      ensures store.Now() == old(store.Now()) && store.faults == old(store.faults)
      ensures (sessions, reply) == AfterBeginRemove(vault, old(sessions), caller, r, w)
    {
      var name := CheckRemovable(caller, r.sid, r.username, r.password, r.credentialId, w, vault);
      if name.Failure? {
        return Refused(name.error);
      }
      var account, _ := store.FindAccount(r.sid, w.newId);
      reply := Challenge(RemovalSession(vault, caller, r.sid, name.value, r.credentialId.value, w),
                         CredentialsOf(account), w);
    }

    method RemoveWithPassword(caller: Caller, r: Request, w: World, ghost v: Vault)
      returns (reply: Reply, ghost fate: SaveFate, ghost trace: seq<Disk>)
      requires r.RemoveWithPassword? && store.Loaded() == Success(v)
      modifies `sessions, store
      ensures Reached(AfterRemoveWithPassword(v, old(sessions), caller, r, w, fate, store.valid), reply)
      ensures EndsAt(trace, old(store.Now()), store.Now())
      ensures OneOf(trace, v, AfterRemoveWithPassword(v, old(sessions), caller, r, w, Commits, store.valid).vault,
                    store.valid)
      ensures store.faults >= old(store.faults)
      ensures store.faults == old(store.faults) ==> fate.Commits?
    {
      fate, trace := Commits, [];
      var name := CheckRemovable(caller, r.sid, r.username, r.password, r.credentialId, w, v);
      if name.Failure? {
        return Refused(name.error), fate, trace;
      }
      var ok;
      ok, fate, trace := RemoveCredential(r.sid, r.credentialId.value, w.newId, v);
      reply := if ok then Done else Refused(NotSaved);
    }

    /** The two saves of finish_remove. */
    method CountAndRemove(session: Session, assertion: Option<Assertion>, w: World, ghost v: Vault)
      returns (error: Option<Error>, ghost fates: Fates, ghost trace: seq<Disk>)
      requires store.Loaded() == Success(v)
      modifies store
      ensures store.Loaded() == Success(BrokerSteps.CountThenRemove(v, session, assertion, w.lib, fates, store.valid))
      ensures error == RemovalError(v, session, assertion, w.lib, fates, store.valid)
      ensures EndsAt(trace, old(store.Now()), store.Now())
      ensures forall d :: d in trace ==> RemovalCutShort(d, v, session, assertion, w.lib, store.valid)
      ensures store.faults >= old(store.faults)
      ensures store.faults == old(store.faults) ==> NothingFails(fates)
    {
      fates := Fates(Refreshes, Commits, Commits);
      ghost var counter, change, more;
      error, counter, trace := VerifySessionAssertion(session, assertion, w, v);
      FirstSaveCutShort(trace, v, session, assertion, w.lib, store.valid);
      fates := fates.(counter := counter);
      if error.Some? {
        return error, fates, trace;
      }
      ghost var counted := AfterAssertion(v, session, assertion, w.lib, counter, store.valid).0;
      var ok;
      ok, change, more := RemoveCredential(session.targetSid, session.credentialToRemove, w.newId, counted);
      SecondSaveCutShort(more, v, session, assertion, w.lib, counted, store.valid);
      fates, trace := fates.(change := change), trace + more;
      error := if ok then None else Some(NotSaved);
    }

    method FinishRemove(caller: Caller, r: Request, w: World, ghost v: Vault)
      returns (reply: Reply, ghost fates: Fates, ghost trace: seq<Disk>)
      requires r.FinishRemove? && store.Loaded() == Success(v)
      modifies `sessions, store
      ensures Reached(AfterFinishRemove(v, old(sessions), caller, r, w, fates, store.valid), reply)
      ensures EndsAt(trace, old(store.Now()), store.Now())
      ensures forall d :: d in trace ==> CutShort(d, v, old(sessions), caller, r, w, store.valid)
      ensures store.faults >= old(store.faults)
      ensures store.faults == old(store.faults) ==> NothingFails(fates)
    {
      fates, trace := Fates(Refreshes, Commits, Commits), [];
      var session := TakeSession(r.sessionId, caller, RemovalAuthorization, w.now);
      if session.Failure? {
        return Refused(OfSession(session.error)), fates, trace;
      }
      var error;
      error, fates, trace := CountAndRemove(session.value, r.assertion, w, v);
      reply := if error.Some? then Refused(error.value) else Done;
      FinishRemoveEnds(v, old(sessions), caller, r, w, fates, store.valid, session.value);
      FinishRemoveCutShort(trace, v, old(sessions), caller, r, w, store.valid, session.value);
    }

    method SetEnforcement(caller: Caller, r: Request, w: World, ghost v: Vault)
      returns (reply: Reply, ghost fate: SaveFate, ghost trace: seq<Disk>)
      requires r.SetEnforcement? && store.Loaded() == Success(v)
      modifies `sessions, store
      ensures Reached(AfterSetEnforcement(v, old(sessions), caller, r, w, fate, store.valid), reply)
      ensures EndsAt(trace, old(store.Now()), store.Now())
      ensures OneOf(trace, v, AfterSetEnforcement(v, old(sessions), caller, r, w, Commits, store.valid).vault,
                    store.valid)
      ensures store.faults >= old(store.faults)
      ensures store.faults == old(store.faults) ==> fate.Commits?
    {
      fate, trace := Commits, [];
      if !caller.isElevatedAdmin {
        return Refused(NotElevated), fate, trace;
      }
      if !SameText(caller.sid, r.sid) {
        return Refused(AccessDenied), fate, trace;
      }
      var resolved := w.accountOf(r.username);
      if resolved.None? || !SameText(r.sid, resolved.value.sid) {
        return Refused(NotThisAccount), fate, trace;
      }
      if !w.passwordOk(resolved.value.name, r.password) {
        return Refused(WrongPassword), fate, trace;
      }
      if r.enabled.None? {
        return Refused(MissingField), fate, trace;
      }
      if r.enabled.value {
        if w.filterConflict && !r.allowFilterConflict {
          return Refused(FilterConflict), fate, trace;
        }
        if w.filterError {
          return Refused(FilterUnknown), fate, trace;
        }
      }
      var ok;
      ok, fate, trace := SetEnforced(r.sid, r.enabled.value, w.newId, v);
      reply := if ok then Done else Refused(NotSaved);
    }

    /** The operations other than status that leave the vault alone. */
    method Respond(caller: Caller, r: Request, w: World, vault: Vault) returns (reply: Reply)
      requires !r.Status? && store.Loaded() == Success(vault) && InStep(store.Now(), store.Loaded())
      modifies `sessions, store
      ensures store.Now() == old(store.Now()) && store.faults == old(store.faults)
      ensures (sessions, reply) == Answer(vault, old(sessions), caller, r, w)
    {
      match r {
        case BeginAuth(sid) => reply := BeginAuth(caller, sid, vault, w);
        case BeginTest(sid) => reply := BeginTest(caller, sid, vault, w);
        case BeginRegistration(_, _, _, _) => reply := BeginRegistration(caller, r, vault, w);
        case BeginRemove(_, _, _, _) => reply := BeginRemove(caller, r, vault, w);
        case _ => reply := Refused(UnknownOperation);
      }
    }

    /** The operations that change the vault by one save, or not at all. */
    method ChangeOnce(caller: Caller, r: Request, w: World, ghost v: Vault)
      returns (reply: Reply, ghost fates: Fates, ghost trace: seq<Disk>)
      requires store.Loaded() == Success(v)
      requires r.CommitRegistration? || r.RemoveWithPassword? || r.SetEnforcement?
      modifies `sessions, store
      ensures Reached(Serve(v, old(sessions), caller, r, w, fates, store.valid), reply)
      ensures EndsAt(trace, old(store.Now()), store.Now())
      ensures forall d :: d in trace ==> CutShort(d, v, old(sessions), caller, r, w, store.valid)
      ensures store.faults >= old(store.faults)
      ensures store.faults == old(store.faults) ==> NothingFails(fates)
    {
      ghost var fate;
      if r.CommitRegistration? {
        reply, fate, trace := CommitRegistration(caller, r, w, v);
        fates := Fates(Refreshes, Commits, fate);
        ChangeCutShort(trace, v, old(sessions), caller, r, w, store.valid);
      } else {
        reply, fates, trace := ChangeWithPassword(caller, r, w, v);
      }
    }

    method ChangeWithPassword(caller: Caller, r: Request, w: World, ghost v: Vault)
      returns (reply: Reply, ghost fates: Fates, ghost trace: seq<Disk>)
      requires store.Loaded() == Success(v) && (r.RemoveWithPassword? || r.SetEnforcement?)
      modifies `sessions, store
      ensures Reached(Serve(v, old(sessions), caller, r, w, fates, store.valid), reply)
      ensures EndsAt(trace, old(store.Now()), store.Now())
      ensures forall d :: d in trace ==> CutShort(d, v, old(sessions), caller, r, w, store.valid)
      ensures store.faults >= old(store.faults)
      ensures store.faults == old(store.faults) ==> NothingFails(fates)
    {
      ghost var fate;
      if r.RemoveWithPassword? {
        reply, fate, trace := RemoveWithPassword(caller, r, w, v);
      } else {
        reply, fate, trace := SetEnforcement(caller, r, w, v);
      }
      fates := Fates(Refreshes, Commits, fate);
      ChangeCutShort(trace, v, old(sessions), caller, r, w, store.valid);
    }

    /** The operations after a successful refresh. */
    method Dispatch(caller: Caller, r: Request, w: World, ghost v: Vault)
      returns (reply: Reply, ghost fates: Fates, ghost trace: seq<Disk>)
      requires store.Loaded() == Success(v) && InStep(store.Now(), store.Loaded())
      modifies `sessions, store
      ensures Reached(Serve(v, old(sessions), caller, r, w, fates, store.valid), reply)
      ensures EndsAt(trace, old(store.Now()), store.Now())
      ensures forall d :: d in trace ==> CutShort(d, v, old(sessions), caller, r, w, store.valid)
      ensures store.faults >= old(store.faults)
      ensures store.faults == old(store.faults) ==> NothingFails(fates)
    {
      fates, trace := Fates(Refreshes, Commits, Commits), [];
      if r.Status? {
        reply := Status(caller, r.sid, w, v);
        return reply, fates, trace;
      }
      var vault, _ := store.LoadOrCreate(w.newId);
      if vault.Failure? {
        return Refused(VaultUnavailable), fates, trace;
      }
      if r.FinishAuth? {
        ghost var fate;
        reply, fate, trace := FinishAuth(caller, r, w, v);
        fates := fates.(counter := fate);
        AuthCutShort(trace, v, old(sessions), caller, r, w, store.valid);
      } else if r.FinishRemove? {
        reply, fates, trace := FinishRemove(caller, r, w, v);
      } else if r.CommitRegistration? || r.RemoveWithPassword? || r.SetEnforcement? {
        reply, fates, trace := ChangeOnce(caller, r, w, v);
      } else {
        reply := Respond(caller, r, w, vault.value);
      }
    }

    /** The refresh with which every request begins, and Run, which does not start
        serving without it. */
    method Refresh(w: World) returns (ok: bool, ghost fate: RefreshFate, ghost trace: seq<Disk>)
      modifies store
      ensures (store.Loaded(), ok) == AfterRefresh(old(store.Loaded()), w, fate, store.valid)
      ensures ok ==> InStep(store.Now(), store.Loaded())
      ensures EndsAt(trace, old(store.Now()), store.Now())
      ensures forall d :: d in trace ==> RefreshCutShort(d, old(store.Loaded()), w, store.valid)
      ensures store.faults >= old(store.faults)
      ensures store.faults == old(store.faults) ==> fate.Refreshes?
    {
      LoadedIsValid(store.Now(), store.valid);
      ok, trace := store.RefreshLocalAccounts(w.newId, w.resolveSid);
      fate := FateOfRefresh(old(store.Loaded()), w, trace, store.Now(), ok, store.faults == old(store.faults),
                            store.valid);
      CrashedRefresh(old(store.Loaded()), w, trace, store.valid);
    }

    /** BrokerService.cpp, Handle. A crash in any state that the store passes
        through is a Crash event of module BrokerRuns. */
    method Handle(caller: Caller, r: Request, w: World)
      returns (reply: Reply, ghost fates: Fates, ghost trace: seq<Disk>)
      modifies `sessions, store
      ensures (Now(), reply) == Handled(old(Now()), caller, r, w, fates, store.valid)
      ensures EndsAt(trace, old(store.Now()), store.Now())
      ensures forall d :: d in trace ==> Crashes(d, old(Now()), caller, r, w, store.valid)
      ensures store.faults >= old(store.faults)
      ensures store.faults == old(store.faults) ==> fates == Fates(Refreshes, Commits, Commits)
    {
      var ok;
      ghost var refresh, served, more;
      ok, refresh, trace := Refresh(w);
      RefreshCrashes(trace, old(Now()), caller, r, w, store.valid);
      if !ok {
        return Refused(RefreshFailed), Fates(refresh, Commits, Commits), trace;
      }
      reply, served, more := Dispatch(caller, r, w, store.Loaded().value);
      ServeCrashes(more, old(Now()), caller, r, w, refresh, store.valid);
      fates, trace := served.(refresh := refresh), trace + more;
      SameButRefresh(old(Now()), caller, r, w, served, refresh, store.valid);
    }

    /** BrokerService.cpp, Run: refresh, then answer whatever requests come. What
        the process does is a run in the sense of module BrokerRuns, and so is what
        it has done when it crashes, in whatever state the store passes through. */
    method Run(start: World, incoming: seq<(Caller, Request, World)>)
      returns (replies: seq<Reply>, ghost run: BrokerRuns.Run, ghost trace: seq<Disk>)
      requires sessions == map[] && BrokerSteps.Trusted(store.valid)
      modifies `sessions, store
      ensures BrokerRuns.IsRun(run, store.valid)
      ensures run.states[0] == old(Now()) && run.states[|run.events|] == Now()
      ensures |run.events| == |replies| + 1 && run.events[0].Restart? && run.events[0].world == start
      ensures |replies| ==
        if AfterRefresh(old(store.Loaded()), start, run.events[0].fate, store.valid).1 then |incoming| else 0
      ensures AllAnswered(run, incoming, replies, store.valid)
      ensures EndsAt(trace, old(store.Now()), store.Now())
      ensures forall d :: d in trace ==> IsCrashedRun(d, old(Now()), store.valid)
      ensures store.faults == old(store.faults) ==> forall e :: e in run.events ==> HasNoFailure(e)
    {
      replies := [];
      ghost var before := Now();
      LoadedIsValid(store.Now(), store.valid);
      var ok;
      ghost var fate;
      ok, fate, trace := Refresh(start);
      StartCrashes(trace, before, start, store.valid);
      run := BrokerRuns.Run([before, Now()], [BrokerRuns.Restart(start, fate)]);
      assert BrokerRuns.Follows(run, store.valid, 0);
      if !ok {
        return [], run, trace;
      }
      for i := 0 to |incoming|
        invariant BrokerRuns.IsRun(run, store.valid)
        invariant |run.events| == i + 1 && |replies| == i && run.events[0] == BrokerRuns.Restart(start, fate)
        invariant run.states[0] == before && run.states[|run.events|] == Now()
        invariant AllAnswered(run, incoming, replies, store.valid)
        invariant EndsAt(trace, old(store.Now()), store.Now())
        invariant forall d :: d in trace ==> IsCrashedRun(d, before, store.valid)
        invariant store.faults >= old(store.faults)
        invariant store.faults == old(store.faults) ==> forall e :: e in run.events ==> HasNoFailure(e)
      {
        var (caller, request, w) := incoming[i];
        var reply;
        ghost var fates, more;
        reply, fates, more := Handle(caller, request, w);
        RunCrashes(more, run, caller, request, w, store.valid);
        AnswersGoOn(run, incoming, replies, fates, Now(), reply, store.valid);
        replies, run := replies + [reply], Extended(run, BrokerRuns.Call(caller, request, w, fates), Now());
        trace := trace + more;
      }
    }
  }

  /** The fates of the saves when no step of the store fails. */
  predicate NothingFails(fates: Fates) {
    fates.counter.Commits? && fates.change.Commits?
  }

  predicate HasNoFailure(e: BrokerRuns.Event) {
    match e
    case Call(_, _, _, fates) => fates == Fates(Refreshes, Commits, Commits)
    case Crash(_, _, _, _) => false
    case Restart(_, fate) => fate.Refreshes?
  }

  // ----- Crashes -----

  /** A trace leads from one disk state to another. */
  ghost predicate EndsAt(trace: seq<Disk>, before: Disk, after: Disk) {
    if trace == [] then after == before else trace[|trace| - 1] == after
  }

  function SaveOutcome(v: Vault, changed: Option<Vault>, fate: SaveFate, valid: Vault -> bool)
    : (Result<Vault, nat>, bool)
  {
    var (after, ok) := AfterSave(v, changed, fate, valid);
    (Success(after), ok)
  }

  /** In every state one of two vaults loads. */
  ghost predicate OneOf(trace: seq<Disk>, a: Vault, b: Vault, valid: Vault -> bool) {
    forall d :: d in trace ==> LoadDisk(d, valid) == Success(a) || LoadDisk(d, valid) == Success(b)
  }

  /** The disk is one that serving the request leaves behind with some fates. */
  ghost predicate CutShort(d: Disk, v: Vault, t: Table, caller: Caller, r: Request, w: World, valid: Vault -> bool) {
    exists fates :: LoadDisk(d, valid) == Success(Serve(v, t, caller, r, w, fates, valid).vault)
  }

  ghost predicate RefreshCutShort(d: Disk, loaded: Result<Vault, nat>, w: World, valid: Vault -> bool) {
    exists fate :: AfterRefresh(loaded, w, fate, valid) == (LoadDisk(d, valid), false)
  }

  /** The disk is one that a crash of the request leaves behind. */
  ghost predicate Crashes(d: Disk, s: State, caller: Caller, r: Request, w: World, valid: Vault -> bool) {
    exists fates :: BrokerRuns.Next(s, BrokerRuns.Crash(caller, r, w, fates), valid) == State(LoadDisk(d, valid), map[])
  }

  /** Some run from the state ends with the disk and without a process. */
  ghost predicate IsCrashedRun(d: Disk, s: State, valid: Vault -> bool) {
    exists crashed: BrokerRuns.Run ::
      && BrokerRuns.IsRun(crashed, valid) && crashed.states[0] == s
      && crashed.states[|crashed.events|] == State(LoadDisk(d, valid), map[])
  }

  /** A crash in the middle of a save is one of its fates as well. */
  lemma CrashIsAFate(v: Vault, changed: Option<Vault>, trace: seq<Disk>, valid: Vault -> bool)
    requires Through(trace, Success(v), Some(v), changed, valid)
    ensures OneOf(trace, v, AfterSave(v, changed, Commits, valid).0, valid)
  {
    forall d | d in trace
      ensures LoadDisk(d, valid) == Success(v) || LoadDisk(d, valid) == Success(AfterSave(v, changed, Commits, valid).0)
    {
      LoadedIsValid(d, valid);
    }
  }

  lemma AuthCutShort(trace: seq<Disk>, v: Vault, t: Table, caller: Caller, r: Request, w: World, valid: Vault -> bool)
    requires r.FinishAuth? && OneOf(trace, v, AfterFinishAuth(v, t, caller, r, w, Commits, valid).vault, valid)
    ensures forall d :: d in trace ==> CutShort(d, v, t, caller, r, w, valid)
  {
    forall d | d in trace
      ensures CutShort(d, v, t, caller, r, w, valid)
    {
      var fate := if LoadDisk(d, valid) == Success(v) then Undone else Commits;
      assert LoadDisk(d, valid) == Success(Serve(v, t, caller, r, w, Fates(Refreshes, fate, Undone), valid).vault);
    }
  }

  lemma ChangeCutShort(trace: seq<Disk>, v: Vault, t: Table, caller: Caller, r: Request, w: World, valid: Vault -> bool)
    requires r.CommitRegistration? || r.RemoveWithPassword? || r.SetEnforcement?
    requires OneOf(trace, v, Serve(v, t, caller, r, w, Fates(Refreshes, Undone, Commits), valid).vault, valid)
    ensures forall d :: d in trace ==> CutShort(d, v, t, caller, r, w, valid)
  {
    forall d | d in trace
      ensures CutShort(d, v, t, caller, r, w, valid)
    {
      var fate := if LoadDisk(d, valid) == Success(v) then Undone else Commits;
      assert LoadDisk(d, valid) == Success(Serve(v, t, caller, r, w, Fates(Refreshes, Undone, fate), valid).vault);
    }
  }

  function RemovalError(v: Vault, session: Session, assertion: Option<Assertion>, lib: Library, fates: Fates,
                        valid: Vault -> bool): Option<Error> {
    var (counted, error) := AfterAssertion(v, session, assertion, lib, fates.counter, valid);
    var changed := WithoutCredential(counted, session.targetSid, session.credentialToRemove);
    if error.Some? || AfterSave(counted, changed, fates.change, valid).1 then error else Some(NotSaved)
  }

  ghost predicate RemovalCutShort(d: Disk, v: Vault, session: Session, assertion: Option<Assertion>, lib: Library,
                                  valid: Vault -> bool) {
    exists fates :: LoadDisk(d, valid) == Success(BrokerSteps.CountThenRemove(v, session, assertion, lib, fates, valid))
  }

  lemma FinishRemoveEnds(v: Vault, t: Table, caller: Caller, r: Request, w: World, fates: Fates, valid: Vault -> bool,
                         session: Session)
    requires r.FinishRemove? && Take(t, r.sessionId, caller, RemovalAuthorization, w.now).1 == Success(session)
    ensures
      var e, error := AfterFinishRemove(v, t, caller, r, w, fates, valid),
        RemovalError(v, session, r.assertion, w.lib, fates, valid);
      && e.vault == BrokerSteps.CountThenRemove(v, session, r.assertion, w.lib, fates, valid)
      && e.reply == (if error.Some? then Refused(error.value) else Done)
      && e.sessions == Take(t, r.sessionId, caller, RemovalAuthorization, w.now).0
  {
  }

  lemma CountEnds(v: Vault, session: Session, assertion: Option<Assertion>, lib: Library, fate: SaveFate,
                  valid: Vault -> bool)
    ensures BrokerSteps.CountThenRemove(v, session, assertion, lib, Fates(Refreshes, fate, Undone), valid)
      == AfterAssertion(v, session, assertion, lib, fate, valid).0
    ensures AfterAssertion(v, session, assertion, lib, Undone, valid).0 == v
  {
  }

  lemma FirstSaveCutShort(trace: seq<Disk>, v: Vault, session: Session, assertion: Option<Assertion>, lib: Library,
                          valid: Vault -> bool)
    requires OneOf(trace, v, AfterAssertion(v, session, assertion, lib, Commits, valid).0, valid)
    ensures forall d :: d in trace ==> RemovalCutShort(d, v, session, assertion, lib, valid)
  {
    forall d | d in trace
      ensures RemovalCutShort(d, v, session, assertion, lib, valid)
    {
      var fate := if LoadDisk(d, valid) == Success(v) then Undone else Commits;
      CountEnds(v, session, assertion, lib, fate, valid);
    }
  }

  lemma RemovalEnds(v: Vault, session: Session, assertion: Option<Assertion>, lib: Library, counted: Vault,
                    fate: SaveFate, valid: Vault -> bool)
    requires AfterAssertion(v, session, assertion, lib, Commits, valid) == (counted, None)
    ensures BrokerSteps.CountThenRemove(v, session, assertion, lib, Fates(Refreshes, Commits, fate), valid)
      == AfterSave(counted, WithoutCredential(counted, session.targetSid, session.credentialToRemove), fate, valid).0
  {
  }

  lemma SecondSaveCutShort(trace: seq<Disk>, v: Vault, session: Session, assertion: Option<Assertion>, lib: Library,
                           counted: Vault, valid: Vault -> bool)
    requires AfterAssertion(v, session, assertion, lib, Commits, valid) == (counted, None)
    requires
      var changed := WithoutCredential(counted, session.targetSid, session.credentialToRemove);
      OneOf(trace, counted, AfterSave(counted, changed, Commits, valid).0, valid)
    ensures forall d :: d in trace ==> RemovalCutShort(d, v, session, assertion, lib, valid)
  {
    forall d | d in trace
      ensures RemovalCutShort(d, v, session, assertion, lib, valid)
    {
      var fate := if LoadDisk(d, valid) == Success(counted) then Undone else Commits;
      RemovalEnds(v, session, assertion, lib, counted, fate, valid);
    }
  }

  lemma FinishRemoveServes(v: Vault, t: Table, caller: Caller, r: Request, w: World, fates: Fates, valid: Vault -> bool,
                           session: Session)
    requires r.FinishRemove? && Take(t, r.sessionId, caller, RemovalAuthorization, w.now).1 == Success(session)
    ensures Serve(v, t, caller, r, w, fates, valid).vault
      == BrokerSteps.CountThenRemove(v, session, r.assertion, w.lib, fates, valid)
  {
  }

  lemma FinishRemoveCutShort(trace: seq<Disk>, v: Vault, t: Table, caller: Caller, r: Request, w: World,
                             valid: Vault -> bool, session: Session)
    requires r.FinishRemove? && Take(t, r.sessionId, caller, RemovalAuthorization, w.now).1 == Success(session)
    requires forall d :: d in trace ==> RemovalCutShort(d, v, session, r.assertion, w.lib, valid)
    ensures forall d :: d in trace ==> CutShort(d, v, t, caller, r, w, valid)
  {
    forall d | d in trace
      ensures CutShort(d, v, t, caller, r, w, valid)
    {
      var fates :| LoadDisk(d, valid)
        == Success(BrokerSteps.CountThenRemove(v, session, r.assertion, w.lib, fates, valid));
      FinishRemoveServes(v, t, caller, r, w, fates, valid, session);
    }
  }

  lemma CrashedRefresh(loaded: Result<Vault, nat>, w: World, trace: seq<Disk>, valid: Vault -> bool)
    requires loaded.Success? ==> valid(loaded.value)
    requires Through(trace, loaded, BaseOf(loaded, w.newId), Changed(BaseOf(loaded, w.newId), Refreshing(w.resolveSid)),
                     valid)
    ensures forall d :: d in trace ==> RefreshCutShort(d, loaded, w, valid)
  {
    forall d | d in trace
      ensures RefreshCutShort(d, loaded, w, valid)
    {
      var fate := FateOfRefresh(loaded, w, [d], d, false, false, valid);
      assert AfterRefresh(loaded, w, fate, valid) == (LoadDisk(d, valid), false);
    }
  }

  lemma RefreshCrashes(trace: seq<Disk>, s: State, caller: Caller, r: Request, w: World, valid: Vault -> bool)
    requires forall d :: d in trace ==> RefreshCutShort(d, s.loaded, w, valid)
    ensures forall d :: d in trace ==> Crashes(d, s, caller, r, w, valid)
  {
    forall d | d in trace
      ensures Crashes(d, s, caller, r, w, valid)
    {
      var fate :| AfterRefresh(s.loaded, w, fate, valid) == (LoadDisk(d, valid), false);
      var e := BrokerRuns.Crash(caller, r, w, Fates(fate, Undone, Undone));
      assert BrokerRuns.Next(s, e, valid) == State(LoadDisk(d, valid), map[]);
    }
  }

  lemma ServeCrashes(trace: seq<Disk>, s: State, caller: Caller, r: Request, w: World, refresh: RefreshFate,
                     valid: Vault -> bool)
    requires AfterRefresh(s.loaded, w, refresh, valid).1
    requires
      var v := AfterRefresh(s.loaded, w, refresh, valid).0.value;
      forall d :: d in trace ==> CutShort(d, v, s.sessions, caller, r, w, valid)
    ensures forall d :: d in trace ==> Crashes(d, s, caller, r, w, valid)
  {
    var v := AfterRefresh(s.loaded, w, refresh, valid).0.value;
    forall d | d in trace
      ensures Crashes(d, s, caller, r, w, valid)
    {
      var served :| LoadDisk(d, valid) == Success(Serve(v, s.sessions, caller, r, w, served, valid).vault);
      SameButRefresh(s, caller, r, w, served, refresh, valid);
      var e := BrokerRuns.Crash(caller, r, w, served.(refresh := refresh));
      assert BrokerRuns.Next(s, e, valid) == State(LoadDisk(d, valid), map[]);
    }
  }

  lemma StartCrashes(trace: seq<Disk>, s: State, w: World, valid: Vault -> bool)
    requires BrokerSteps.Trusted(valid) && BrokerSteps.LoadsValid(s.loaded, valid) && s.sessions == map[]
    requires forall d :: d in trace ==> RefreshCutShort(d, s.loaded, w, valid)
    ensures forall d :: d in trace ==> IsCrashedRun(d, s, valid)
  {
    forall d | d in trace
      ensures IsCrashedRun(d, s, valid)
    {
      var fate :| AfterRefresh(s.loaded, w, fate, valid) == (LoadDisk(d, valid), false);
      var crashed := BrokerRuns.Run([s, State(LoadDisk(d, valid), map[])], [BrokerRuns.Restart(w, fate)]);
      assert BrokerRuns.Follows(crashed, valid, 0);
    }
  }

  lemma RunCrashes(trace: seq<Disk>, run: BrokerRuns.Run, caller: Caller, r: Request, w: World, valid: Vault -> bool)
    requires BrokerRuns.IsRun(run, valid)
    requires forall d :: d in trace ==> Crashes(d, run.states[|run.events|], caller, r, w, valid)
    ensures forall d :: d in trace ==> IsCrashedRun(d, run.states[0], valid)
  {
    forall d | d in trace
      ensures IsCrashedRun(d, run.states[0], valid)
    {
      var s := run.states[|run.events|];
      var fates :| BrokerRuns.Next(s, BrokerRuns.Crash(caller, r, w, fates), valid) == State(LoadDisk(d, valid), map[]);
      var e := BrokerRuns.Crash(caller, r, w, fates);
      RunGoesOn(run, e, State(LoadDisk(d, valid), map[]), valid);
      var crashed := Extended(run, e, State(LoadDisk(d, valid), map[]));
      assert crashed.states[0] == run.states[0] && crashed.states[|crashed.events|] == State(LoadDisk(d, valid), map[]);
    }
  }

  // ----- Runs -----

  /** Step `k` of the run handles the request and gives the reply. */
  ghost predicate Answers(run: BrokerRuns.Run, k: nat, incoming: (Caller, Request, World), reply: Reply,
                          valid: Vault -> bool) {
    && k < |run.events| && k < |run.states| && run.events[k].Call?
    && (run.events[k].caller, run.events[k].request, run.events[k].world) == incoming
    && Handled(run.states[k], incoming.0, incoming.1, incoming.2, run.events[k].fates, valid).1 == reply
  }

  ghost predicate AllAnswered(run: BrokerRuns.Run, incoming: seq<(Caller, Request, World)>, replies: seq<Reply>,
                              valid: Vault -> bool) {
    |replies| <= |incoming| && forall k :: 0 <= k < |replies| ==> Answers(run, k + 1, incoming[k], replies[k], valid)
  }

  lemma AnswersGoOn(run: BrokerRuns.Run, incoming: seq<(Caller, Request, World)>, replies: seq<Reply>, fates: Fates,
                    s: State, reply: Reply, valid: Vault -> bool)
    requires BrokerRuns.IsRun(run, valid) && |run.events| == |replies| + 1 && |replies| < |incoming|
    requires AllAnswered(run, incoming, replies, valid)
    requires
      var (caller, request, w) := incoming[|replies|];
      Handled(run.states[|run.events|], caller, request, w, fates, valid) == (s, reply)
    ensures
      var (caller, request, w) := incoming[|replies|];
      var longer := Extended(run, BrokerRuns.Call(caller, request, w, fates), s);
      BrokerRuns.IsRun(longer, valid) && AllAnswered(longer, incoming, replies + [reply], valid)
  {
    var (caller, request, w) := incoming[|replies|];
    RunGoesOn(run, BrokerRuns.Call(caller, request, w, fates), s, valid);
    var longer := Extended(run, BrokerRuns.Call(caller, request, w, fates), s);
    forall k | 0 <= k < |replies|
      ensures Answers(longer, k + 1, incoming[k], (replies + [reply])[k], valid)
    {
      assert Answers(run, k + 1, incoming[k], replies[k], valid);
    }
  }

  ghost function Extended(run: BrokerRuns.Run, e: BrokerRuns.Event, s: State): BrokerRuns.Run {
    BrokerRuns.Run(run.states + [s], run.events + [e])
  }

  lemma RunGoesOn(run: BrokerRuns.Run, e: BrokerRuns.Event, s: State, valid: Vault -> bool)
    requires BrokerRuns.IsRun(run, valid) && s == BrokerRuns.Next(run.states[|run.events|], e, valid)
    ensures BrokerRuns.IsRun(Extended(run, e, s), valid)
  {
    var longer := Extended(run, e, s);
    forall k: nat | k < |longer.events|
      ensures BrokerRuns.Follows(longer, valid, k)
    {
      if k < |run.events| {
        assert BrokerRuns.Follows(run, valid, k);
      }
    }
  }

  /** Serving does not look at how the refresh ended. */
  lemma SameButRefresh(s: State, caller: Caller, r: Request, w: World, served: Fates, refresh: RefreshFate,
                       valid: Vault -> bool)
    requires AfterRefresh(s.loaded, w, refresh, valid).1
    ensures
      var e := Serve(AfterRefresh(s.loaded, w, refresh, valid).0.value, s.sessions, caller, r, w, served, valid);
      Handled(s, caller, r, w, served.(refresh := refresh), valid) == (State(Success(e.vault), e.sessions), e.reply)
  {
  }

  lemma FateOfRefresh(loaded: Result<Vault, nat>, w: World, trace: seq<Disk>, after: Disk, ok: bool, clean: bool,
                      valid: Vault -> bool)
    returns (fate: RefreshFate)
    requires loaded.Success? ==> valid(loaded.value)
    requires Through(trace, loaded, BaseOf(loaded, w.newId), Changed(BaseOf(loaded, w.newId), Refreshing(w.resolveSid)),
                     valid)
    requires if trace == [] then LoadDisk(after, valid) == loaded else trace[|trace| - 1] == after
    requires
      var changed := Changed(BaseOf(loaded, w.newId), Refreshing(w.resolveSid));
      ok ==> changed.Some? && LoadDisk(after, valid) == Success(changed.value)
    requires
      var base := BaseOf(loaded, w.newId);
      var changed := Changed(base, Refreshing(w.resolveSid));
      clean ==> (ok <==> base.Some? && valid(base.value) && changed.Some? && valid(changed.value))
    ensures clean ==> fate.Refreshes?
    ensures (LoadDisk(after, valid), ok) == AfterRefresh(loaded, w, fate, valid)
  {
    LoadedIsValid(after, valid);
    assert trace != [] ==> after in trace;
    var base := BaseOf(loaded, w.newId);
    assert loaded.Failure? && base.Some? ==> Changed(base, Refreshing(w.resolveSid)) == base;
    fate := if ok || clean then Refreshes
            else if LoadDisk(after, valid) == loaded then StaysPut
            else if LoadDisk(after, valid) == Success(base.value) then LeavesFresh
            else KeepsRefreshed;
  }

  /** The vault as commit_registration edits it in place is the upserted one. */
  lemma EnrolledInPlace(v: Vault, session: Session, r: RegistrationResult, utcNow: string, accounts: seq<AccountRecord>)
    requires Enrolled(v, session, r, utcNow).Success?
    requires
      var k, a := FindAccount(v.accounts, session.targetSid), Enrolled(v, session, r, utcNow).value;
      accounts == if k < |v.accounts| then v.accounts[k := a] else v.accounts + [a]
    ensures Upserted(v, Enrolled(v, session, r, utcNow).value) == v.(accounts := accounts)
  {
    SameMatch(v.accounts, session.targetSid, Enrolled(v, session, r, utcNow).value.sid);
  }

  lemma OneLessPending(owned: set<string>, pending: set<string>, id: string)
    requires id in pending
    ensures |owned - (pending - {id})| == |owned - pending| + if id in owned then 1 else 0
  {
    assert owned - (pending - {id}) == (owned - pending) + if id in owned then {id} else {};
  }

  lemma LoadedIsValid(d: Disk, valid: Vault -> bool)
    ensures LoadDisk(d, valid).Success? ==> valid(LoadDisk(d, valid).value)
  {
  }

  /** The outcome of a change is one of the three the specification knows. */
  lemma FateOfChange(v: Vault, changed: Option<Vault>, trace: seq<Disk>, after: Disk, ok: bool, clean: bool,
                     valid: Vault -> bool)
    returns (fate: SaveFate)
    requires Through(trace, Success(v), Some(v), changed, valid)
    requires trace == [] ==> LoadDisk(after, valid) == Success(v)
    requires trace != [] ==> trace[|trace| - 1] == after
    requires ok ==> changed.Some? && LoadDisk(after, valid) == Success(changed.value)
    requires !ok && (changed.None? || AnyEnforced(changed.value.accounts)) ==> LoadDisk(after, valid) == Success(v)
    requires clean ==> (ok <==> changed.Some? && valid(changed.value))
    ensures clean ==> fate.Commits?
    ensures LoadDisk(after, valid) == Success(AfterSave(v, changed, fate, valid).0)
      && ok == AfterSave(v, changed, fate, valid).1
  {
    LoadedIsValid(after, valid);
    assert trace != [] ==> after in trace;
    fate := if ok || clean then Commits else if LoadDisk(after, valid) == Success(v) then Undone else Kept;
  }
}
