/** Exactly which requests the Broker grants when no step of its store fails: for
    each operation the condition on the caller, the vault, the session table and
    the answers of the world. */
module BrokerDecisions {
  import opened Basics
  import opened Broker
  import opened BrokerInvariants
  import opened BrokerSteps
  import opened CredentialStore
  import opened FidoVerifier
  import opened Sessions
  import opened VaultChanges
  import opened Vaults
  import Base64
  import SignInPolicy

  const FAULTLESS := Fates(Refreshes, Commits, Commits)

  function ReplyTo(v: Vault, t: Table, caller: Caller, r: Request, w: World, sidOk: Sid -> bool): Reply {
    Serve(v, t, caller, r, w, FAULTLESS, ValidFor(sidOk)).reply
  }

  // ----- The conditions -----

  /** The caller may authenticate the account. */
  predicate MayAsk(caller: Caller, sid: Sid) {
    caller.isSystem || SameText(caller.sid, sid)
  }

  /** There is a challenge, and the session fits beside those still alive. */
  predicate HasRoom(t: Table, caller: Caller, w: World) {
    && w.challenge != ""
    && |set id | id in t && w.now < t[id].expiresAt| < 256
    && |set id | id in t && w.now < t[id].expiresAt && SameText(t[id].callerSid, caller.sid)| < 32
    && (exists k: nat :: k < 4 && Drawn(t, w, k))
  }

  /** The draw yields an identifier that no living session has. */
  predicate Drawn(t: Table, w: World, k: nat) {
    w.draw(k) != "" && !(w.draw(k) in t && w.now < t[w.draw(k)].expiresAt)
  }

  /** The session is alive, of this kind, and the caller's own. */
  predicate MayUse(t: Table, id: string, caller: Caller, kind: Kind, now: int) {
    && id in t && now < t[id].expiresAt && t[id].kind == kind
    && (caller.isSystem || SameText(caller.sid, t[id].callerSid))
  }

  predicate Holds(v: Vault, sid: Sid, id: string) {
    exists c :: c in CredentialsOf(AccountOf(v, sid)) && c.credentialId == id
  }

  /** The account has the credential, and need not keep it. */
  predicate CanLose(v: Vault, sid: Sid, id: string) {
    && Holds(v, sid, id)
    && (SignInPolicy.EnforcedIn(v, sid) ==> |CredentialsOf(AccountOf(v, sid))| >= 2)
  }

  /** A credential of the account has signed the challenge of the session. */
  ghost predicate IsAsserted(v: Vault, session: Session, assertion: Option<Assertion>, lib: Library) {
    && assertion.Some?
    && exists c, counter ::
         && c in CredentialsOf(AccountOf(v, session.targetSid))
         && AssertionHolds(c, session.challenge, session.rpId, session.origin, assertion.value, lib, counter)
  }

  /** No account holds the identifier. */
  predicate IsUnused(v: Vault, id: string) {
    forall i, k :: 0 <= i < |v.accounts| && 0 <= k < |v.accounts[i].credentials| ==>
      v.accounts[i].credentials[k].credentialId != id
  }

  /** The ceremony of the session holds, and its key can be stored beside those of
      the account. */
  ghost predicate CanEnrol(v: Vault, session: Session, payload: Option<Payload>, w: World) {
    payload.Some? && exists result ::
      && RegistrationHolds(session.challenge, session.rpId, session.origin, payload.value.attestationObject,
                           payload.value.clientDataJson, w.lib, result)
      && IsUnused(v, result.credentialId) && |CredentialsOf(AccountOf(v, session.targetSid))| < 64
      && |Base64.UrlDecode(result.cosePublicKey)| <= 1024
  }

  // ----- Sessions -----

  lemma PrunedSizes(t: Table, caller: Caller, now: int)
    ensures Pruned(t, now).Keys == set id | id in t && now < t[id].expiresAt
    ensures OwnedBy(Pruned(t, now), caller.sid)
      == set id | id in t && now < t[id].expiresAt && SameText(t[id].callerSid, caller.sid)
  {
  }

  lemma RoomIff(t: Table, caller: Caller, session: Session, w: World)
    requires session.callerSid == caller.sid && session.challenge == w.challenge
    requires session.rpId != "" && session.origin != ""
    ensures Put(t, session, w.now, w.draw).1.Success? <==> HasRoom(t, caller, w)
  {
    PutSucceedsIff(t, session, w.now, w.draw);
    PrunedSizes(t, caller, w.now);
    var kept := Pruned(t, w.now);
    assert |kept| == |kept.Keys|;
    forall k: nat
      ensures Usable(kept, w.draw(k)) == Drawn(t, w, k)
    {
    }
  }

  lemma RpIsNamed(v: Vault, sidOk: Sid -> bool)
    requires ValidVault(v, sidOk)
    ensures v.rpId != "" && OriginOf(v) != ""
  {
    assert |v.rpId| > 0;
  }

  lemma UseIff(t: Table, id: string, caller: Caller, kind: Kind, now: int)
    requires WithinLimits(t)
    ensures Take(t, id, caller, kind, now).1.Success? <==> MayUse(t, id, caller, kind, now)
    ensures MayUse(t, id, caller, kind, now) ==> Take(t, id, caller, kind, now).1 == Success(t[id])
  {
    TakeConsumes(t, id, caller, kind, now);
  }

  // ----- Requests that leave the vault alone -----

  /** Only SYSTEM, elevated administrators and the account itself see its keys. */
  lemma StatusIff(v: Vault, t: Table, caller: Caller, sid: Sid, w: World, sidOk: Sid -> bool)
    ensures
      var reply := ReplyTo(v, t, caller, Status(sid), w, sidOk);
      reply == if MayAsk(caller, sid) || caller.isElevatedAdmin then AccountStatus(AccountOf(v, sid))
               else Refused(AccessDenied)
  {
  }

  lemma BeginAuthIff(v: Vault, t: Table, caller: Caller, sid: Sid, w: World, sidOk: Sid -> bool)
    requires ValidVault(v, sidOk)
    ensures
      var reply := ReplyTo(v, t, caller, BeginAuth(sid), w, sidOk);
      && (reply == NotEnforced <==> MayAsk(caller, sid) && !SignInPolicy.EnforcedIn(v, sid))
      && (reply.Challenge? <==> MayAsk(caller, sid) && SignInPolicy.EnforcedIn(v, sid) && HasRoom(t, caller, w))
  {
    IsVaultValidIsTrusted(sidOk);
    assert ValidFor(sidOk)(v);
    RpIsNamed(v, sidOk);
    RoomIff(t, caller, NewSession(Authentication, caller, sid, v, w), w);
    if MayAsk(caller, sid) { BeginAuthIsDecided(v, t, caller, sid, w); }
  }

  lemma BeginTestIff(v: Vault, t: Table, caller: Caller, sid: Sid, w: World, sidOk: Sid -> bool)
    requires ValidVault(v, sidOk)
    ensures ReplyTo(v, t, caller, BeginTest(sid), w, sidOk).Challenge?
      <==> MayAsk(caller, sid) && CredentialsOf(AccountOf(v, sid)) != [] && HasRoom(t, caller, w)
  {
    RpIsNamed(v, sidOk);
    RoomIff(t, caller, NewSession(Authentication, caller, sid, v, w), w);
  }

  /** A label of 1 to 128 characters without control characters; none stands for the
      default. */
  predicate LabelFits(requested: Option<string>) {
    requested.Some? ==>
      |requested.value| <= 128 && forall i :: 0 <= i < |requested.value| ==> ' ' <= requested.value[i] != '\U{7F}'
  }

  lemma CheckedLabelIff(requested: Option<string>)
    ensures CheckedLabel(requested).Some? <==> LabelFits(requested)
    ensures CheckedLabel(requested).Some? ==>
      CheckedLabel(requested).value
      == if requested.None? || requested.value == "" then "Security key" else requested.value
  {
    assert Printable("Security key");
  }

  lemma BeginRegistrationIff(v: Vault, t: Table, caller: Caller, r: Request, w: World, sidOk: Sid -> bool)
    requires ValidVault(v, sidOk) && r.BeginRegistration?
    ensures ReplyTo(v, t, caller, r, w, sidOk).RegistrationChallenge?
      <==> && KnowsPassword(caller, r.sid, r.username, r.password, w) && LabelFits(r.keyLabel)
           && |CredentialsOf(AccountOf(v, r.sid))| < 64 && HasRoom(t, caller, w) && w.userId != ""
  {
    RpIsNamed(v, sidOk);
    CheckedLabelIff(r.keyLabel);
    if KnowsPassword(caller, r.sid, r.username, r.password, w) && LabelFits(r.keyLabel) {
      var name := w.accountOf(r.username).value.name;
      AuthenticatedIff(caller, r.sid, r.username, r.password, w, name);
      RoomIff(t, caller, RegistrationSession(v, caller, r.sid, name, CheckedLabel(r.keyLabel).value, w), w);
    }
  }

  lemma HoldsIff(v: Vault, sid: Sid, id: string)
    ensures Holds(v, sid, id) <==> id in IdsOf(CredentialsOf(AccountOf(v, sid)))
  {
    var cs := CredentialsOf(AccountOf(v, sid));
    if id in IdsOf(cs) {
      var k :| 0 <= k < |cs| && IdsOf(cs)[k] == id;
      assert cs[k] in cs;
    }
  }

  lemma RemovableIff(v: Vault, caller: Caller, sid: Sid, username: string, password: string, id: Option<string>,
                     w: World)
    ensures Removable(v, caller, sid, username, password, id, w).Success?
      <==> KnowsPassword(caller, sid, username, password, w) && id.Some? && CanLose(v, sid, id.value)
    ensures Removable(v, caller, sid, username, password, id, w).Success? ==>
      Removable(v, caller, sid, username, password, id, w).value == w.accountOf(username).value.name
  {
    if id.Some? { HoldsIff(v, sid, id.value); }
    if KnowsPassword(caller, sid, username, password, w) {
      AuthenticatedIff(caller, sid, username, password, w, w.accountOf(username).value.name);
    }
  }

  lemma BeginRemoveIff(v: Vault, t: Table, caller: Caller, r: Request, w: World, sidOk: Sid -> bool)
    requires ValidVault(v, sidOk) && r.BeginRemove?
    ensures ReplyTo(v, t, caller, r, w, sidOk).Challenge?
      <==> && KnowsPassword(caller, r.sid, r.username, r.password, w)
           && r.credentialId.Some? && CanLose(v, r.sid, r.credentialId.value) && HasRoom(t, caller, w)
  {
    RpIsNamed(v, sidOk);
    RemovableIff(v, caller, r.sid, r.username, r.password, r.credentialId, w);
    if r.credentialId.Some? && KnowsPassword(caller, r.sid, r.username, r.password, w) {
      var name := w.accountOf(r.username).value.name;
      RoomIff(t, caller, RemovalSession(v, caller, r.sid, name, r.credentialId.value, w), w);
    }
  }

  // ----- Requests that change the vault -----

  lemma DroppedIsValid(a: AccountRecord, c: nat, sidOk: Sid -> bool)
    requires ValidAccount(a, sidOk) && c < |a.credentials| && (a.enforced ==> |a.credentials| >= 2)
    ensures ValidAccount(a.(credentials := Dropped(a.credentials, c)), sidOk)
  {
    var cs, after := a.credentials, Dropped(a.credentials, c);
    forall i | 0 <= i < |after|
      ensures after[i] == cs[if i < c then i else i + 1]
    {
    }
  }

  lemma WithoutIff(v: Vault, sid: Sid, id: string)
    ensures WithoutCredential(v, sid, id).Some? <==> CanLose(v, sid, id)
  {
    var k := FindAccount(v.accounts, sid);
    if k < |v.accounts| {
      var cs := v.accounts[k].credentials;
      var c := FindCredential(cs, id);
      if c < |cs| { assert cs[c] in cs; }
    }
  }

  lemma WithoutIsValid(v: Vault, sid: Sid, id: string, sidOk: Sid -> bool)
    requires ValidVault(v, sidOk) && WithoutCredential(v, sid, id).Some?
    ensures ValidVault(WithoutCredential(v, sid, id).value, sidOk)
  {
    var a := v.accounts[FindAccount(v.accounts, sid)];
    var c := FindCredential(a.credentials, id);
    assert ValidAccount(a, sidOk);
    DroppedIsValid(a, c, sidOk);
    RemovalIsUpsert(v, sid, id);
    SameMatch(v.accounts, sid, a.sid);
    UpsertedIsValid(v, a.(credentials := Dropped(a.credentials, c)), sidOk);
  }

  lemma RemovalIff(v: Vault, sid: Sid, id: string, sidOk: Sid -> bool)
    requires ValidVault(v, sidOk)
    ensures AfterSave(v, WithoutCredential(v, sid, id), Commits, ValidFor(sidOk)).1 <==> CanLose(v, sid, id)
  {
    WithoutIff(v, sid, id);
    if WithoutCredential(v, sid, id).Some? { WithoutIsValid(v, sid, id, sidOk); }
  }

  lemma DirectRemovalIs(v: Vault, t: Table, caller: Caller, r: Request, w: World, valid: Vault -> bool)
    requires r.RemoveWithPassword?
    ensures AfterRemoveWithPassword(v, t, caller, r, w, Commits, valid).reply == Done
      <==> && Removable(v, caller, r.sid, r.username, r.password, r.credentialId, w).Success?
           && r.credentialId.Some?
           && AfterSave(v, WithoutCredential(v, r.sid, r.credentialId.value), Commits, valid).1
  {
  }

  lemma RemoveWithPasswordIff(v: Vault, t: Table, caller: Caller, r: Request, w: World, sidOk: Sid -> bool)
    requires ValidVault(v, sidOk) && r.RemoveWithPassword?
    ensures ReplyTo(v, t, caller, r, w, sidOk) == Done
      <==> && KnowsPassword(caller, r.sid, r.username, r.password, w)
           && r.credentialId.Some? && CanLose(v, r.sid, r.credentialId.value)
  {
    RemovableIff(v, caller, r.sid, r.username, r.password, r.credentialId, w);
    DirectRemovalIs(v, t, caller, r, w, ValidFor(sidOk));
    if r.credentialId.Some? { RemovalIff(v, r.sid, r.credentialId.value, sidOk); }
  }

  lemma EnforcementIff(v: Vault, sid: Sid, enforced: bool, sidOk: Sid -> bool)
    requires ValidVault(v, sidOk)
    ensures WithEnforcement(v, sid, enforced).Some?
      <==> AccountOf(v, sid).Some? && (enforced ==> CredentialsOf(AccountOf(v, sid)) != [])
    ensures AfterSave(v, WithEnforcement(v, sid, enforced), Commits, ValidFor(sidOk)).1
      <==> AccountOf(v, sid).Some? && (enforced ==> CredentialsOf(AccountOf(v, sid)) != [])
  {
    if WithEnforcement(v, sid, enforced).Some? {
      var k := FindAccount(v.accounts, sid);
      var a := v.accounts[k];
      assert ValidAccount(a, sidOk);
      EnforcementIsUpsert(v, sid, enforced);
      SameMatch(v.accounts, sid, a.sid);
      UpsertedIsValid(v, a.(enforced := enforced), sidOk);
    }
  }

  lemma SetEnforcementIff(v: Vault, t: Table, caller: Caller, r: Request, w: World, sidOk: Sid -> bool)
    requires ValidVault(v, sidOk) && r.SetEnforcement?
    ensures ReplyTo(v, t, caller, r, w, sidOk) == Done
      <==> && caller.isElevatedAdmin && KnowsPassword(caller, r.sid, r.username, r.password, w)
           && r.enabled.Some? && AccountOf(v, r.sid).Some?
           && (r.enabled.value ==>
                 && CredentialsOf(AccountOf(v, r.sid)) != []
                 && (w.filterConflict ==> r.allowFilterConflict) && !w.filterError)
  {
    if r.enabled.Some? { EnforcementIff(v, r.sid, r.enabled.value, sidOk); }
    if KnowsPassword(caller, r.sid, r.username, r.password, w) {
      AuthenticatedIff(caller, r.sid, r.username, r.password, w, w.accountOf(r.username).value.name);
    }
  }

  lemma CountedIsAsserted(v: Vault, session: Session, assertion: Option<Assertion>, lib: Library)
    requires Counted(v, session, assertion, lib).Success?
    ensures IsAsserted(v, session, assertion, lib)
  {
    var cs := CredentialsOf(AccountOf(v, session.targetSid));
    var c := cs[FindCredential(cs, assertion.value.items[0].credentialId)];
    var verified := VerifyAssertion(c, session.challenge, session.rpId, session.origin, assertion.value, lib);
    AssertionIff(c, session.challenge, session.rpId, session.origin, assertion.value, lib, verified.value);
    assert c in cs;
  }

  lemma AssertedIsCounted(v: Vault, session: Session, assertion: Assertion, lib: Library, c: CredentialRecord,
                          counter: Counter)
    requires
      var cs := CredentialsOf(AccountOf(v, session.targetSid));
      FindCredential(cs, c.credentialId) < |cs| && cs[FindCredential(cs, c.credentialId)] == c
    requires |assertion.items| == 1 && assertion.items[0].credentialId == c.credentialId
    requires VerifyAssertion(c, session.challenge, session.rpId, session.origin, assertion, lib) == Success(counter)
    ensures Counted(v, session, Some(assertion), lib).Success?
  {
  }

  /** The tests before the counter is saved let exactly such an assertion pass. */
  lemma CountedIff(v: Vault, session: Session, assertion: Option<Assertion>, lib: Library, sidOk: Sid -> bool)
    requires ValidVault(v, sidOk)
    ensures Counted(v, session, assertion, lib).Success? <==> IsAsserted(v, session, assertion, lib)
  {
    if Counted(v, session, assertion, lib).Success? {
      CountedIsAsserted(v, session, assertion, lib);
    }
    if IsAsserted(v, session, assertion, lib) {
      var c, counter :|
        && c in CredentialsOf(AccountOf(v, session.targetSid))
        && AssertionHolds(c, session.challenge, session.rpId, session.origin, assertion.value, lib, counter);
      AssertionIff(c, session.challenge, session.rpId, session.origin, assertion.value, lib, counter);
      FoundByItsId(v, session.targetSid, c, sidOk);
      AssertedIsCounted(v, session, assertion.value, lib, c, counter);
    }
  }

  lemma FoundById(cs: seq<CredentialRecord>, c: CredentialRecord)
    requires DistinctIds(cs) && c in cs
    ensures FindCredential(cs, c.credentialId) < |cs| && cs[FindCredential(cs, c.credentialId)] == c
  {
    var i :| 0 <= i < |cs| && cs[i] == c;
    var k := FindCredential(cs, c.credentialId);
    assert k <= i;
  }

  lemma IdsAreDistinct(v: Vault, sid: Sid, sidOk: Sid -> bool)
    requires ValidVault(v, sidOk)
    ensures DistinctIds(CredentialsOf(AccountOf(v, sid)))
  {
    var k := FindAccount(v.accounts, sid);
    if k < |v.accounts| { assert ValidAccount(v.accounts[k], sidOk); }
  }

  lemma FoundByItsId(v: Vault, sid: Sid, c: CredentialRecord, sidOk: Sid -> bool)
    requires ValidVault(v, sidOk) && c in CredentialsOf(AccountOf(v, sid))
    ensures
      var cs := CredentialsOf(AccountOf(v, sid));
      FindCredential(cs, c.credentialId) < |cs| && cs[FindCredential(cs, c.credentialId)] == c
  {
    IdsAreDistinct(v, sid, sidOk);
    FoundById(CredentialsOf(AccountOf(v, sid)), c);
  }

  lemma AssertionIs(v: Vault, session: Session, assertion: Option<Assertion>, lib: Library, valid: Vault -> bool)
    ensures
      var account := Counted(v, session, assertion, lib);
      AfterAssertion(v, session, assertion, lib, Commits, valid).1.None?
      <==> account.Success? && valid(Upserted(v, account.value))
  {
  }

  lemma AssertionSavedIff(v: Vault, session: Session, assertion: Option<Assertion>, lib: Library, sidOk: Sid -> bool)
    requires ValidVault(v, sidOk)
    ensures AfterAssertion(v, session, assertion, lib, Commits, ValidFor(sidOk)).1.None?
      <==> IsAsserted(v, session, assertion, lib)
  {
    AssertionIs(v, session, assertion, lib, ValidFor(sidOk));
    CountedIff(v, session, assertion, lib, sidOk);
    if Counted(v, session, assertion, lib).Success? { CountKeepsValid(v, session, assertion, lib, sidOk); }
  }

  lemma FinishAuthIff(v: Vault, t: Table, caller: Caller, r: Request, w: World, sidOk: Sid -> bool)
    requires ValidVault(v, sidOk) && WithinLimits(t) && r.FinishAuth?
    ensures ReplyTo(v, t, caller, r, w, sidOk) == Done
      <==> MayUse(t, r.sessionId, caller, Authentication, w.now) && IsAsserted(v, t[r.sessionId], r.assertion, w.lib)
  {
    UseIff(t, r.sessionId, caller, Authentication, w.now);
    if MayUse(t, r.sessionId, caller, Authentication, w.now) {
      AssertionSavedIff(v, t[r.sessionId], r.assertion, w.lib, sidOk);
    }
  }

  /** Counting an assertion changes nothing that decides about a removal. */
  lemma CountKeepsRemoval(v: Vault, session: Session, assertion: Option<Assertion>, lib: Library, id: string)
    requires Counted(v, session, assertion, lib).Success?
    ensures
      var u := Upserted(v, Counted(v, session, assertion, lib).value);
      CanLose(u, session.targetSid, id) <==> CanLose(v, session.targetSid, id)
  {
    CountedKeepsAccount(v, session, assertion, lib);
    var a := Counted(v, session, assertion, lib).value;
    AccountAfterUpsert(v, a, session.targetSid);
    HoldsIff(v, session.targetSid, id);
    HoldsIff(Upserted(v, a), session.targetSid, id);
    assert IdsOf(a.credentials) == IdsOf(CredentialsOf(AccountOf(v, session.targetSid)));
  }

  lemma RemovalBySessionIff(v: Vault, session: Session, assertion: Option<Assertion>, lib: Library, sidOk: Sid -> bool)
    requires ValidVault(v, sidOk) && Counted(v, session, assertion, lib).Success?
    ensures
      var u := Upserted(v, Counted(v, session, assertion, lib).value);
      AfterSave(u, WithoutCredential(u, session.targetSid, session.credentialToRemove), Commits, ValidFor(sidOk)).1
      <==> CanLose(v, session.targetSid, session.credentialToRemove)
  {
    CountKeepsValid(v, session, assertion, lib, sidOk);
    CountKeepsRemoval(v, session, assertion, lib, session.credentialToRemove);
    RemovalIff(Upserted(v, Counted(v, session, assertion, lib).value), session.targetSid, session.credentialToRemove,
               sidOk);
  }

  /** Both saves of a removal by key. */
  lemma FinishRemoveIs(v: Vault, t: Table, caller: Caller, r: Request, w: World, session: Session, valid: Vault -> bool)
    requires r.FinishRemove? && Take(t, r.sessionId, caller, RemovalAuthorization, w.now).1 == Success(session)
    requires Counted(v, session, r.assertion, w.lib).Success? ==>
      valid(Upserted(v, Counted(v, session, r.assertion, w.lib).value))
    ensures AfterFinishRemove(v, t, caller, r, w, FAULTLESS, valid).reply == Done
      <==> && Counted(v, session, r.assertion, w.lib).Success?
           && var u := Upserted(v, Counted(v, session, r.assertion, w.lib).value);
              AfterSave(u, WithoutCredential(u, session.targetSid, session.credentialToRemove), Commits, valid).1
  {
  }

  lemma FinishRemoveIff(v: Vault, t: Table, caller: Caller, r: Request, w: World, sidOk: Sid -> bool)
    requires ValidVault(v, sidOk) && WithinLimits(t) && r.FinishRemove?
    ensures ReplyTo(v, t, caller, r, w, sidOk) == Done
      <==> && MayUse(t, r.sessionId, caller, RemovalAuthorization, w.now)
           && IsAsserted(v, t[r.sessionId], r.assertion, w.lib)
           && CanLose(v, t[r.sessionId].targetSid, t[r.sessionId].credentialToRemove)
  {
    UseIff(t, r.sessionId, caller, RemovalAuthorization, w.now);
    if MayUse(t, r.sessionId, caller, RemovalAuthorization, w.now) {
      var session := t[r.sessionId];
      CountedIff(v, session, r.assertion, w.lib, sidOk);
      if Counted(v, session, r.assertion, w.lib).Success? {
        CountKeepsValid(v, session, r.assertion, w.lib, sidOk);
        RemovalBySessionIff(v, session, r.assertion, w.lib, sidOk);
      }
      FinishRemoveIs(v, t, caller, r, w, session, ValidFor(sidOk));
    }
  }

  lemma UnusedIff(v: Vault, id: string)
    ensures IsUnused(v, id) <==> !IdInUse(v.accounts, id)
  {
    forall i | 0 <= i < |v.accounts|
      ensures id in IdsOf(v.accounts[i].credentials)
        <==> exists k :: 0 <= k < |v.accounts[i].credentials| && v.accounts[i].credentials[k].credentialId == id
    {
      var cs := v.accounts[i].credentials;
      forall k | 0 <= k < |cs|
        ensures IdsOf(cs)[k] == cs[k].credentialId
      {
      }
    }
  }

  lemma EnrolIff(v: Vault, session: Session, payload: Option<Payload>, w: World, sidOk: Sid -> bool)
    requires ValidVault(v, sidOk) && RoomFor(v, session, w.utcNow, sidOk)
    ensures CanEnrol(v, session, payload, w) <==>
      var account := Enrolling(v, session, payload, w);
      account.Success? && ValidVault(Upserted(v, account.value), sidOk)
  {
    if CanEnrol(v, session, payload, w) {
      var result :|
        && RegistrationHolds(session.challenge, session.rpId, session.origin, payload.value.attestationObject,
                             payload.value.clientDataJson, w.lib, result)
        && IsUnused(v, result.credentialId) && |CredentialsOf(AccountOf(v, session.targetSid))| < 64
        && |Base64.UrlDecode(result.cosePublicKey)| <= 1024;
      RegistrationIff(session.challenge, session.rpId, session.origin, payload.value.attestationObject,
                      payload.value.clientDataJson, w.lib, result);
      UnusedIff(v, result.credentialId);
      AcceptedRegistrationIsStorable(v, session, payload.value, w, sidOk);
    }
    if Enrolling(v, session, payload, w).Success? {
      var result := EnrollingIsEnrolled(v, session, payload.value, w);
      RegistrationIff(session.challenge, session.rpId, session.origin, payload.value.attestationObject,
                      payload.value.clientDataJson, w.lib, result);
      UnusedIff(v, result.credentialId);
      AcceptedRegistrationIsStorable(v, session, payload.value, w, sidOk);
    }
  }

  lemma CommitIs(v: Vault, t: Table, caller: Caller, r: Request, w: World, session: Session, valid: Vault -> bool)
    requires r.CommitRegistration? && Take(t, r.sessionId, caller, Registration, w.now).1 == Success(session)
    ensures
      var account := Enrolling(v, session, r.payload, w);
      AfterCommitRegistration(v, t, caller, r, w, Commits, valid).reply.Registered?
      <==> account.Success? && valid(Upserted(v, account.value))
  {
  }

  lemma CommitServes(v: Vault, t: Table, caller: Caller, r: Request, w: World, sidOk: Sid -> bool)
    requires r.CommitRegistration?
    ensures ReplyTo(v, t, caller, r, w, sidOk)
      == AfterCommitRegistration(v, t, caller, r, w, Commits, ValidFor(sidOk)).reply
  {
  }

  lemma CommitNeedsSession(v: Vault, t: Table, caller: Caller, r: Request, w: World, valid: Vault -> bool)
    requires r.CommitRegistration? && Take(t, r.sessionId, caller, Registration, w.now).1.Failure?
    ensures AfterCommitRegistration(v, t, caller, r, w, Commits, valid).reply.Refused?
  {
  }

  /** When account, name, label and date of the session fit the vault. */
  lemma CommitRegistrationIff(v: Vault, t: Table, caller: Caller, r: Request, w: World, sidOk: Sid -> bool)
    requires ValidVault(v, sidOk) && WithinLimits(t) && r.CommitRegistration?
    requires r.sessionId in t ==> RoomFor(v, t[r.sessionId], w.utcNow, sidOk)
    ensures ReplyTo(v, t, caller, r, w, sidOk).Registered?
      <==> MayUse(t, r.sessionId, caller, Registration, w.now) && CanEnrol(v, t[r.sessionId], r.payload, w)
  {
    CommitServes(v, t, caller, r, w, sidOk);
    UseIff(t, r.sessionId, caller, Registration, w.now);
    if MayUse(t, r.sessionId, caller, Registration, w.now) {
      EnrolIff(v, t[r.sessionId], r.payload, w, sidOk);
      CommitIs(v, t, caller, r, w, t[r.sessionId], ValidFor(sidOk));
    } else {
      CommitNeedsSession(v, t, caller, r, w, ValidFor(sidOk));
    }
  }

  // ----- From the refresh on -----

  lemma {:induction false} RefreshedIff(accounts: seq<AccountRecord>, resolve: Sid -> Resolution)
    ensures Refreshed(accounts, resolve).Some?
      <==> forall i :: 0 <= i < |accounts| ==> !resolve(accounts[i].sid).Unresolved?
  {
    if accounts != [] {
      RefreshedIff(accounts[1..], resolve);
      assert forall i :: 1 <= i < |accounts| ==> accounts[i] == accounts[1..][i - 1];
    }
  }

  /** A request over a vault that loads gets past its refresh when every account is
      known or known to be gone and the new names fit; it then has the reply above. */
  lemma FaultlessReply(s: State, v: Vault, caller: Caller, r: Request, w: World, sidOk: Sid -> bool)
    requires s.loaded == Success(v) && ValidVault(v, sidOk)
    ensures AfterRefresh(s.loaded, w, Refreshes, ValidFor(sidOk)).1
      <==> && Refreshed(v.accounts, w.resolveSid).Some?
           && ValidVault(v.(accounts := Refreshed(v.accounts, w.resolveSid).value), sidOk)
    ensures Refreshed(v.accounts, w.resolveSid).Some?
      <==> forall i :: 0 <= i < |v.accounts| ==> !w.resolveSid(v.accounts[i].sid).Unresolved?
    ensures AfterRefresh(s.loaded, w, Refreshes, ValidFor(sidOk)).1 ==>
      Handled(s, caller, r, w, FAULTLESS, ValidFor(sidOk)).1
      == ReplyTo(v.(accounts := Refreshed(v.accounts, w.resolveSid).value), s.sessions, caller, r, w, sidOk)
  {
    RefreshedIff(v.accounts, w.resolveSid);
  }
}
