/** What one request can do: to the credentials and the policy of an account,
    to signature counters, and to the session table. */
module BrokerSteps {
  import opened Basics
  import opened Broker
  import opened CredentialStore
  import opened FidoVerifier
  import opened Sessions
  import opened VaultChanges
  import opened Vaults

  // ----- What the validity test provides -----

  predicate Orderly(v: Vault) {
    && DistinctSids(v.accounts)
    && forall i :: 0 <= i < |v.accounts| ==> OrderlyAccount(v.accounts[i])
  }

  predicate OrderlyAccount(a: AccountRecord) {
    && a.sid != ""
    && |a.credentials| <= MAX_CREDENTIALS
    && (a.enforced ==> a.credentials != [])
    && DistinctIds(a.credentials)
  }

  /** The test lets only orderly vaults pass. */
  ghost predicate Trusted(valid: Vault -> bool) {
    forall v :: valid(v) ==> Orderly(v)
  }

  /** The test of the program is such a test. */
  lemma IsVaultValidIsTrusted(sidOk: Sid -> bool)
    ensures Trusted(ValidFor(sidOk))
  {
    forall v | ValidFor(sidOk)(v)
      ensures Orderly(v)
    {
      forall i | 0 <= i < |v.accounts|
        ensures OrderlyAccount(v.accounts[i])
      {
        assert ValidAccount(v.accounts[i], sidOk);
      }
    }
  }

  ghost predicate LoadsValid(loaded: Result<Vault, nat>, valid: Vault -> bool) {
    loaded.Success? ==> valid(loaded.value)
  }

  // ----- What is stored for an account -----

  /** The policy and the credentials of an account; an absent account has none. */
  datatype Holding = Holding(enforced: bool, credentials: seq<CredentialRecord>)

  const NOTHING := Holding(false, [])

  function HoldingOf(a: Option<AccountRecord>): Holding {
    if a.None? then NOTHING else Holding(a.value.enforced, a.value.credentials)
  }

  function Held(loaded: Result<Vault, nat>, sid: Sid): Holding {
    if loaded.Failure? then NOTHING else HoldingOf(AccountOf(loaded.value, sid))
  }

  function RecordOf(loaded: Result<Vault, nat>, sid: Sid, id: string): Option<CredentialRecord> {
    RecordIn(Held(loaded, sid).credentials, id)
  }

  /** The account exists and the operating system no longer knows it. */
  predicate Unmaps(loaded: Result<Vault, nat>, w: World, sid: Sid) {
    && loaded.Success? && AccountOf(loaded.value, sid).Some?
    && w.resolveSid(AccountOf(loaded.value, sid).value.sid).Unmapped?
  }

  lemma OrderlyHolding(v: Vault, sid: Sid)
    requires Orderly(v)
    ensures var h := HoldingOf(AccountOf(v, sid)); DistinctIds(h.credentials) && (h.enforced ==> h.credentials != [])
  {
    var k := FindAccount(v.accounts, sid);
    if k < |v.accounts| { assert OrderlyAccount(v.accounts[k]); }
  }

  lemma HeldAfterUpsert(v: Vault, a: AccountRecord, sid: Sid)
    ensures HoldingOf(AccountOf(Upserted(v, a), sid))
      == if SameText(a.sid, sid) then Holding(a.enforced, a.credentials) else HoldingOf(AccountOf(v, sid))
  {
    AccountAfterUpsert(v, a, sid);
  }

  /** A refresh leaves what an account holds alone, or deletes an unmapped account. */
  lemma HeldAfterRefresh(loaded: Result<Vault, nat>, w: World, fate: RefreshFate, valid: Vault -> bool, sid: Sid)
    requires Trusted(valid) && LoadsValid(loaded, valid)
    ensures
      var after := AfterRefresh(loaded, w, fate, valid).0;
      LoadsValid(after, valid)
        && (Held(after, sid) == Held(loaded, sid) || (Unmaps(loaded, w, sid) && Held(after, sid) == NOTHING))
  {
    if loaded.Success? {
      if RefreshedVault(loaded.value, w.resolveSid).Some? {
        AccountAfterRefresh(loaded.value, w.resolveSid, sid);
        ResolvedWhenRefreshed(loaded.value.accounts, w.resolveSid, FindAccount(loaded.value.accounts, sid));
      }
    }
  }

  /** A successful refresh has deleted every unmapped account. */
  lemma UnmappedIsGone(loaded: Result<Vault, nat>, w: World, fate: RefreshFate, valid: Vault -> bool, sid: Sid)
    requires Trusted(valid) && LoadsValid(loaded, valid)
    requires Unmaps(loaded, w, sid) && AfterRefresh(loaded, w, fate, valid).1
    ensures AccountOf(AfterRefresh(loaded, w, fate, valid).0.value, sid).None?
  {
    AccountAfterRefresh(loaded.value, w.resolveSid, sid);
  }

  lemma {:induction false} ResolvedWhenRefreshed(accounts: seq<AccountRecord>, resolve: Sid -> Resolution, k: nat)
    requires Refreshed(accounts, resolve).Some?
    ensures k < |accounts| ==> !resolve(accounts[k].sid).Unresolved?
  {
    if 0 < k < |accounts| {
      ResolvedWhenRefreshed(accounts[1..], resolve, k - 1);
    }
  }

  // ----- Assertions and counters -----

  /** The counter of an assertion that verifies for one credential of an account
      holding `h`. */
  function VerifiedCounter(h: Holding, session: Session, assertion: Option<Assertion>, lib: Library, sid: Sid,
                           id: string): Option<Counter> {
    var record := RecordIn(h.credentials, id);
    if !SameText(session.targetSid, sid) || assertion.None? || record.None? || |assertion.value.items| != 1
       || assertion.value.items[0].credentialId != id then None
    else
      var counter := VerifyAssertion(record.value, session.challenge, session.rpId, session.origin, assertion.value,
                                     lib);
      if counter.Failure? then None else Some(counter.value)
  }

  function Recounted(r: Option<CredentialRecord>, counter: Option<Counter>): Option<CredentialRecord> {
    if r.None? || counter.None? then r else Some(r.value.(signCount := counter.value))
  }

  /** What an accepted assertion counts: the credential it names, with its counter. */
  lemma CountedParts(v: Vault, session: Session, assertion: Option<Assertion>, lib: Library)
    returns (was: AccountRecord, c: nat, counter: Counter)
    requires Counted(v, session, assertion, lib).Success?
    ensures assertion.Some? && |assertion.value.items| == 1 && AccountOf(v, session.targetSid) == Some(was)
    ensures c < |was.credentials| && c == FindCredential(was.credentials, assertion.value.items[0].credentialId)
    ensures VerifyAssertion(was.credentials[c], session.challenge, session.rpId, session.origin, assertion.value, lib)
      == Success(counter)
    ensures Counted(v, session, assertion, lib).value == WithCounter(was, c, counter)
  {
    was := AccountOf(v, session.targetSid).value;
    c := FindCredential(was.credentials, assertion.value.items[0].credentialId);
    counter := VerifyAssertion(was.credentials[c], session.challenge, session.rpId, session.origin, assertion.value,
                               lib).value;
  }

  /** Only the credential that the assertion names has a verified counter. */
  lemma CounterOfNamed(was: AccountRecord, c: nat, counter: Counter, session: Session, assertion: Assertion,
                       lib: Library, sid: Sid, id: string)
    requires c < |was.credentials| && |assertion.items| == 1
    requires c == FindCredential(was.credentials, assertion.items[0].credentialId) && SameText(session.targetSid, sid)
    requires VerifyAssertion(was.credentials[c], session.challenge, session.rpId, session.origin, assertion, lib)
      == Success(counter)
    ensures VerifiedCounter(Holding(was.enforced, was.credentials), session, Some(assertion), lib, sid, id)
      == if was.credentials[c].credentialId == id then Some(counter) else None
  {
  }

  /** What Counted yields for an account: only the counter of the verified
      credential is new. */
  lemma HeldAfterCount(v: Vault, session: Session, assertion: Option<Assertion>, lib: Library, sid: Sid, id: string)
    requires Counted(v, session, assertion, lib).Success?
    ensures
      var before, after := HoldingOf(AccountOf(v, sid)),
        HoldingOf(AccountOf(Upserted(v, Counted(v, session, assertion, lib).value), sid));
      && after.enforced == before.enforced
      && RecordIn(after.credentials, id)
           == Recounted(RecordIn(before.credentials, id), VerifiedCounter(before, session, assertion, lib, sid, id))
  {
    var was, c, counter := CountedParts(v, session, assertion, lib);
    HeldAfterUpsert(v, WithCounter(was, c, counter), sid);
    SameMatch(v.accounts, session.targetSid, was.sid);
    if SameText(session.targetSid, sid) {
      SameMatch(v.accounts, session.targetSid, sid);
      CounterOfNamed(was, c, counter, session, assertion.value, lib, sid, id);
      RecordAfterCount(was, c, counter, id);
    }
  }

  /** The counter of a verified assertion reaches the disk. */
  predicate CountIsSaved(v: Vault, session: Session, assertion: Option<Assertion>, lib: Library, fate: SaveFate,
                         valid: Vault -> bool) {
    var account := Counted(v, session, assertion, lib);
    account.Success? && TakesEffect(Upserted(v, account.value), fate, valid)
  }

  /** VerifySessionAssertion changes one counter, and only when it is saved; it
      succeeds only then. */
  lemma HeldAfterAssertion(v: Vault, session: Session, assertion: Option<Assertion>, lib: Library, fate: SaveFate,
                           valid: Vault -> bool, sid: Sid, id: string)
    requires valid(v)
    ensures
      var (u, error) := AfterAssertion(v, session, assertion, lib, fate, valid);
      var before, after := HoldingOf(AccountOf(v, sid)), HoldingOf(AccountOf(u, sid));
      var saved := CountIsSaved(v, session, assertion, lib, fate, valid);
      && valid(u) && after.enforced == before.enforced
      && RecordIn(after.credentials, id)
         == (if saved
             then Recounted(RecordIn(before.credentials, id), VerifiedCounter(before, session, assertion, lib, sid, id))
             else RecordIn(before.credentials, id))
      && (error.None? <==> saved && fate.Commits?)
  {
    if Counted(v, session, assertion, lib).Success? {
      HeldAfterCount(v, session, assertion, lib, sid, id);
    }
  }

  /** Whatever the vault counts was asserted for a credential of the account. */
  lemma CountedIsVerified(v: Vault, session: Session, assertion: Option<Assertion>, lib: Library)
    requires Counted(v, session, assertion, lib).Success?
    ensures assertion.Some? && |assertion.value.items| == 1
    ensures VerifiedCounter(HoldingOf(AccountOf(v, session.targetSid)), session, assertion, lib, session.targetSid,
                            assertion.value.items[0].credentialId).Some?
  {
  }

  lemma VerifiedCounterRises(h: Holding, session: Session, assertion: Option<Assertion>, lib: Library, sid: Sid,
                             id: string)
    requires VerifiedCounter(h, session, assertion, lib, sid, id).Some?
    ensures
      var stored := RecordIn(h.credentials, id).value.signCount;
      var counter := VerifiedCounter(h, session, assertion, lib, sid, id).value;
      (stored == 0 && counter == 0) || counter > stored
  {
    var record := RecordIn(h.credentials, id).value;
    AcceptedAssertion(record, session.challenge, session.rpId, session.origin, assertion.value, lib);
  }

  // ----- One request, after the refresh -----

  /** The session a request takes, if it is accepted. */
  function SessionOf(t: Table, caller: Caller, r: Request, w: World): Option<Session> {
    match r
    case FinishAuth(id, _) => Accepted(Take(t, id, caller, Authentication, w.now).1)
    case CommitRegistration(id, _) => Accepted(Take(t, id, caller, Registration, w.now).1)
    case FinishRemove(id, _) => Accepted(Take(t, id, caller, RemovalAuthorization, w.now).1)
    case _ => None
  }

  function Accepted(taken: Result<Session, SessionError>): Option<Session> {
    if taken.Success? then Some(taken.value) else None
  }

  function AssertionOf(r: Request): Option<Assertion> {
    match r
    case FinishAuth(_, assertion) => assertion
    case FinishRemove(_, assertion) => assertion
    case _ => None
  }

  /** The counter the request's assertion yields for a credential. */
  function AssertedCounter(h: Holding, t: Table, caller: Caller, r: Request, w: World, sid: Sid,
                           id: string): Option<Counter> {
    var session := SessionOf(t, caller, r, w);
    if session.None? then None else VerifiedCounter(h, session.value, AssertionOf(r), w.lib, sid, id)
  }

  predicate CounterReachesDisk(v: Vault, t: Table, caller: Caller, r: Request, w: World, fates: Fates,
                               valid: Vault -> bool) {
    var session := SessionOf(t, caller, r, w);
    session.Some? && CountIsSaved(v, session.value, AssertionOf(r), w.lib, fates.counter, valid)
  }

  /** A registration session of the account, taken, whose ceremony yields the
      credential. */
  predicate Enrols(t: Table, caller: Caller, r: Request, w: World, sid: Sid, record: CredentialRecord) {
    && r.CommitRegistration? && SessionOf(t, caller, r, w).Some? && r.payload.Some?
    && var session := SessionOf(t, caller, r, w).value;
       var result := VerifyRegistration(session.challenge, session.rpId, session.origin,
                                        r.payload.value.attestationObject, r.payload.value.clientDataJson, w.lib);
       && SameText(session.targetSid, sid)
       && result.Success? && record == NewRecord(result.value, session.keyLabel, w.utcNow)
  }

  /** The name resolves to the account that calls and is meant, and the password is
      right for its resolved name. */
  predicate KnowsPassword(caller: Caller, sid: Sid, username: string, password: string, w: World) {
    && SameText(caller.sid, sid)
    && w.accountOf(username).Some? && SameText(w.accountOf(username).value.sid, sid)
    && w.passwordOk(w.accountOf(username).value.name, password)
  }

  /** The tests of the program let exactly such a caller pass. */
  lemma AuthenticatedIff(caller: Caller, sid: Sid, username: string, password: string, w: World, name: string)
    ensures Authenticated(caller, sid, username, password, w) == Success(name)
      <==> KnowsPassword(caller, sid, username, password, w) && name == w.accountOf(username).value.name
  {
  }

  /** The credential has every field of the registration, and label and date of the
      session and the request. */
  predicate Stores(c: CredentialRecord, result: RegistrationResult, session: Session, w: World) {
    && c.credentialId == result.credentialId && c.cosePublicKey == result.cosePublicKey && c.aaguid == result.aaguid
    && c.algorithm == -7 && c.signCount == result.signCount
    && c.keyLabel == session.keyLabel && c.createdAt == w.utcNow
  }

  /** A password-checked request by the account for this credential. */
  predicate RemovesDirectly(caller: Caller, r: Request, w: World, sid: Sid, id: string) {
    && r.RemoveWithPassword? && r.credentialId == Some(id)
    && SameText(caller.sid, sid) && SameText(r.sid, sid)
    && KnowsPassword(caller, r.sid, r.username, r.password, w)
  }

  /** A removal session of the account for this credential, taken, with a
      verified assertion of some credential of the account. */
  predicate RemovesBySession(h: Holding, t: Table, caller: Caller, r: Request, w: World, sid: Sid, id: string) {
    && r.FinishRemove? && SessionOf(t, caller, r, w).Some? && r.assertion.Some? && |r.assertion.value.items| == 1
    && var session := SessionOf(t, caller, r, w).value;
       && SameText(session.targetSid, sid) && session.credentialToRemove == id
       && VerifiedCounter(h, session, r.assertion, w.lib, sid, r.assertion.value.items[0].credentialId).Some?
  }

  /** An elevated, password-checked request by the account for this flag. */
  predicate SetsPolicy(caller: Caller, r: Request, w: World, sid: Sid, enforced: bool) {
    && r.SetEnforcement? && r.enabled == Some(enforced) && caller.isElevatedAdmin
    && (enforced ==> (w.filterConflict ==> r.allowFilterConflict) && !w.filterError)
    && SameText(caller.sid, sid) && SameText(r.sid, sid)
    && KnowsPassword(caller, r.sid, r.username, r.password, w)
  }

  lemma HeldAfterSave(v: Vault, a: AccountRecord, fate: SaveFate, valid: Vault -> bool, sid: Sid)
    requires valid(v)
    ensures
      var u := AfterSave(v, Some(Upserted(v, a)), fate, valid).0;
      && valid(u)
      && (HoldingOf(AccountOf(u, sid)) == HoldingOf(AccountOf(v, sid))
          || (SameText(a.sid, sid) && HoldingOf(AccountOf(u, sid)) == Holding(a.enforced, a.credentials)))
  {
    HeldAfterUpsert(v, a, sid);
  }

  lemma EnrolledHolding(v: Vault, session: Session, r: RegistrationResult, utcNow: string, sid: Sid)
    requires Enrolled(v, session, r, utcNow).Success? && SameText(Enrolled(v, session, r, utcNow).value.sid, sid)
    ensures SameText(session.targetSid, sid)
    ensures
      var before, a := HoldingOf(AccountOf(v, sid)), Enrolled(v, session, r, utcNow).value;
      Holding(a.enforced, a.credentials)
        == before.(credentials := before.credentials + [NewRecord(r, session.keyLabel, utcNow)])
  {
    SameMatch(v.accounts, session.targetSid, sid);
  }

  lemma EnrollingTargets(v: Vault, session: Session, payload: Option<Payload>, w: World)
    requires Enrolling(v, session, payload, w).Success?
    ensures SameText(Enrolling(v, session, payload, w).value.sid, session.targetSid)
  {
  }

  lemma CommitEffect(v: Vault, t: Table, caller: Caller, r: Request, w: World, fate: SaveFate, valid: Vault -> bool,
                     sid: Sid, id: string)
    requires valid(v) && r.CommitRegistration?
    ensures
      var e := AfterCommitRegistration(v, t, caller, r, w, fate, valid);
      var before, after := HoldingOf(AccountOf(v, sid)), HoldingOf(AccountOf(e.vault, sid));
      && valid(e.vault) && after.enforced == before.enforced
      && (RecordIn(after.credentials, id) == RecordIn(before.credentials, id)
          || (RecordIn(before.credentials, id).None? && RecordIn(after.credentials, id).Some?
              && RecordIn(after.credentials, id).value.credentialId == id
              && Enrols(t, caller, r, w, sid, RecordIn(after.credentials, id).value)))
  {
    var session := SessionOf(t, caller, r, w);
    if session.Some? && Enrolling(v, session.value, r.payload, w).Success? {
      var a := Enrolling(v, session.value, r.payload, w).value;
      HeldAfterSave(v, a, fate, valid, sid);
      if SameText(a.sid, sid) {
        var result := VerifyRegistration(session.value.challenge, session.value.rpId, session.value.origin,
                                         r.payload.value.attestationObject, r.payload.value.clientDataJson,
                                         w.lib).value;
        EnrolledHolding(v, session.value, result, w.utcNow, sid);
        RecordAfterAppend(HoldingOf(AccountOf(v, sid)).credentials, NewRecord(result, session.value.keyLabel, w.utcNow),
                          id);
      }
    }
  }

  lemma RemovalHolding(v: Vault, target: Sid, credentialId: string, sid: Sid, id: string)
    requires Orderly(v) && WithoutCredential(v, target, credentialId).Some?
    ensures
      var before, after := HoldingOf(AccountOf(v, sid)),
        HoldingOf(AccountOf(WithoutCredential(v, target, credentialId).value, sid));
      && after.enforced == before.enforced
      && RecordIn(after.credentials, id)
         == if SameText(target, sid) && credentialId == id then None else RecordIn(before.credentials, id)
  {
    RemovalIsUpsert(v, target, credentialId);
    var a := v.accounts[FindAccount(v.accounts, target)];
    var c := FindCredential(a.credentials, credentialId);
    HeldAfterUpsert(v, a.(credentials := Dropped(a.credentials, c)), sid);
    if SameText(target, sid) {
      SameMatch(v.accounts, target, sid);
      OrderlyHolding(v, sid);
      RecordAfterDrop(a.credentials, c, id);
    }
  }

  /** A removal takes away exactly the named credential of the named account. */
  lemma RemovalEffect(v: Vault, target: Sid, credentialId: string, fate: SaveFate, valid: Vault -> bool, sid: Sid,
                      id: string)
    requires Trusted(valid) && valid(v)
    ensures
      var u := AfterSave(v, WithoutCredential(v, target, credentialId), fate, valid).0;
      var before, after := HoldingOf(AccountOf(v, sid)), HoldingOf(AccountOf(u, sid));
      && valid(u) && after.enforced == before.enforced
      && (RecordIn(after.credentials, id) == RecordIn(before.credentials, id)
          || (RecordIn(after.credentials, id).None? && SameText(target, sid) && credentialId == id))
  {
    if WithoutCredential(v, target, credentialId).Some? {
      RemovalHolding(v, target, credentialId, sid, id);
    }
  }

  lemma PolicyEffect(v: Vault, target: Sid, enforced: bool, fate: SaveFate, valid: Vault -> bool, sid: Sid)
    requires valid(v)
    ensures
      var u := AfterSave(v, WithEnforcement(v, target, enforced), fate, valid).0;
      var before, after := HoldingOf(AccountOf(v, sid)), HoldingOf(AccountOf(u, sid));
      && valid(u) && after.credentials == before.credentials
      && (after.enforced == before.enforced || (SameText(target, sid) && after.enforced == enforced))
  {
    if WithEnforcement(v, target, enforced).Some? {
      EnforcementIsUpsert(v, target, enforced);
      var a := v.accounts[FindAccount(v.accounts, target)];
      HeldAfterUpsert(v, a.(enforced := enforced), sid);
      if SameText(target, sid) { SameMatch(v.accounts, target, sid); }
    }
  }

  lemma CommitPolicy(v: Vault, t: Table, caller: Caller, r: Request, w: World, fate: SaveFate, valid: Vault -> bool,
                     sid: Sid)
    requires valid(v) && r.CommitRegistration?
    ensures
      var u := AfterCommitRegistration(v, t, caller, r, w, fate, valid).vault;
      valid(u) && HoldingOf(AccountOf(u, sid)).enforced == HoldingOf(AccountOf(v, sid)).enforced
  {
    CommitEffect(v, t, caller, r, w, fate, valid, sid, "");
  }

  lemma DirectRemovalSaves(v: Vault, t: Table, caller: Caller, r: Request, w: World, fate: SaveFate,
                           valid: Vault -> bool)
    requires r.RemoveWithPassword?
    ensures
      var u := AfterRemoveWithPassword(v, t, caller, r, w, fate, valid).vault;
      || u == v
      || (r.credentialId.Some? && u == AfterSave(v, WithoutCredential(v, r.sid, r.credentialId.value), fate, valid).0)
  {
  }

  lemma DirectRemovalPolicy(v: Vault, t: Table, caller: Caller, r: Request, w: World, fate: SaveFate,
                            valid: Vault -> bool, sid: Sid)
    requires Trusted(valid) && valid(v) && r.RemoveWithPassword?
    ensures
      var u := AfterRemoveWithPassword(v, t, caller, r, w, fate, valid).vault;
      valid(u) && HoldingOf(AccountOf(u, sid)).enforced == HoldingOf(AccountOf(v, sid)).enforced
  {
    DirectRemovalSaves(v, t, caller, r, w, fate, valid);
    if r.credentialId.Some? { RemovalEffect(v, r.sid, r.credentialId.value, fate, valid, sid, ""); }
  }

  lemma FinishRemovePolicy(v: Vault, t: Table, caller: Caller, r: Request, w: World, fates: Fates, valid: Vault -> bool,
                           sid: Sid)
    requires Trusted(valid) && valid(v) && r.FinishRemove?
    ensures
      var u := AfterFinishRemove(v, t, caller, r, w, fates, valid).vault;
      valid(u) && HoldingOf(AccountOf(u, sid)).enforced == HoldingOf(AccountOf(v, sid)).enforced
  {
    var session := SessionOf(t, caller, r, w);
    if session.Some? {
      HeldAfterAssertion(v, session.value, r.assertion, w.lib, fates.counter, valid, sid, "");
      var counted := AfterAssertion(v, session.value, r.assertion, w.lib, fates.counter, valid).0;
      RemovalEffect(counted, session.value.targetSid, session.value.credentialToRemove, fates.change, valid, sid, "");
    }
  }

  lemma FinishAuthPolicy(v: Vault, t: Table, caller: Caller, r: Request, w: World, fate: SaveFate, valid: Vault -> bool,
                         sid: Sid)
    requires valid(v) && r.FinishAuth?
    ensures
      var u := AfterFinishAuth(v, t, caller, r, w, fate, valid).vault;
      valid(u) && HoldingOf(AccountOf(u, sid)).enforced == HoldingOf(AccountOf(v, sid)).enforced
  {
    var session := SessionOf(t, caller, r, w);
    if session.Some? { HeldAfterAssertion(v, session.value, r.assertion, w.lib, fate, valid, sid, ""); }
  }

  lemma SetEnforcementEffect(v: Vault, t: Table, caller: Caller, r: Request, w: World, fate: SaveFate,
                             valid: Vault -> bool, sid: Sid)
    requires valid(v) && r.SetEnforcement?
    ensures
      var u := AfterSetEnforcement(v, t, caller, r, w, fate, valid).vault;
      var before, after := HoldingOf(AccountOf(v, sid)), HoldingOf(AccountOf(u, sid));
      && valid(u) && after.credentials == before.credentials
      && (after.enforced == before.enforced || SetsPolicy(caller, r, w, sid, after.enforced))
  {
    var enabled := PolicyChange(caller, r, w);
    if enabled.Success? { PolicyEffect(v, r.sid, enabled.value, fate, valid, sid); }
  }

  /** The policy of an account changes only by its own elevated request. */
  lemma ServedPolicy(v: Vault, t: Table, caller: Caller, r: Request, w: World, fates: Fates, valid: Vault -> bool,
                     sid: Sid)
    requires Trusted(valid) && valid(v)
    ensures
      var u := Serve(v, t, caller, r, w, fates, valid).vault;
      var before, after := HoldingOf(AccountOf(v, sid)), HoldingOf(AccountOf(u, sid));
      && valid(u)
      && (after.enforced == before.enforced || SetsPolicy(caller, r, w, sid, after.enforced))
  {
    match r {
      case FinishAuth(_, _) => FinishAuthPolicy(v, t, caller, r, w, fates.counter, valid, sid);
      case CommitRegistration(_, _) => CommitPolicy(v, t, caller, r, w, fates.change, valid, sid);
      case RemoveWithPassword(_, _, _, _) => DirectRemovalPolicy(v, t, caller, r, w, fates.change, valid, sid);
      case FinishRemove(_, _) => FinishRemovePolicy(v, t, caller, r, w, fates, valid, sid);
      case SetEnforcement(_, _, _, _, _) => SetEnforcementEffect(v, t, caller, r, w, fates.change, valid, sid);
      case _ =>
    }
  }

  /** How one credential can come, go and change during a request. */
  ghost predicate RecordExplained(v: Vault, u: Vault, t: Table, caller: Caller, r: Request, w: World, fates: Fates,
                                  valid: Vault -> bool, sid: Sid, id: string) {
    var h := HoldingOf(AccountOf(v, sid));
    var before, after := RecordIn(h.credentials, id), RecordIn(HoldingOf(AccountOf(u, sid)).credentials, id);
    && (before.None? && after.Some? ==> after.value.credentialId == id && Enrols(t, caller, r, w, sid, after.value))
    && (before.Some? && after.None? ==>
          RemovesDirectly(caller, r, w, sid, id) || RemovesBySession(h, t, caller, r, w, sid, id))
    && (before.Some? && after.Some? ==>
          after == if CounterReachesDisk(v, t, caller, r, w, fates, valid)
                   then Recounted(before, AssertedCounter(h, t, caller, r, w, sid, id))
                   else before)
  }

  lemma CommitRecord(v: Vault, t: Table, caller: Caller, r: Request, w: World, fates: Fates, valid: Vault -> bool,
                     sid: Sid, id: string)
    requires valid(v) && r.CommitRegistration?
    ensures
      var u := Serve(v, t, caller, r, w, fates, valid).vault;
      RecordExplained(v, u, t, caller, r, w, fates, valid, sid, id)
  {
    CommitEffect(v, t, caller, r, w, fates.change, valid, sid, id);
  }

  lemma FinishAuthRecord(v: Vault, t: Table, caller: Caller, r: Request, w: World, fates: Fates, valid: Vault -> bool,
                         sid: Sid, id: string)
    requires valid(v) && r.FinishAuth?
    ensures
      var u := Serve(v, t, caller, r, w, fates, valid).vault;
      RecordExplained(v, u, t, caller, r, w, fates, valid, sid, id)
  {
    var session := SessionOf(t, caller, r, w);
    if session.Some? { HeldAfterAssertion(v, session.value, r.assertion, w.lib, fates.counter, valid, sid, id); }
  }

  lemma RemovableIsAuthenticated(v: Vault, caller: Caller, sid: Sid, username: string, password: string,
                                 credentialId: Option<string>, w: World)
    requires Removable(v, caller, sid, username, password, credentialId, w).Success?
    ensures credentialId.Some? && SameText(caller.sid, sid)
      && KnowsPassword(caller, sid, username, password, w)
  {
  }

  lemma DirectRemovalEffect(v: Vault, t: Table, caller: Caller, r: Request, w: World, fate: SaveFate,
                            valid: Vault -> bool, sid: Sid, id: string)
    requires Trusted(valid) && valid(v) && r.RemoveWithPassword?
    ensures
      var u := AfterRemoveWithPassword(v, t, caller, r, w, fate, valid).vault;
      var before, after := RecordIn(HoldingOf(AccountOf(v, sid)).credentials, id),
        RecordIn(HoldingOf(AccountOf(u, sid)).credentials, id);
      after == before || (after.None? && RemovesDirectly(caller, r, w, sid, id))
  {
    if Removable(v, caller, r.sid, r.username, r.password, r.credentialId, w).Success? {
      RemovableIsAuthenticated(v, caller, r.sid, r.username, r.password, r.credentialId, w);
      RemovalEffect(v, r.sid, r.credentialId.value, fate, valid, sid, id);
    }
  }

  lemma DirectRemovalRecord(v: Vault, t: Table, caller: Caller, r: Request, w: World, fates: Fates,
                            valid: Vault -> bool, sid: Sid, id: string)
    requires Trusted(valid) && valid(v) && r.RemoveWithPassword?
    ensures
      var u := Serve(v, t, caller, r, w, fates, valid).vault;
      RecordExplained(v, u, t, caller, r, w, fates, valid, sid, id)
  {
    DirectRemovalEffect(v, t, caller, r, w, fates.change, valid, sid, id);
  }

  /** The two saves of finish_remove: the counter, then the removal. */
  function CountThenRemove(v: Vault, session: Session, assertion: Option<Assertion>, lib: Library, fates: Fates,
                           valid: Vault -> bool): Vault {
    var (counted, error) := AfterAssertion(v, session, assertion, lib, fates.counter, valid);
    if error.Some? then counted
    else
      var removed := WithoutCredential(counted, session.targetSid, session.credentialToRemove);
      AfterSave(counted, removed, fates.change, valid).0
  }

  lemma CountThenRemoveEffect(v: Vault, session: Session, assertion: Option<Assertion>, lib: Library, fates: Fates,
                              valid: Vault -> bool, sid: Sid, id: string)
    requires Trusted(valid) && valid(v)
    ensures
      var u := CountThenRemove(v, session, assertion, lib, fates, valid);
      var h := HoldingOf(AccountOf(v, sid));
      var before, after := RecordIn(h.credentials, id), RecordIn(HoldingOf(AccountOf(u, sid)).credentials, id);
      || after == (if CountIsSaved(v, session, assertion, lib, fates.counter, valid)
                   then Recounted(before, VerifiedCounter(h, session, assertion, lib, sid, id))
                   else before)
      || (after.None? && SameText(session.targetSid, sid) && session.credentialToRemove == id
           && Counted(v, session, assertion, lib).Success?)
  {
    HeldAfterAssertion(v, session, assertion, lib, fates.counter, valid, sid, id);
    var (counted, error) := AfterAssertion(v, session, assertion, lib, fates.counter, valid);
    if error.None? {
      RemovalEffect(counted, session.targetSid, session.credentialToRemove, fates.change, valid, sid, id);
    }
  }

  lemma FinishRemoveRecord(v: Vault, t: Table, caller: Caller, r: Request, w: World, fates: Fates, valid: Vault -> bool,
                           sid: Sid, id: string)
    requires Trusted(valid) && valid(v) && r.FinishRemove?
    ensures
      var u := Serve(v, t, caller, r, w, fates, valid).vault;
      RecordExplained(v, u, t, caller, r, w, fates, valid, sid, id)
  {
    var session := SessionOf(t, caller, r, w);
    if session.Some? {
      CountThenRemoveEffect(v, session.value, r.assertion, w.lib, fates, valid, sid, id);
      assert AfterFinishRemove(v, t, caller, r, w, fates, valid).vault
        == CountThenRemove(v, session.value, r.assertion, w.lib, fates, valid);
      if Counted(v, session.value, r.assertion, w.lib).Success? {
        CountedIsVerified(v, session.value, r.assertion, w.lib);
        if SameText(session.value.targetSid, sid) { SameMatch(v.accounts, session.value.targetSid, sid); }
      }
    }
  }

  lemma SetEnforcementRecord(v: Vault, t: Table, caller: Caller, r: Request, w: World, fates: Fates,
                             valid: Vault -> bool, sid: Sid, id: string)
    requires Trusted(valid) && valid(v) && r.SetEnforcement?
    ensures
      var u := Serve(v, t, caller, r, w, fates, valid).vault;
      RecordExplained(v, u, t, caller, r, w, fates, valid, sid, id)
  {
    SetEnforcementEffect(v, t, caller, r, w, fates.change, valid, sid);
  }

  lemma ServedRecord(v: Vault, t: Table, caller: Caller, r: Request, w: World, fates: Fates, valid: Vault -> bool,
                     sid: Sid, id: string)
    requires Trusted(valid) && valid(v)
    ensures
      var u := Serve(v, t, caller, r, w, fates, valid).vault;
      RecordExplained(v, u, t, caller, r, w, fates, valid, sid, id)
  {
    match r {
      case FinishAuth(_, _) => FinishAuthRecord(v, t, caller, r, w, fates, valid, sid, id);
      case CommitRegistration(_, _) => CommitRecord(v, t, caller, r, w, fates, valid, sid, id);
      case RemoveWithPassword(_, _, _, _) => DirectRemovalRecord(v, t, caller, r, w, fates, valid, sid, id);
      case FinishRemove(_, _) => FinishRemoveRecord(v, t, caller, r, w, fates, valid, sid, id);
      case SetEnforcement(_, _, _, _, _) => SetEnforcementRecord(v, t, caller, r, w, fates, valid, sid, id);
      case _ =>
    }
  }

  // ----- What an accepted request has done -----

  /** An accepted removal has removed the named credential, which was there. */
  lemma DoneRemoves(v: Vault, target: Sid, credentialId: string, fate: SaveFate, valid: Vault -> bool)
    requires Trusted(valid) && valid(v) && AfterSave(v, WithoutCredential(v, target, credentialId), fate, valid).1
    ensures
      var u := AfterSave(v, WithoutCredential(v, target, credentialId), fate, valid).0;
      var before, after := HoldingOf(AccountOf(v, target)), HoldingOf(AccountOf(u, target));
      && RecordIn(before.credentials, credentialId).Some? && RecordIn(after.credentials, credentialId).None?
      && |after.credentials| == |before.credentials| - 1
  {
    RemovalHolding(v, target, credentialId, target, credentialId);
    RemovalIsUpsert(v, target, credentialId);
    var a := v.accounts[FindAccount(v.accounts, target)];
    HeldAfterUpsert(v, a.(credentials := Dropped(a.credentials, FindCredential(a.credentials, credentialId))), target);
  }

  lemma DoneRemoveWithPassword(v: Vault, t: Table, caller: Caller, r: Request, w: World, fates: Fates,
                               valid: Vault -> bool)
    requires Trusted(valid) && valid(v) && r.RemoveWithPassword?
      && Serve(v, t, caller, r, w, fates, valid).reply == Done
    ensures r.credentialId.Some?
    ensures
      var u := Serve(v, t, caller, r, w, fates, valid).vault;
      && RecordIn(HoldingOf(AccountOf(v, r.sid)).credentials, r.credentialId.value).Some?
      && RecordIn(HoldingOf(AccountOf(u, r.sid)).credentials, r.credentialId.value).None?
  {
    DoneRemoves(v, r.sid, r.credentialId.value, fates.change, valid);
  }

  /** An accepted removal by key has removed the credential named by its session,
      which was there, on an assertion that verifies for a credential of the account. */
  lemma DoneFinishRemove(v: Vault, t: Table, caller: Caller, r: Request, w: World, fates: Fates, valid: Vault -> bool)
    requires Trusted(valid) && valid(v) && r.FinishRemove?
      && AfterFinishRemove(v, t, caller, r, w, fates, valid).reply == Done
    ensures SessionOf(t, caller, r, w).Some? && r.assertion.Some? && |r.assertion.value.items| == 1
    ensures
      var u, session := AfterFinishRemove(v, t, caller, r, w, fates, valid).vault, SessionOf(t, caller, r, w).value;
      var before, after := HoldingOf(AccountOf(v, session.targetSid)), HoldingOf(AccountOf(u, session.targetSid));
      && RecordIn(before.credentials, session.credentialToRemove).Some?
      && RecordIn(after.credentials, session.credentialToRemove).None?
      && VerifiedCounter(before, session, r.assertion, w.lib, session.targetSid,
                         r.assertion.value.items[0].credentialId).Some?
  {
    var session := SessionOf(t, caller, r, w).value;
    HeldAfterAssertion(v, session, r.assertion, w.lib, fates.counter, valid, session.targetSid,
                       session.credentialToRemove);
    var counted := AfterAssertion(v, session, r.assertion, w.lib, fates.counter, valid).0;
    DoneRemoves(counted, session.targetSid, session.credentialToRemove, fates.change, valid);
    CountedIsVerified(v, session, r.assertion, w.lib);
  }

  /** An accepted policy change has set the flag and nothing else of the account. */
  lemma DoneSetsPolicy(v: Vault, t: Table, caller: Caller, r: Request, w: World, fate: SaveFate, valid: Vault -> bool)
    requires r.SetEnforcement? && AfterSetEnforcement(v, t, caller, r, w, fate, valid).reply == Done
    ensures r.enabled.Some? && AccountOf(v, r.sid).Some?
    ensures
      var u := AfterSetEnforcement(v, t, caller, r, w, fate, valid).vault;
      AccountOf(u, r.sid) == Some(AccountOf(v, r.sid).value.(enforced := r.enabled.value))
  {
    EnforcementIsUpsert(v, r.sid, r.enabled.value);
    var a := v.accounts[FindAccount(v.accounts, r.sid)];
    AccountAfterUpsert(v, a.(enforced := r.enabled.value), r.sid);
  }

  /** An accepted registration has appended its credential to the account, under
      the name that the password check resolved, with the policy as it was. */
  lemma RegisteredAppends(v: Vault, t: Table, caller: Caller, r: Request, w: World, fate: SaveFate,
                          valid: Vault -> bool)
    returns (result: RegistrationResult)
    requires r.CommitRegistration? && AfterCommitRegistration(v, t, caller, r, w, fate, valid).reply.Registered?
    ensures SessionOf(t, caller, r, w).Some? && r.payload.Some?
    ensures
      var e, session, payload := AfterCommitRegistration(v, t, caller, r, w, fate, valid),
        SessionOf(t, caller, r, w).value, r.payload.value;
      var before, after := HoldingOf(AccountOf(v, session.targetSid)), AccountOf(e.vault, session.targetSid);
      && RegistrationHolds(session.challenge, session.rpId, session.origin, payload.attestationObject,
                           payload.clientDataJson, w.lib, result)
      && after.Some? && after.value.username == session.username
      && |after.value.credentials| == |before.credentials| + 1
      && after.value.credentials[..|before.credentials|] == before.credentials
      && Stores(after.value.credentials[|before.credentials|], result, session, w)
      && after.value.enforced == before.enforced
      && e.reply.count == |before.credentials| + 1 <= MAX_CREDENTIALS
  {
    var session := SessionOf(t, caller, r, w).value;
    var a := Enrolling(v, session, r.payload, w).value;
    var payload := r.payload.value;
    result := VerifyRegistration(session.challenge, session.rpId, session.origin, payload.attestationObject,
                                 payload.clientDataJson, w.lib).value;
    RegistrationIff(session.challenge, session.rpId, session.origin, payload.attestationObject, payload.clientDataJson,
                    w.lib, result);
    EnrollingTargets(v, session, r.payload, w);
    AccountAfterUpsert(v, a, session.targetSid);
  }

  // ----- The session table -----

  /** The session a request asks for, if it gets that far. */
  function Offered(v: Vault, caller: Caller, r: Request, w: World): Option<Session> {
    match r
    case BeginAuth(sid) =>
      if !caller.isSystem && !SameText(caller.sid, sid) then None
      else if !HoldingOf(AccountOf(v, sid)).enforced || CredentialsOf(AccountOf(v, sid)) == [] then None
      else Some(NewSession(Authentication, caller, sid, v, w))
    case BeginTest(sid) =>
      if !caller.isSystem && !SameText(caller.sid, sid) then None
      else if CredentialsOf(AccountOf(v, sid)) == [] then None
      else Some(NewSession(Authentication, caller, sid, v, w))
    case BeginRegistration(sid, username, password, keyLabel) =>
      var name := Authenticated(caller, sid, username, password, w);
      if name.Failure? || |CredentialsOf(AccountOf(v, sid))| >= MAX_CREDENTIALS || CheckedLabel(keyLabel).None?
      then None
      else Some(RegistrationSession(v, caller, sid, name.value, CheckedLabel(keyLabel).value, w))
    case BeginRemove(sid, username, password, credentialId) =>
      var name := Removable(v, caller, sid, username, password, credentialId, w);
      if name.Failure? || credentialId.None? then None
      else Some(RemovalSession(v, caller, sid, name.value, credentialId.value, w))
    case _ => None
  }

  /** The session a request takes, accepted or not. */
  function Consumed(r: Request): Option<string> {
    match r
    case FinishAuth(id, _) => Some(id)
    case CommitRegistration(id, _) => Some(id)
    case FinishRemove(id, _) => Some(id)
    case _ => None
  }

  function KindTaken(r: Request): Kind {
    match r
    case CommitRegistration(_, _) => Registration
    case FinishRemove(_, _) => RemovalAuthorization
    case _ => Authentication
  }

  lemma AnsweredSessions(v: Vault, t: Table, caller: Caller, r: Request, w: World)
    requires Consumed(r).None?
    ensures Answer(v, t, caller, r, w).0
      == if Offered(v, caller, r, w).Some? then Put(t, Offered(v, caller, r, w).value, w.now, w.draw).0 else t
  {
  }

  /** The session table after a request depends only on what it takes or asks for. */
  lemma ServedSessions(v: Vault, t: Table, caller: Caller, r: Request, w: World, fates: Fates, valid: Vault -> bool)
    ensures Serve(v, t, caller, r, w, fates, valid).sessions
      == if Consumed(r).Some? then Take(t, Consumed(r).value, caller, KindTaken(r), w.now).0
         else if Offered(v, caller, r, w).Some? then Put(t, Offered(v, caller, r, w).value, w.now, w.draw).0
         else t
  {
    if Consumed(r).None? { AnsweredSessions(v, t, caller, r, w); }
  }

  lemma SessionIsTaken(t: Table, caller: Caller, r: Request, w: World)
    ensures SessionOf(t, caller, r, w)
      == if Consumed(r).Some? then Accepted(Take(t, Consumed(r).value, caller, KindTaken(r), w.now).1) else None
  {
  }

  /** The reply hands out the challenge of the session in the table and names all
      the credentials of its account. */
  predicate HandsOut(u: Table, reply: Reply, session: Session, v: Vault, w: World) {
    && (reply.Challenge? || reply.RegistrationChallenge?)
    && reply.sessionId in u && u[reply.sessionId] == session.(expiresAt := w.now + SESSION_LIFETIME)
    && reply.challenge == session.challenge && reply.rpId == session.rpId && reply.origin == session.origin
    && (if reply.Challenge? then reply.credentialIds else reply.exclude)
         == IdsOf(CredentialsOf(AccountOf(v, session.targetSid)))
  }

  lemma ChallengedHandsOut(v: Vault, t: Table, session: Session, w: World)
    ensures
      var (u, reply) := Challenged(t, session, CredentialsOf(AccountOf(v, session.targetSid)), w);
      reply.Challenge? ==> HandsOut(u, reply, session, v, w)
  {
  }

  lemma RegistrationHandsOut(v: Vault, t: Table, caller: Caller, r: Request, w: World)
    requires r.BeginRegistration?
    ensures
      var (u, reply) := AfterBeginRegistration(v, t, caller, r, w);
      reply.RegistrationChallenge? ==>
        Offered(v, caller, r, w).Some? && HandsOut(u, reply, Offered(v, caller, r, w).value, v, w)
  {
  }

  lemma ChallengeIsOutstanding(v: Vault, t: Table, caller: Caller, r: Request, w: World)
    ensures
      var (u, reply) := Answer(v, t, caller, r, w);
      reply.Challenge? || reply.RegistrationChallenge? ==>
        Offered(v, caller, r, w).Some? && HandsOut(u, reply, Offered(v, caller, r, w).value, v, w)
  {
    match r {
      case BeginAuth(sid) => ChallengedHandsOut(v, t, NewSession(Authentication, caller, sid, v, w), w);
      case BeginTest(sid) => ChallengedHandsOut(v, t, NewSession(Authentication, caller, sid, v, w), w);
      case BeginRegistration(_, _, _, _) => RegistrationHandsOut(v, t, caller, r, w);
      case BeginRemove(_, _, _, _) =>
        if Offered(v, caller, r, w).Some? { ChallengedHandsOut(v, t, Offered(v, caller, r, w).value, w); }
      case _ =>
    }
  }

  /** What was checked before a session was offered: the password for
      registrations and removals, the caller for authentications. */
  predicate CheckedFor(session: Session, caller: Caller, r: Request, w: World) {
    && session.callerSid == caller.sid && session.challenge == w.challenge
    && session.origin == "https://" + session.rpId
    && match session.kind {
         case Authentication =>
           && (r.BeginAuth? || r.BeginTest?) && session.targetSid == r.sid
           && (caller.isSystem || SameText(caller.sid, r.sid))
         case Registration =>
           && r.BeginRegistration? && session.targetSid == r.sid && SameText(caller.sid, r.sid)
           && KnowsPassword(caller, r.sid, r.username, r.password, w)
           && session.username == w.accountOf(r.username).value.name
           && CheckedLabel(r.keyLabel) == Some(session.keyLabel)
         case RemovalAuthorization =>
           && r.BeginRemove? && session.targetSid == r.sid && SameText(caller.sid, r.sid)
           && KnowsPassword(caller, r.sid, r.username, r.password, w)
           && session.username == w.accountOf(r.username).value.name
           && r.credentialId == Some(session.credentialToRemove)
       }
  }

  lemma OfferedIsChecked(v: Vault, caller: Caller, r: Request, w: World)
    requires Offered(v, caller, r, w).Some?
    ensures
      var session := Offered(v, caller, r, w).value;
      CheckedFor(session, caller, r, w) && session.rpId == v.rpId && session.origin == OriginOf(v)
  {
  }
}
