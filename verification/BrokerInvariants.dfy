/** Invariants of the vault over whole runs of the Broker, and when the vault that
    a registration builds can be stored. */
module BrokerInvariants {
  import opened Basics
  import opened Broker
  import opened BrokerRuns
  import opened BrokerSteps
  import opened CredentialStore
  import opened FidoVerifier
  import opened Sessions
  import opened VaultChanges
  import opened Vaults
  import Base64
  import SignInPolicy

  // ----- Which identifiers a change adds and takes away -----

  lemma Cancel(a: multiset<string>, b: multiset<string>, x: multiset<string>)
    requires a + x == b + x
    ensures a == b
  {
    assert a == (a + x) - x;
    assert b == (b + x) - x;
  }

  lemma SameIdsSameBag(v: Vault, sid: Sid, was: AccountRecord, a: AccountRecord)
    requires AccountOf(v, sid) == Some(was) && a.sid == was.sid && IdsOf(a.credentials) == IdsOf(was.credentials)
    ensures IdBag(Upserted(v, a).accounts) == IdBag(v.accounts)
  {
    SameMatch(v.accounts, sid, was.sid);
    BagAfterUpsert(v, a);
    Cancel(IdBag(Upserted(v, a).accounts), IdBag(v.accounts), multiset(IdsOf(was.credentials)));
  }

  lemma CountedKeepsAccount(v: Vault, session: Session, assertion: Option<Assertion>, lib: Library)
    requires Counted(v, session, assertion, lib).Success?
    ensures AccountOf(v, session.targetSid).Some?
    ensures
      var a, was := Counted(v, session, assertion, lib).value, AccountOf(v, session.targetSid).value;
      && a == was.(credentials := a.credentials) && |a.credentials| == |was.credentials|
      && forall i ::
           0 <= i < |a.credentials| ==> a.credentials[i] == was.credentials[i].(signCount := a.credentials[i].signCount)
  {
  }

  lemma CountKeepsIds(v: Vault, session: Session, assertion: Option<Assertion>, lib: Library)
    requires Counted(v, session, assertion, lib).Success?
    ensures IdBag(Upserted(v, Counted(v, session, assertion, lib).value).accounts) == IdBag(v.accounts)
  {
    CountedKeepsAccount(v, session, assertion, lib);
    SameIdsSameBag(v, session.targetSid, AccountOf(v, session.targetSid).value,
                   Counted(v, session, assertion, lib).value);
  }

  lemma EnforcementKeepsIds(v: Vault, sid: Sid, enforced: bool)
    requires WithEnforcement(v, sid, enforced).Some?
    ensures IdBag(WithEnforcement(v, sid, enforced).value.accounts) == IdBag(v.accounts)
  {
    EnforcementIsUpsert(v, sid, enforced);
    var was := v.accounts[FindAccount(v.accounts, sid)];
    SameIdsSameBag(v, sid, was, was.(enforced := enforced));
  }

  /** A removal takes one identifier out of the vault: the named one. */
  lemma RemovalTakesOne(v: Vault, sid: Sid, id: string)
    requires WithoutCredential(v, sid, id).Some?
    ensures id in IdBag(v.accounts)
      && IdBag(WithoutCredential(v, sid, id).value.accounts) == IdBag(v.accounts) - multiset{id}
  {
    RemovalIsUpsert(v, sid, id);
    var was := v.accounts[FindAccount(v.accounts, sid)];
    var c := FindCredential(was.credentials, id);
    SameMatch(v.accounts, sid, was.sid);
    BagAfterUpsert(v, was.(credentials := Dropped(was.credentials, c)));
    IdsAfterDrop(was.credentials, c);
    assert IdsOf(was.credentials)[c] == id;
    InBagIffInUse(v.accounts, id);
    var after, before, ids := IdBag(WithoutCredential(v, sid, id).value.accounts), IdBag(v.accounts),
      multiset(IdsOf(was.credentials));
    assert after + ids == before + (ids - multiset{id}) == (before - multiset{id}) + ids;
    Cancel(after, before - multiset{id}, ids);
  }

  /** A registration adds one identifier, which no account held before. */
  lemma RegistrationAddsOne(v: Vault, session: Session, r: RegistrationResult, utcNow: string)
    requires Enrolled(v, session, r, utcNow).Success?
    ensures r.credentialId !in IdBag(v.accounts)
    ensures IdBag(Upserted(v, Enrolled(v, session, r, utcNow).value).accounts)
      == IdBag(v.accounts) + multiset{r.credentialId}
  {
    var a, base := Enrolled(v, session, r, utcNow).value, Receiving(v, session);
    SameMatch(v.accounts, session.targetSid, a.sid);
    BagAfterUpsert(v, a);
    InBagIffInUse(v.accounts, r.credentialId);
    IdsAfterAppend(base.credentials, NewRecord(r, session.keyLabel, utcNow));
    var after, before, ids := IdBag(Upserted(v, a).accounts), IdBag(v.accounts), multiset(IdsOf(base.credentials));
    assert CredentialsOf(AccountOf(v, a.sid)) == base.credentials;
    assert after + ids == before + (ids + multiset{r.credentialId}) == (before + multiset{r.credentialId}) + ids;
    Cancel(after, before + multiset{r.credentialId}, ids);
  }

  lemma EnrollingIsEnrolled(v: Vault, session: Session, payload: Payload, w: World) returns (r: RegistrationResult)
    requires Enrolling(v, session, Some(payload), w).Success?
    ensures VerifyRegistration(session.challenge, session.rpId, session.origin, payload.attestationObject,
                               payload.clientDataJson, w.lib) == Success(r)
    ensures Enrolling(v, session, Some(payload), w) == Enrolled(v, session, r, w.utcNow)
  {
    r := VerifyRegistration(session.challenge, session.rpId, session.origin, payload.attestationObject,
                            payload.clientDataJson, w.lib).value;
  }

  ghost predicate DistinctIn(loaded: Result<Vault, nat>) {
    loaded.Success? ==> GloballyDistinct(loaded.value.accounts)
  }

  lemma SubBagIsDistinct(accounts: seq<AccountRecord>, fewer: seq<AccountRecord>)
    requires GloballyDistinct(accounts) && IdBag(fewer) <= IdBag(accounts)
    ensures GloballyDistinct(fewer)
  {
  }

  lemma DistinctAfterRefresh(loaded: Result<Vault, nat>, w: World, fate: RefreshFate, valid: Vault -> bool)
    requires DistinctIn(loaded)
    ensures DistinctIn(AfterRefresh(loaded, w, fate, valid).0)
  {
    var base := BaseOf(loaded, w.newId);
    if base.Some? && RefreshedVault(base.value, w.resolveSid).Some? {
      BagAfterRefresh(base.value.accounts, w.resolveSid);
      SubBagIsDistinct(base.value.accounts, RefreshedVault(base.value, w.resolveSid).value.accounts);
    }
  }

  lemma DistinctAfterAssertion(v: Vault, session: Session, assertion: Option<Assertion>, lib: Library, fate: SaveFate,
                               valid: Vault -> bool)
    requires GloballyDistinct(v.accounts)
    ensures GloballyDistinct(AfterAssertion(v, session, assertion, lib, fate, valid).0.accounts)
  {
    if Counted(v, session, assertion, lib).Success? { CountKeepsIds(v, session, assertion, lib); }
  }

  lemma DistinctAfterRemoval(v: Vault, sid: Sid, id: string, fate: SaveFate, valid: Vault -> bool)
    requires GloballyDistinct(v.accounts)
    ensures GloballyDistinct(AfterSave(v, WithoutCredential(v, sid, id), fate, valid).0.accounts)
  {
    if WithoutCredential(v, sid, id).Some? { RemovalTakesOne(v, sid, id); }
  }

  lemma DistinctAfterEnforcement(v: Vault, sid: Sid, enforced: bool, fate: SaveFate, valid: Vault -> bool)
    requires GloballyDistinct(v.accounts)
    ensures GloballyDistinct(AfterSave(v, WithEnforcement(v, sid, enforced), fate, valid).0.accounts)
  {
    if WithEnforcement(v, sid, enforced).Some? { EnforcementKeepsIds(v, sid, enforced); }
  }

  lemma DistinctAfterEnrolling(v: Vault, session: Session, payload: Payload, w: World)
    requires GloballyDistinct(v.accounts) && Enrolling(v, session, Some(payload), w).Success?
    ensures GloballyDistinct(Upserted(v, Enrolling(v, session, Some(payload), w).value).accounts)
  {
    var result := EnrollingIsEnrolled(v, session, payload, w);
    RegistrationAddsOne(v, session, result, w.utcNow);
  }

  lemma DistinctAfterCommit(v: Vault, t: Table, caller: Caller, r: Request, w: World, fate: SaveFate,
                            valid: Vault -> bool)
    requires GloballyDistinct(v.accounts) && r.CommitRegistration?
    ensures GloballyDistinct(AfterCommitRegistration(v, t, caller, r, w, fate, valid).vault.accounts)
  {
    var session := SessionOf(t, caller, r, w);
    if session.Some? && Enrolling(v, session.value, r.payload, w).Success? {
      DistinctAfterEnrolling(v, session.value, r.payload.value, w);
    }
  }

  lemma DistinctAfterFinishRemove(v: Vault, t: Table, caller: Caller, r: Request, w: World, fates: Fates,
                                  valid: Vault -> bool)
    requires GloballyDistinct(v.accounts) && r.FinishRemove?
    ensures GloballyDistinct(AfterFinishRemove(v, t, caller, r, w, fates, valid).vault.accounts)
  {
    var session := SessionOf(t, caller, r, w);
    if session.Some? {
      DistinctAfterAssertion(v, session.value, r.assertion, w.lib, fates.counter, valid);
      var counted := AfterAssertion(v, session.value, r.assertion, w.lib, fates.counter, valid).0;
      DistinctAfterRemoval(counted, session.value.targetSid, session.value.credentialToRemove, fates.change, valid);
    }
  }

  lemma DistinctAfterServe(v: Vault, t: Table, caller: Caller, r: Request, w: World, fates: Fates, valid: Vault -> bool)
    requires GloballyDistinct(v.accounts)
    ensures GloballyDistinct(Serve(v, t, caller, r, w, fates, valid).vault.accounts)
  {
    match r {
      case FinishAuth(_, assertion) =>
        var session := SessionOf(t, caller, r, w);
        if session.Some? { DistinctAfterAssertion(v, session.value, assertion, w.lib, fates.counter, valid); }
      case CommitRegistration(_, _) => DistinctAfterCommit(v, t, caller, r, w, fates.change, valid);
      case RemoveWithPassword(sid, _, _, id) =>
        if id.Some? { DistinctAfterRemoval(v, sid, id.value, fates.change, valid); }
      case FinishRemove(_, _) => DistinctAfterFinishRemove(v, t, caller, r, w, fates, valid);
      case SetEnforcement(sid, _, _, _, _) =>
        var enabled := PolicyChange(caller, r, w);
        if enabled.Success? { DistinctAfterEnforcement(v, sid, enabled.value, fates.change, valid); }
      case _ =>
    }
  }

  lemma DistinctAfterStep(s: State, e: Event, valid: Vault -> bool)
    requires DistinctIn(s.loaded)
    ensures DistinctIn(Next(s, e, valid).loaded)
  {
    DistinctAfterRefresh(s.loaded, e.world, if e.Restart? then e.fate else e.fates.refresh, valid);
    var v := Working(s, e, valid);
    if v.Some? {
      DistinctAfterServe(v.value, s.sessions, e.caller, e.request, e.world, e.fates, valid);
    }
  }

  lemma DistinctNext(run: Run, valid: Vault -> bool, k: nat)
    requires IsRun(run, valid) && k < |run.events| && DistinctIn(run.states[k].loaded)
    ensures DistinctIn(run.states[k + 1].loaded)
  {
    assert Follows(run, valid, k);
    DistinctAfterStep(run.states[k], run.events[k], valid);
  }

  lemma {:induction false} AlwaysDistinct(run: Run, valid: Vault -> bool, k: nat)
    requires IsRun(run, valid) && DistinctIn(run.states[0].loaded) && k < |run.states|
    ensures DistinctIn(run.states[k].loaded)
  {
    if k > 0 {
      AlwaysDistinct(run, valid, k - 1);
      DistinctNext(run, valid, k - 1);
    }
  }

  // ----- What the invariant means -----

  lemma {:induction false} OneOfMany<T>(s: seq<T>, i: nat, f: T -> multiset<string>, id: string)
    requires i < |s|
    ensures Sum(s, f)[id] >= f(s[i])[id]
  {
    if i > 0 { OneOfMany(s[1..], i - 1, f, id); }
  }

  lemma {:induction false} TwoOfMany<T>(s: seq<T>, i: nat, j: nat, f: T -> multiset<string>, id: string)
    requires i < j < |s|
    ensures Sum(s, f)[id] >= f(s[i])[id] + f(s[j])[id]
  {
    if i == 0 { OneOfMany(s[1..], j - 1, f, id); } else { TwoOfMany(s[1..], i - 1, j - 1, f, id); }
  }

  lemma HasItsIds(account: AccountRecord, c: nat)
    requires c < |account.credentials|
    ensures IdsIn(account)[account.credentials[c].credentialId] >= 1
  {
    assert IdsOf(account.credentials)[c] in multiset(IdsOf(account.credentials));
  }

  /** Two credentials of different accounts never have the same identifier. */
  lemma DistinctAcrossAccounts(accounts: seq<AccountRecord>, i: nat, j: nat, a: nat, b: nat)
    requires GloballyDistinct(accounts) && i < j < |accounts| && a < |accounts[i].credentials|
      && b < |accounts[j].credentials|
    ensures accounts[i].credentials[a].credentialId != accounts[j].credentials[b].credentialId
  {
    var id := accounts[i].credentials[a].credentialId;
    HasItsIds(accounts[i], a);
    HasItsIds(accounts[j], b);
    TwoOfMany(accounts, i, j, IdsIn, id);
    assert IdBag(accounts)[id] <= 1;
  }

  function IdOctets(v: Vault, i: nat, a: nat): Base64.Bytes
    requires i < |v.accounts| && a < |v.accounts[i].credentials|
  {
    Base64.UrlDecode(v.accounts[i].credentials[a].credentialId)
  }

  lemma IdNotEmpty(v: Vault, sidOk: Sid -> bool, i: nat, a: nat)
    requires ValidVault(v, sidOk) && i < |v.accounts| && a < |v.accounts[i].credentials|
    ensures IdOctets(v, i, a) != []
  {
    assert ValidAccount(v.accounts[i], sidOk);
    assert ValidCredential(v.accounts[i].credentials[a]);
  }

  /** From a fresh disk, or from any vault without a repeated identifier, every
      vault that ever loads is valid and no two of its credentials stand for the
      same octets, under any interleaving of callers and sessions. */
  lemma VaultInvariant(run: Run, sidOk: Sid -> bool, k: nat, i: nat, a: nat, j: nat, b: nat)
    requires IsRun(run, ValidFor(sidOk)) && DistinctIn(run.states[0].loaded) && k < |run.states|
    requires run.states[k].loaded.Success?
    requires var accounts := run.states[k].loaded.value.accounts;
      i < |accounts| && j < |accounts| && a < |accounts[i].credentials| && b < |accounts[j].credentials|
    ensures ValidVault(run.states[k].loaded.value, sidOk)
    ensures IdOctets(run.states[k].loaded.value, i, a) == IdOctets(run.states[k].loaded.value, j, b) ==>
      i == j && a == b
  {
    var v := run.states[k].loaded.value;
    AlwaysLoadsValid(run, ValidFor(sidOk), k);
    AlwaysDistinct(run, ValidFor(sidOk), k);
    IdNotEmpty(v, sidOk, i, a);
    IdNotEmpty(v, sidOk, j, b);
    Base64.UrlTextsAreCanonicalNames(v.accounts[i].credentials[a].credentialId,
                                     v.accounts[j].credentials[b].credentialId);
    if i < j { DistinctAcrossAccounts(v.accounts, i, j, a, b); }
    else if j < i { DistinctAcrossAccounts(v.accounts, j, i, b, a); }
    else { assert ValidAccount(v.accounts[i], sidOk); }
  }

  // ----- Storing a registration -----

  /** What commit_registration takes from the session and the clock, apart from
      the registration itself, fits the vault. */
  predicate RoomFor(v: Vault, session: Session, utcNow: string, sidOk: Sid -> bool) {
    && (AccountOf(v, session.targetSid).Some? || |v.accounts| < 1024)
    && 1 <= |session.targetSid| <= 184 && sidOk(session.targetSid)
    && |session.username| <= 256 && |utcNow| <= 64
    && 1 <= |session.keyLabel| <= 128 && Printable(session.keyLabel)
  }

  /** The label of every registration session fits. */
  lemma CheckedLabelFits(requested: Option<string>)
    requires CheckedLabel(requested).Some?
    ensures 1 <= |CheckedLabel(requested).value| <= 128 && Printable(CheckedLabel(requested).value)
  {
  }

  lemma NewRecordIsValid(r: RegistrationResult, keyLabel: string, utcNow: string)
    requires Storable(r) && 1 <= |keyLabel| <= 128 && Printable(keyLabel) && |utcNow| <= 64
    ensures ValidCredential(NewRecord(r, keyLabel, utcNow)) <==> |Base64.UrlDecode(r.cosePublicKey)| <= 1024
  {
  }

  lemma AppendedAll<T>(s: seq<T>, x: T, p: T -> bool)
    requires All(s, p)
    ensures All(s + [x], p) <==> p(x)
  {
    assert (s + [x])[|s|] == x;
  }

  lemma AppendedDistinct(cs: seq<CredentialRecord>, c: CredentialRecord)
    requires DistinctIds(cs) && c.credentialId !in IdsOf(cs)
    ensures DistinctIds(cs + [c])
  {
    forall i | 0 <= i < |cs|
      ensures cs[i].credentialId != c.credentialId
    {
      assert IdsOf(cs)[i] == cs[i].credentialId;
    }
  }

  lemma ReceivingIsValid(v: Vault, session: Session, utcNow: string, sidOk: Sid -> bool)
    requires ValidVault(v, sidOk) && RoomFor(v, session, utcNow, sidOk)
    ensures ValidAccount(Receiving(v, session), sidOk)
  {
    var k := FindAccount(v.accounts, session.targetSid);
    if k < |v.accounts| { assert ValidAccount(v.accounts[k], sidOk); }
  }

  lemma FreeForReceiver(v: Vault, session: Session, id: string)
    requires !IdInUse(v.accounts, id)
    ensures id !in IdsOf(Receiving(v, session).credentials)
  {
    var k := FindAccount(v.accounts, session.targetSid);
    if k < |v.accounts| { assert id !in IdsOf(v.accounts[k].credentials); }
  }

  lemma EnrolledIsValid(v: Vault, session: Session, r: RegistrationResult, utcNow: string, sidOk: Sid -> bool)
    requires ValidVault(v, sidOk) && RoomFor(v, session, utcNow, sidOk) && Storable(r)
      && Enrolled(v, session, r, utcNow).Success?
    ensures ValidAccount(Enrolled(v, session, r, utcNow).value, sidOk) <==> |Base64.UrlDecode(r.cosePublicKey)| <= 1024
  {
    var record, cs := NewRecord(r, session.keyLabel, utcNow), Receiving(v, session).credentials;
    ReceivingIsValid(v, session, utcNow, sidOk);
    FreeForReceiver(v, session, r.credentialId);
    NewRecordIsValid(r, session.keyLabel, utcNow);
    AppendedAll(cs, record, ValidCredential);
    AppendedDistinct(cs, record);
  }

  lemma UpsertedIsValid(v: Vault, a: AccountRecord, sidOk: Sid -> bool)
    requires ValidVault(v, sidOk) && (AccountOf(v, a.sid).Some? || |v.accounts| < 1024)
    ensures ValidVault(Upserted(v, a), sidOk) <==> ValidAccount(a, sidOk)
  {
    var k, after := FindAccount(v.accounts, a.sid), Upserted(v, a).accounts;
    assert after[k] == a;
    forall i, j | 0 <= i < j < |after|
      ensures !SameText(after[i].sid, after[j].sid)
    {
      assert k < |v.accounts| ==> Fold(v.accounts[k].sid) == Fold(a.sid);
    }
  }

  /** When everything else fits, the vault that commit_registration builds from a
      verified registration can be stored exactly when its public key has at most
      1024 octets, which nothing checks before the save. */
  lemma AcceptedRegistrationIsStorable(v: Vault, session: Session, payload: Payload, w: World, sidOk: Sid -> bool)
    requires ValidVault(v, sidOk) && RoomFor(v, session, w.utcNow, sidOk)
      && Enrolling(v, session, Some(payload), w).Success?
    ensures
      var result := VerifyRegistration(session.challenge, session.rpId, session.origin, payload.attestationObject,
                                       payload.clientDataJson, w.lib);
      result.Success? && (ValidVault(Upserted(v, Enrolling(v, session, Some(payload), w).value), sidOk)
                          <==> |Base64.UrlDecode(result.value.cosePublicKey)| <= 1024)
  {
    var result := EnrollingIsEnrolled(v, session, payload, w);
    AcceptedRegistration(session.challenge, session.rpId, session.origin, payload.attestationObject,
                         payload.clientDataJson, w.lib);
    StorableWhenRoomFor(v, session, result, w.utcNow, sidOk);
  }

  lemma StorableWhenRoomFor(v: Vault, session: Session, result: RegistrationResult, utcNow: string, sidOk: Sid -> bool)
    requires ValidVault(v, sidOk) && RoomFor(v, session, utcNow, sidOk) && Storable(result)
      && Enrolled(v, session, result, utcNow).Success?
    ensures ValidVault(Upserted(v, Enrolled(v, session, result, utcNow).value), sidOk) <==>
      |Base64.UrlDecode(result.cosePublicKey)| <= 1024
  {
    var a := Enrolled(v, session, result, utcNow).value;
    EnrolledIsValid(v, session, result, utcNow, sidOk);
    SameMatch(v.accounts, session.targetSid, a.sid);
    UpsertedIsValid(v, a, sidOk);
  }

  // ----- Policy -----

  /** After a refresh begin_auth is never refused as inconsistent: it demands MFA
      of an enforced account and waives it for every other. */
  lemma BeginAuthIsDecided(v: Vault, t: Table, caller: Caller, sid: Sid, w: World)
    requires Orderly(v) && (caller.isSystem || SameText(caller.sid, sid))
    ensures
      var reply := AfterBeginAuth(v, t, caller, sid, w).1;
      && reply != Refused(PolicyInconsistent) && reply != Refused(NoCredentials)
      && (reply == NotEnforced <==> !SignInPolicy.EnforcedIn(v, sid))
  {
    var d := Disk(Absent, Absent, Absent, Absent, ListOf(v), None);
    forall i | 0 <= i < |v.accounts|
      ensures v.accounts[i].sid != ""
    {
      assert OrderlyAccount(v.accounts[i]);
    }
    SignInPolicy.PublishedListIsExact(d, v, sid);
    OrderlyHolding(v, sid);
  }

  // ----- When the stored counter is that of the last accepted assertion -----

  /** While some account is enforced, an answered request stores exactly the counter
      that it accepts. */
  lemma EnforcingVaultTracksAcceptance(s: State, e: Event, valid: Vault -> bool, sid: Sid, id: string)
    requires e.Call? && Working(s, e, valid).Some? && AnyEnforced(Working(s, e, valid).value.accounts)
    ensures CounterStored(s, e, valid, sid, id) == AcceptedCounter(s, e, valid, sid, id)
  {
    StoredUnlessUnanswered(s, e, valid, sid, id);
    var v, session := Working(s, e, valid).value, UsedBy(s, e, valid);
    if CounterStored(s, e, valid, sid, id).Some? {
      CountKeepsPolicy(v, session.value, AssertionOf(e.request), e.world.lib);
    }
  }

  lemma CountKeepsPolicy(v: Vault, session: Session, assertion: Option<Assertion>, lib: Library)
    requires Counted(v, session, assertion, lib).Success?
    ensures AnyEnforced(Upserted(v, Counted(v, session, assertion, lib).value).accounts) <==> AnyEnforced(v.accounts)
  {
    CountedKeepsAccount(v, session, assertion, lib);
    var a := Counted(v, session, assertion, lib).value;
    SameMatch(v.accounts, session.targetSid, a.sid);
    forall i | 0 <= i < |v.accounts|
      ensures Upserted(v, a).accounts[i].enforced == v.accounts[i].enforced
    {
    }
  }

  lemma CountKeepsValid(v: Vault, session: Session, assertion: Option<Assertion>, lib: Library, sidOk: Sid -> bool)
    requires ValidVault(v, sidOk) && Counted(v, session, assertion, lib).Success?
    ensures ValidVault(Upserted(v, Counted(v, session, assertion, lib).value), sidOk)
  {
    CountedKeepsAccount(v, session, assertion, lib);
    var a, was := Counted(v, session, assertion, lib).value, AccountOf(v, session.targetSid).value;
    var k := FindAccount(v.accounts, session.targetSid);
    assert ValidAccount(v.accounts[k], sidOk);
    RecountedIsValid(was, a, sidOk);
    SameMatch(v.accounts, session.targetSid, a.sid);
    UpsertedIsValid(v, a, sidOk);
  }

  lemma RecountedIsValid(was: AccountRecord, a: AccountRecord, sidOk: Sid -> bool)
    requires ValidAccount(was, sidOk) && a == was.(credentials := a.credentials) && |a.credentials| == |was.credentials|
    requires forall i ::
      0 <= i < |a.credentials| ==> a.credentials[i] == was.credentials[i].(signCount := a.credentials[i].signCount)
    ensures ValidAccount(a, sidOk)
  {
    forall i | 0 <= i < |a.credentials|
      ensures ValidCredential(a.credentials[i])
    {
      assert ValidCredential(was.credentials[i]);
    }
  }

  lemma VerifiedIsCounted(v: Vault, session: Session, assertion: Option<Assertion>, lib: Library, sid: Sid, id: string)
    requires VerifiedCounter(HoldingOf(AccountOf(v, sid)), session, assertion, lib, sid, id).Some?
    ensures Counted(v, session, assertion, lib).Success?
  {
    SameMatch(v.accounts, session.targetSid, sid);
  }

  /** When the counter takes effect without being accepted, or nothing is done
      after it, the request ends with exactly the counter stored. */
  lemma StopsAtCounter(v: Vault, t: Table, caller: Caller, r: Request, w: World, fates: Fates, valid: Vault -> bool)
    requires SessionOf(t, caller, r, w).Some? && (r.FinishAuth? || r.FinishRemove?) && fates.change.Undone?
    requires CountIsSaved(v, SessionOf(t, caller, r, w).value, AssertionOf(r), w.lib, fates.counter, valid)
    ensures
      var a := Counted(v, SessionOf(t, caller, r, w).value, AssertionOf(r), w.lib).value;
      Serve(v, t, caller, r, w, fates, valid).vault == Upserted(v, a)
  {
  }

  /** The event is the request after this refresh: answered, or crashed if the
      process may crash. */
  ghost predicate Attempt(e: Event, caller: Caller, r: Request, w: World, refresh: RefreshFate, mayCrash: bool) {
    && (e.Call? || (mayCrash && e.Crash?))
    && e.caller == caller && e.request == r && e.world == w && e.fates.refresh == refresh
  }

  /** An attempt that stores the counter and nothing after it, unaccepted. */
  lemma UnansweredCount(s: State, e: Event, sidOk: Sid -> bool, sid: Sid, id: string)
    requires LoadsValid(s.loaded, ValidFor(sidOk)) && Working(s, e, ValidFor(sidOk)).Some?
      && !Unmaps(s.loaded, e.world, sid)
    requires e.fates.change.Undone?
    requires (e.Crash? && e.fates.counter.Commits?)
      || (e.Call? && e.fates.counter.Kept? && !AnyEnforced(Working(s, e, ValidFor(sidOk)).value.accounts))
    requires WouldVerify(s, e.caller, e.request, e.world, sid, id).Some?
    requires WouldVerify(s, e.caller, e.request, e.world, sid, id).value != RecordOf(s.loaded, sid, id).value.signCount
    ensures Untracked(s, e, ValidFor(sidOk), sid, id)
  {
    var valid := ValidFor(sidOk);
    var v, session := Working(s, e, valid).value, UsedBy(s, e, valid).value;
    IsVaultValidIsTrusted(sidOk);
    HeldAfterRefresh(s.loaded, e.world, e.fates.refresh, valid, sid);
    VerifiedIsCounted(v, session, AssertionOf(e.request), e.world.lib, sid, id);
    CountKeepsValid(v, session, AssertionOf(e.request), e.world.lib, sidOk);
    CountKeepsPolicy(v, session, AssertionOf(e.request), e.world.lib);
    StopsAtCounter(v, s.sessions, e.caller, e.request, e.world, e.fates, valid);
    HeldAfterCount(v, session, AssertionOf(e.request), e.world.lib, sid, id);
  }

  lemma AnsweredIsTracked(s: State, e: Event, sidOk: Sid -> bool, sid: Sid, id: string)
    requires LoadsValid(s.loaded, ValidFor(sidOk)) && !Unmaps(s.loaded, e.world, sid)
    requires e.Call? && Working(s, e, ValidFor(sidOk)).Some?
      && AnyEnforced(Working(s, e, ValidFor(sidOk)).value.accounts)
    ensures !Untracked(s, e, ValidFor(sidOk), sid, id)
  {
    var valid := ValidFor(sidOk);
    IsVaultValidIsTrusted(sidOk);
    StepRecord(s, e, valid, sid, id);
    EnforcingVaultTracksAcceptance(s, e, valid, sid, id);
  }

  /** Before a request that will verify with a new counter for a credential of a
      known account: its saves can end so that the stored counter is not that of the
      last accepted assertion exactly when no account is enforced, or the process
      may crash. */
  lemma UntrackedIff(s: State, caller: Caller, r: Request, w: World, refresh: RefreshFate, sidOk: Sid -> bool, sid: Sid,
                     id: string, mayCrash: bool)
    requires LoadsValid(s.loaded, ValidFor(sidOk)) && !Unmaps(s.loaded, w, sid)
    requires AfterRefresh(s.loaded, w, refresh, ValidFor(sidOk)).1
    requires WouldVerify(s, caller, r, w, sid, id).Some?
    requires WouldVerify(s, caller, r, w, sid, id).value != RecordOf(s.loaded, sid, id).value.signCount
    ensures (exists e :: Attempt(e, caller, r, w, refresh, mayCrash) && Untracked(s, e, ValidFor(sidOk), sid, id))
      <==> mayCrash || !AnyEnforced(AfterRefresh(s.loaded, w, refresh, ValidFor(sidOk)).0.value.accounts)
  {
    var valid := ValidFor(sidOk);
    var v := AfterRefresh(s.loaded, w, refresh, valid).0.value;
    if mayCrash {
      var e := Crash(caller, r, w, Fates(refresh, Commits, Undone));
      UnansweredCount(s, e, sidOk, sid, id);
      assert Attempt(e, caller, r, w, refresh, mayCrash);
    } else if !AnyEnforced(v.accounts) {
      var e := Call(caller, r, w, Fates(refresh, Kept, Undone));
      UnansweredCount(s, e, sidOk, sid, id);
      assert Attempt(e, caller, r, w, refresh, mayCrash);
    } else {
      forall e | Attempt(e, caller, r, w, refresh, mayCrash)
        ensures !Untracked(s, e, valid, sid, id)
      {
        AnsweredIsTracked(s, e, sidOk, sid, id);
      }
    }
  }

  /** Over any interval without a crash in which every working vault enforces some
      account, the stored counter is that of the last accepted assertion. */
  lemma EnforcingRunTracksAcceptance(run: Run, valid: Vault -> bool, i: nat, k: nat, sid: Sid, id: string)
    requires IsRun(run, valid) && i <= k < |run.states| && StaysRegistered(run, i, k, sid, id)
    requires forall m: nat :: i <= m < k ==> EnforcesWithoutCrash(run, valid, m)
    ensures RisesTo(CountersHeld(run, sid, id)(i), Last(AcceptedCounters(run, valid, sid, id), i, k),
                    CountersHeld(run, sid, id)(k))
  {
    forall m: nat | i <= m < k
      ensures !StoresUnanswered(run, valid, m, sid, id)
    {
      assert EnforcesWithoutCrash(run, valid, m);
      NothingUnanswered(run, valid, m, sid, id);
    }
    StoredIsLastAccepted(run, valid, i, k, sid, id);
  }

  predicate EnforcesWithoutCrash(run: Run, valid: Vault -> bool, m: nat) {
    && m < |run.events| < |run.states| && !run.events[m].Crash?
    && (Working(run.states[m], run.events[m], valid).Some? ==>
          AnyEnforced(Working(run.states[m], run.events[m], valid).value.accounts))
  }

  lemma NothingUnanswered(run: Run, valid: Vault -> bool, m: nat, sid: Sid, id: string)
    requires EnforcesWithoutCrash(run, valid, m)
    ensures !StoresUnanswered(run, valid, m, sid, id)
  {
    var s, e := run.states[m], run.events[m];
    if Working(s, e, valid).Some? {
      EnforcingVaultTracksAcceptance(s, e, valid, sid, id);
      StoredUnlessUnanswered(s, e, valid, sid, id);
    }
  }
}
