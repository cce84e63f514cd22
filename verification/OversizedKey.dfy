/** A registration that the verifier accepts although no vault can hold it: its
    public key is a map with one more pair, which the verifier ignores, and takes
    1025 octets. */
module OversizedKey {
  import opened Base64
  import opened Basics
  import opened Broker
  import opened BrokerInvariants
  import opened BrokerRuns
  import opened BrokerSteps
  import opened CoseKey
  import opened CredentialStore
  import opened FidoVerifier
  import opened Sessions
  import opened Vaults
  import KeptCounter

  // ----- The key -----

  function Zeros(n: nat): Bytes { KeptCounter.Zeros(n) }

  /** The pair after the standard ones: label -5 and a string of 944 octets. */
  function Extra(): Pair {
    Pair(NegativeInt(4), ByteString(Zeros(944)))
  }

  /** The CBOR form of the key: a map of six pairs. */
  function KeyOctets(): (b: Bytes)
    ensures |b| == 1025
  {
    [0xA6, 0x01, 0x02, 0x03, 0x26, 0x20, 0x01]
    + [0x21, 0x58, 0x20] + Zeros(32)
    + [0x22, 0x58, 0x20] + Zeros(32)
    + [0x24, 0x59, 0x03, 0xB0] + Zeros(944)
  }

  /** A decoder that reads the octets `key`, and nothing else. */
  function ReaderOf(key: Bytes): CborReader {
    var f := (b: Bytes) =>
      if b == key then CborLoad.Loaded(CborItem.Map(StandardKey(Zeros(32), Zeros(32)) + [Extra()]), |b|) else NoItem;
    f
  }

  // ----- The ceremony -----

  /** Authenticator data up to the identifier: the hash, the flags for a user who is
      present and verified and for attested data, counter 0, an AAGUID of zeros,
      and the length 1. */
  function Head(): Bytes {
    Zeros(32) + [0x45, 0, 0, 0, 0] + Zeros(16) + [0, 1]
  }

  const ID: Bytes := [7]

  /** A library for which the attestation object is the authenticator data `authData`. */
  function TheLibrary(key: Bytes, authData: Bytes, challenge: string, origin: string): Library {
    Library(
      _ => Some(Zeros(32)), ReaderOf(key), _ => Some(ClientData("webauthn.create", challenge, origin, false)),
      (_, _, _) => Some(Attestation("none", false, authData, ID)), (_, _, _, _, _) => false)
  }

  lemma KeyIsRead(key: Bytes, authData: Bytes, challenge: string, origin: string)
    ensures PublicKeyOf(key, TheLibrary(key, authData, challenge, origin)).Some?
  {
    StandardKeyAccepted(Zeros(32), Zeros(32), [Extra()]);
  }

  lemma HeadIsAccepted(rest: Bytes, rpId: string, lib: Library)
    requires lib.sha256(rpId) == Some(Zeros(32))
    ensures VerifyAuthenticatorData(Head() + rest, rpId, lib) == Success(0)
  {
    var data := Head() + rest;
    assert data[..32] == Zeros(32) && data[32] == 0x45;
    assert data[33] == data[34] == data[35] == data[36] == 0;
  }

  lemma DataIsAccepted(key: Bytes, rpId: string, challenge: string, origin: string) returns (r: RegistrationResult)
    requires key != []
    ensures
      var data := Head() + ID + key;
      RegistrationFrom(data, ID, rpId, TheLibrary(key, data, challenge, origin)) == Success(r)
    ensures r.cosePublicKey == UrlEncode(key, false)
  {
    var head, data := Head(), Head() + ID + key;
    var lib := TheLibrary(key, data, challenge, origin);
    assert data == head + (ID + key);
    HeadIsAccepted(ID + key, rpId, lib);
    KeyIsRead(key, data, challenge, origin);
    assert |head| == 55 && head[32] == 0x45 && head[53] == 0 && head[54] == 1;
    LaidOutIsExtracted(head, ID, key, lib);
    r := ResultOf(data, AttestedCredential(ID, key), 0);
  }

  lemma DecodedIsAccepted(attested: Bytes, authData: Bytes, challenge: string, rpId: string, origin: string,
                          lib: Library)
    requires attested != [] && VerifyClientData(lib.clientData(attested), "webauthn.create", challenge, origin)
    requires lib.attestation(attested, rpId, attested) == Some(Attestation("none", false, authData, ID))
    ensures VerifyDecoded(challenge, rpId, origin, attested, attested, lib) == RegistrationFrom(authData, ID, rpId, lib)
  {
  }

  lemma TextIsAccepted(text: string, authData: Bytes, challenge: string, rpId: string, origin: string, lib: Library)
    requires UrlDecode(text) != []
      && VerifyClientData(lib.clientData(UrlDecode(text)), "webauthn.create", challenge, origin)
    requires lib.attestation(UrlDecode(text), rpId, UrlDecode(text)) == Some(Attestation("none", false, authData, ID))
    ensures VerifyRegistration(challenge, rpId, origin, text, text, lib) == RegistrationFrom(authData, ID, rpId, lib)
  {
    DecodedIsAccepted(UrlDecode(text), authData, challenge, rpId, origin, lib);
  }

  lemma CeremonyIsAccepted(key: Bytes, text: string, rpId: string, challenge: string, origin: string)
    returns (r: RegistrationResult)
    requires key != [] && UrlDecode(text) != []
    ensures
      var lib := TheLibrary(key, Head() + ID + key, challenge, origin);
      VerifyRegistration(challenge, rpId, origin, text, text, lib) == Success(r)
    ensures UrlDecode(r.cosePublicKey) == key
  {
    var data := Head() + ID + key;
    r := DataIsAccepted(key, rpId, challenge, origin);
    TextIsAccepted(text, data, challenge, rpId, origin, TheLibrary(key, data, challenge, origin));
    UrlDecodeInvertsUrlEncode(key);
  }

  // ----- The request -----

  /** A vault without accounts, as a new machine has it. */
  function FreshVault(): Vault {
    Vault(SCHEMA_VERSION, KeptCounter.MachineId(), RpIdOf(KeptCounter.MachineId()), [])
  }

  function TheWorld(key: Bytes): World {
    var lib := TheLibrary(key, Head() + ID + key, KeptCounter.CHALLENGE, OriginOf(FreshVault()));
    KeptCounter.TheWorld("").(lib := lib)
  }

  /** The session that begin_registration opens for the account "u". */
  function TheSession(key: Bytes): Session {
    RegistrationSession(FreshVault(), KeptCounter.CALLER, KeptCounter.ACCOUNT, "u", "key", TheWorld(key))
      .(expiresAt := SESSION_LIFETIME)
  }

  lemma FreshVaultIsValid(sidOk: Sid -> bool)
    ensures ValidVault(FreshVault(), sidOk)
  {
  }

  lemma SessionFits(v: Vault, sid: Sid, w: World, sidOk: Sid -> bool)
    requires |v.accounts| < 1024 && 1 <= |sid| <= 184 && sidOk(sid)
    ensures
      var session := RegistrationSession(v, KeptCounter.CALLER, sid, "u", "key", w);
      RoomFor(v, session.(expiresAt := SESSION_LIFETIME), "", sidOk)
  {
  }

  lemma TheSessionFits(key: Bytes, sidOk: Sid -> bool)
    requires sidOk(KeptCounter.ACCOUNT)
    ensures ValidVault(FreshVault(), sidOk) && RoomFor(FreshVault(), TheSession(key), "", sidOk)
  {
    FreshVaultIsValid(sidOk);
    SessionFits(FreshVault(), KeptCounter.ACCOUNT, TheWorld(key), sidOk);
  }

  lemma FirstIsEnrolled(v: Vault, session: Session, payload: Payload, w: World, result: RegistrationResult)
    requires v.accounts == []
    requires VerifyRegistration(session.challenge, session.rpId, session.origin, payload.attestationObject,
                                payload.clientDataJson, w.lib)
      == Success(result)
    ensures Enrolling(v, session, Some(payload), w).Success?
  {
  }

  lemma InvalidIsRefused(v: Vault, session: Session, payload: Payload, w: World, fate: SaveFate, valid: Vault -> bool)
    requires session.kind == Registration && session.callerSid == KeptCounter.CALLER.sid && session.expiresAt > w.now
    requires Enrolling(v, session, Some(payload), w).Success?
    requires !valid(Upserted(v, Enrolling(v, session, Some(payload), w).value))
    ensures
      var r := CommitRegistration(KeptCounter.SESSION_ID, Some(payload));
      AfterCommitRegistration(v, map[KeptCounter.SESSION_ID := session], KeptCounter.CALLER, r, w, fate, valid)
        == Effect(v, map[], Refused(NotSaved))
  {
    assert |KeptCounter.SESSION_ID| == 32;
    assert Without(map[KeptCounter.SESSION_ID := session], KeptCounter.SESSION_ID) == map[];
  }

  /** A key of more than 1024 octets verifies and is refused, whatever the fate of the save. */
  lemma CommitIsRefused(key: Bytes, text: string, fate: SaveFate, sidOk: Sid -> bool)
    returns (result: RegistrationResult)
    requires |key| > 1024 && UrlDecode(text) != [] && sidOk(KeptCounter.ACCOUNT)
    ensures
      var s := TheSession(key);
      VerifyRegistration(s.challenge, s.rpId, s.origin, text, text, TheWorld(key).lib) == Success(result)
    ensures UrlDecode(result.cosePublicKey) == key
    ensures
      var r := CommitRegistration(KeptCounter.SESSION_ID, Some(Payload(text, text)));
      AfterCommitRegistration(FreshVault(), map[KeptCounter.SESSION_ID := TheSession(key)], KeptCounter.CALLER, r,
                              TheWorld(key), fate, ValidFor(sidOk))
        == Effect(FreshVault(), map[], Refused(NotSaved))
  {
    var v, session, w := FreshVault(), TheSession(key), TheWorld(key);
    result := CeremonyIsAccepted(key, text, v.rpId, w.challenge, OriginOf(v));
    TheSessionFits(key, sidOk);
    FirstIsEnrolled(v, session, Payload(text, text), w, result);
    AcceptedRegistrationIsStorable(v, session, Payload(text, text), w, sidOk);
    InvalidIsRefused(v, session, Payload(text, text), w, fate, ValidFor(sidOk));
  }

  // ----- The run -----

  /** begin_registration by the account "u", and then commit_registration. */
  function Opening(w: World): Event {
    Call(KeptCounter.CALLER, BeginRegistration(KeptCounter.ACCOUNT, "u", "p", Some("key")), w,
         Fates(Refreshes, Undone, Undone))
  }

  function Commit(w: World, payload: Payload, fate: SaveFate): Event {
    Call(KeptCounter.CALLER, CommitRegistration(KeptCounter.SESSION_ID, Some(payload)), w,
         Fates(Refreshes, Undone, fate))
  }

  /** The session that the first request opens. */
  function Opens(v: Vault, w: World): Session {
    RegistrationSession(v, KeptCounter.CALLER, KeptCounter.ACCOUNT, "u", "key", w)
  }

  function Idle(v: Vault): State { State(Success(v), map[]) }

  function Waiting(v: Vault, w: World): State {
    State(Success(v), map[KeptCounter.SESSION_ID := Opens(v, w).(expiresAt := SESSION_LIFETIME)])
  }

  /** The two events in a row; the second leaves the vault as it was. */
  function RunOf(v: Vault, first: World, second: World, payload: Payload, fate: SaveFate): Run {
    Run([Idle(v), Waiting(v, first), Idle(v)], [Opening(first), Commit(second, payload, fate)])
  }

  predicate LetsIn(w: World) {
    && Authenticated(KeptCounter.CALLER, KeptCounter.ACCOUNT, "u", "p", w) == Success("u")
    && w.userId != "" && w.challenge != "" && w.now == 0 && w.draw(0) == KeptCounter.SESSION_ID
  }

  predicate RefreshesTo(v: Vault, w: World, valid: Vault -> bool) {
    AfterRefresh(Success(v), w, Refreshes, valid) == (Success(v), true)
  }

  lemma RegistrationOpens(v: Vault, w: World)
    requires LetsIn(w) && v.accounts == [] && v.rpId != ""
    ensures
      var (t, reply) := AfterBeginRegistration(v, map[], KeptCounter.CALLER, Opening(w).request, w);
      reply.RegistrationChallenge? && t == Waiting(v, w).sessions
  {
    assert CheckedLabel(Some("key")) == Some("key");
    KeptCounter.SessionIsStored(Opens(v, w), w);
  }

  lemma ServedIsHandled(s: State, e: Event, v: Vault, valid: Vault -> bool)
    requires e.Call? && AfterRefresh(s.loaded, e.world, e.fates.refresh, valid) == (Success(v), true)
    ensures
      var served := Serve(v, s.sessions, e.caller, e.request, e.world, e.fates, valid);
      Handled(s, e.caller, e.request, e.world, e.fates, valid)
        == (State(Success(served.vault), served.sessions), served.reply)
  {
  }

  lemma OpeningStep(v: Vault, w: World, valid: Vault -> bool)
    requires LetsIn(w) && v.accounts == [] && v.rpId != "" && RefreshesTo(v, w, valid)
    ensures
      var e := Opening(w);
      var (s, reply) := Handled(Idle(v), e.caller, e.request, e.world, e.fates, valid);
      s == Waiting(v, w) && reply.RegistrationChallenge?
  {
    RegistrationOpens(v, w);
    ServedIsHandled(Idle(v), Opening(w), v, valid);
  }

  /** The effect of a commit that changes nothing but the table. */
  ghost predicate EndsRefused(s: State, e: Event, v: Vault, valid: Vault -> bool) {
    && e.Call? && e.request.CommitRegistration?
    && AfterCommitRegistration(v, s.sessions, e.caller, e.request, e.world, e.fates.change, valid)
         == Effect(v, map[], Refused(NotSaved))
  }

  lemma CommitServes(v: Vault, t: Table, caller: Caller, r: Request, w: World, fates: Fates, valid: Vault -> bool)
    requires r.CommitRegistration?
    ensures Serve(v, t, caller, r, w, fates, valid)
      == AfterCommitRegistration(v, t, caller, r, w, fates.change, valid)
  {
  }

  lemma CommitStep(s: State, e: Event, v: Vault, valid: Vault -> bool)
    requires EndsRefused(s, e, v, valid)
    requires AfterRefresh(s.loaded, e.world, e.fates.refresh, valid) == (Success(v), true)
    ensures Handled(s, e.caller, e.request, e.world, e.fates, valid) == (Idle(v), Refused(NotSaved))
  {
    CommitServes(v, s.sessions, e.caller, e.request, e.world, e.fates, valid);
    ServedIsHandled(s, e, v, valid);
  }

  lemma CommitUses(v: Vault, first: World, w: World, payload: Payload, fate: SaveFate, valid: Vault -> bool)
    requires RefreshesTo(v, w, valid) && w.now == 0
    ensures UsedBy(Waiting(v, first), Commit(w, payload, fate), valid)
      == Some(Opens(v, first).(expiresAt := SESSION_LIFETIME))
  {
    assert |KeptCounter.SESSION_ID| == 32;
  }

  /** A registration is opened with the password, its ceremony verifies with this
      result, and it is refused, which leaves everything as it was. */
  ghost predicate VerifiedAndRefused(run: Run, result: RegistrationResult, valid: Vault -> bool) {
    && IsRun(run, valid) && |run.events| == 2 && run.events[0].Call? && run.events[1].Call?
    && var opening, commit, used := run.events[0], run.events[1], UsedBy(run.states[1], run.events[1], valid);
    && opening.request.BeginRegistration? && commit.request.CommitRegistration?
    && Handled(run.states[0], opening.caller, opening.request, opening.world, opening.fates, valid).1
         .RegistrationChallenge?
    && used.Some? && commit.request.payload.Some?
    && var session, payload := used.value, commit.request.payload.value;
    && VerifyRegistration(session.challenge, session.rpId, session.origin, payload.attestationObject,
                          payload.clientDataJson, commit.world.lib)
         == Success(result)
    && Handled(run.states[1], commit.caller, commit.request, commit.world, commit.fates, valid)
         == (run.states[0], Refused(NotSaved))
  }

  lemma RunIsRefused(v: Vault, first: World, w: World, payload: Payload, fate: SaveFate, valid: Vault -> bool,
                     result: RegistrationResult)
    requires Trusted(valid) && valid(v) && v.accounts == [] && v.rpId != ""
    requires LetsIn(first) && RefreshesTo(v, first, valid) && RefreshesTo(v, w, valid) && w.now == 0
    requires
      var s := Opens(v, first);
      VerifyRegistration(s.challenge, s.rpId, s.origin, payload.attestationObject, payload.clientDataJson, w.lib)
        == Success(result)
    requires EndsRefused(Waiting(v, first), Commit(w, payload, fate), v, valid)
    ensures VerifiedAndRefused(RunOf(v, first, w, payload, fate), result, valid)
  {
    OpeningStep(v, first, valid);
    CommitStep(Waiting(v, first), Commit(w, payload, fate), v, valid);
    CommitUses(v, first, w, payload, fate, valid);
    var run := RunOf(v, first, w, payload, fate);
    forall k: nat | k < 2
      ensures Follows(run, valid, k)
    {
      assert k == 0 || k == 1;
    }
  }

  /** The world in which the account opens its session: its password is right. */
  function OpeningWorld(key: Bytes): World {
    TheWorld(key).(accountOf := _ => Some(LocalAccount("u", KeptCounter.ACCOUNT)), passwordOk := (_, _) => true,
                   userId := "AAAA")
  }

  lemma OpeningWorldLetsIn(key: Bytes)
    ensures LetsIn(OpeningWorld(key)) && TheWorld(key).now == 0 && FreshVault().rpId != ""
    ensures Opens(FreshVault(), OpeningWorld(key)).(expiresAt := SESSION_LIFETIME) == TheSession(key)
  {
  }

  lemma NothingToRefresh(w: World, sidOk: Sid -> bool)
    ensures RefreshesTo(FreshVault(), w, ValidFor(sidOk))
  {
    FreshVaultIsValid(sidOk);
    KeptCounter.RefreshChangesNothing(FreshVault(), w, ValidFor(sidOk));
  }

  lemma RunWith(key: Bytes, text: string, fate: SaveFate, sidOk: Sid -> bool) returns (result: RegistrationResult)
    requires |key| > 1024 && UrlDecode(text) != [] && sidOk(KeptCounter.ACCOUNT)
    ensures
      var run := RunOf(FreshVault(), OpeningWorld(key), TheWorld(key), Payload(text, text), fate);
      VerifiedAndRefused(run, result, ValidFor(sidOk))
    ensures UrlDecode(result.cosePublicKey) == key
  {
    IsVaultValidIsTrusted(sidOk);
    FreshVaultIsValid(sidOk);
    OpeningWorldLetsIn(key);
    NothingToRefresh(OpeningWorld(key), sidOk);
    NothingToRefresh(TheWorld(key), sidOk);
    result := CommitIsRefused(key, text, fate, sidOk);
    RunIsRefused(FreshVault(), OpeningWorld(key), TheWorld(key), Payload(text, text), fate, ValidFor(sidOk), result);
  }

  /** For the key above: a run from an empty vault in which the ceremony verifies with
      a key of 1025 octets, and the registration is refused whatever the fate of its
      save. */
  lemma OversizedKeyIsRefused(fate: SaveFate, sidOk: Sid -> bool) returns (run: Run, result: RegistrationResult)
    requires sidOk(KeptCounter.ACCOUNT)
    ensures VerifiedAndRefused(run, result, ValidFor(sidOk)) && run.events[1].fates.change == fate
    ensures |UrlDecode(result.cosePublicKey)| == 1025
  {
    var one: Bytes := [1];
    var text := UrlEncode(one, false);
    UrlDecodeInvertsUrlEncode(one);
    var key := KeyOctets();
    result := RunWith(key, text, fate, sidOk);
    run := RunOf(FreshVault(), OpeningWorld(key), TheWorld(key), Payload(text, text), fate);
  }
}
