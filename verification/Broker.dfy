/** What the Broker does with one request: the specification of every operation,
    as a function of the vault that loads, the session table and the answers of
    the operating system. BrokerProcess.BrokerService carries the operations out
    step by step. */
module Broker {
  import opened Basics
  import opened CredentialStore
  import opened FidoVerifier
  import opened Sessions
  import opened Vaults
  import MultiString

  datatype LocalAccount = LocalAccount(name: string, sid: Sid)

  /** What the world answers during one request: the clock, the random
      generator, account resolution, password validation, installed credential
      filters, hashing and signatures. */
  datatype World = World(
    now: int,
    newId: string,
    resolveSid: Sid -> Resolution,
    accountOf: string -> Option<LocalAccount>,
    passwordOk: (string, string) -> bool,
    filterConflict: bool,
    filterError: bool,
    challenge: string,
    draw: nat -> Identifier,
    userId: string,
    utcNow: string,
    lib: Library)

  datatype Payload = Payload(attestationObject: string, clientDataJson: string)

  /** Parsed requests. A field is optional where the program reads it only after
      something else has happened; `Unsupported` is any other request. */
  datatype Request =
    | Status(sid: Sid)
    | BeginAuth(sid: Sid)
    | FinishAuth(sessionId: string, assertion: Option<Assertion>)
    | BeginTest(sid: Sid)
    | BeginRegistration(sid: Sid, username: string, password: string, keyLabel: Option<string>)
    | CommitRegistration(sessionId: string, payload: Option<Payload>)
    | BeginRemove(sid: Sid, username: string, password: string, credentialId: Option<string>)
    | RemoveWithPassword(sid: Sid, username: string, password: string, credentialId: Option<string>)
    | FinishRemove(sessionId: string, assertion: Option<Assertion>)
    | SetEnforcement(sid: Sid, username: string, password: string, enabled: Option<bool>, allowFilterConflict: bool)
    | Unsupported

  datatype Error =
    | RefreshFailed | VaultUnavailable | AccessDenied | PolicyInconsistent | NoCredentials | NotThisAccount
    | WrongPassword | TooManyCredentials | BadLabel | NotRegistered | LastCredential | NoUserHandle
    | MissingField | AlreadyRegistered | NotSaved | NotElevated | FilterConflict | FilterUnknown | UnknownOperation
    | OfSession(session: SessionError)
    | OfCeremony(refusal: Refusal)

  datatype Reply =
    | Refused(error: Error)
    | Done
    | AccountStatus(account: Option<AccountRecord>)
    | NotEnforced
    | Challenge(sessionId: string, challenge: string, rpId: string, origin: string, credentialIds: seq<string>)
    | RegistrationChallenge(sessionId: string, challenge: string, rpId: string, origin: string, userId: string,
                            exclude: seq<string>)
    | Registered(count: nat)

  datatype State = State(loaded: Result<Vault, nat>, sessions: Table)

  /** What a request leaves behind once the vault is loaded. */
  datatype Effect = Effect(vault: Vault, sessions: Table, reply: Reply)

  // ----- Saving -----

  /** How a save can end: done; failed with the old vault in place; failed with
      the new vault in place, when an undo step failed as well. The last cannot
      happen to a vault that enforces some account. */
  datatype SaveFate = Commits | Undone | Kept

  predicate TakesEffect(changed: Vault, fate: SaveFate, valid: Vault -> bool) {
    valid(changed) && !fate.Undone? && !(fate.Kept? && AnyEnforced(changed.accounts))
  }

  function AfterSave(v: Vault, changed: Option<Vault>, fate: SaveFate, valid: Vault -> bool): (Vault, bool) {
    if changed.None? || !TakesEffect(changed.value, fate, valid) then (v, false) else (changed.value, fate.Commits?)
  }

  /** How a refresh can end: in step; failed with the vault untouched, with a
      fresh one created, or with the refreshed one in place. */
  datatype RefreshFate = Refreshes | StaysPut | LeavesFresh | KeepsRefreshed

  function AfterRefresh(loaded: Result<Vault, nat>, w: World, fate: RefreshFate,
                        valid: Vault -> bool): (r: (Result<Vault, nat>, bool))
    ensures r.1 ==> r.0.Success?
  {
    var base := BaseOf(loaded, w.newId);
    var changed := Changed(base, Refreshing(w.resolveSid));
    if fate.StaysPut? || base.None? || !valid(base.value) then (loaded, false)
    else if fate.LeavesFresh? || changed.None? || !valid(changed.value) then (Success(base.value), false)
    else (Success(changed.value), fate.Refreshes?)
  }

  datatype Fates = Fates(refresh: RefreshFate, counter: SaveFate, change: SaveFate)

  // ----- The operations -----

  function OriginOf(v: Vault): string { "https://" + v.rpId }

  function IdsOf(cs: seq<CredentialRecord>): (ids: seq<string>)
    ensures |ids| == |cs| && forall i :: 0 <= i < |cs| ==> ids[i] == cs[i].credentialId
  {
    seq(|cs|, i requires 0 <= i < |cs| => cs[i].credentialId)
  }

  function CredentialsOf(account: Option<AccountRecord>): seq<CredentialRecord> {
    if account.None? then [] else account.value.credentials
  }

  /** The registry, in step with the vault, lists the account. */
  predicate ListedFor(v: Vault, sid: Sid) {
    exists s :: s in MultiString.Parse(ListOf(v)) && SameText(s, sid)
  }

  function NewSession(kind: Kind, caller: Caller, sid: Sid, v: Vault, w: World): Session {
    Session(kind, caller.sid, sid, "", w.challenge, v.rpId, OriginOf(v), "", "", 0)
  }

  /** BrokerService.cpp, CheckedLabel. */
  function CheckedLabel(requested: Option<string>): Option<string> {
    var keyLabel := if requested.None? || requested.value == "" then "Security key" else requested.value;
    if |keyLabel| > 128 || !Printable(keyLabel) then None else Some(keyLabel)
  }

  /** The caller is the account it names and knows its password: yields the
      resolved account name. */
  function Authenticated(caller: Caller, sid: Sid, username: string, password: string,
                         w: World): Result<string, Error> {
    var local := w.accountOf(username);
    if !SameText(caller.sid, sid) then Failure(AccessDenied)
    else if local.None? || !SameText(sid, local.value.sid) then Failure(NotThisAccount)
    else if !w.passwordOk(local.value.name, password) then Failure(WrongPassword)
    else Success(local.value.name)
  }

  function Challenged(t: Table, session: Session, cs: seq<CredentialRecord>, w: World): (Table, Reply) {
    var (u, id) := Put(t, session, w.now, w.draw);
    (u, if id.Failure? then Refused(OfSession(id.error))
        else Challenge(id.value, session.challenge, session.rpId, session.origin, IdsOf(cs)))
  }

  function StatusOf(v: Vault, caller: Caller, sid: Sid): Reply {
    if !caller.isSystem && !caller.isElevatedAdmin && !SameText(caller.sid, sid) then Refused(AccessDenied)
    else AccountStatus(AccountOf(v, sid))
  }

  function AfterBeginAuth(v: Vault, t: Table, caller: Caller, sid: Sid, w: World): (Table, Reply) {
    var account := AccountOf(v, sid);
    if !caller.isSystem && !SameText(caller.sid, sid) then (t, Refused(AccessDenied))
    else if account.None? || !account.value.enforced then
      (t, if ListedFor(v, sid) then Refused(PolicyInconsistent) else NotEnforced)
    else if account.value.credentials == [] then (t, Refused(NoCredentials))
    else Challenged(t, NewSession(Authentication, caller, sid, v, w), account.value.credentials, w)
  }

  function AfterBeginTest(v: Vault, t: Table, caller: Caller, sid: Sid, w: World): (Table, Reply) {
    var cs := CredentialsOf(AccountOf(v, sid));
    if !caller.isSystem && !SameText(caller.sid, sid) then (t, Refused(AccessDenied))
    else if cs == [] then (t, Refused(NoCredentials))
    else Challenged(t, NewSession(Authentication, caller, sid, v, w), cs, w)
  }

  function RegistrationSession(v: Vault, caller: Caller, sid: Sid, name: string, keyLabel: string, w: World): Session {
    NewSession(Registration, caller, sid, v, w).(username := name, keyLabel := keyLabel)
  }

  function AfterBeginRegistration(v: Vault, t: Table, caller: Caller, r: Request, w: World): (Table, Reply)
    requires r.BeginRegistration?
  {
    var name := Authenticated(caller, r.sid, r.username, r.password, w);
    var cs, keyLabel := CredentialsOf(AccountOf(v, r.sid)), CheckedLabel(r.keyLabel);
    if name.Failure? then (t, Refused(name.error))
    else if |cs| >= MAX_CREDENTIALS then (t, Refused(TooManyCredentials))
    else if keyLabel.None? then (t, Refused(BadLabel))
    else
      var session := RegistrationSession(v, caller, r.sid, name.value, keyLabel.value, w);
      var (u, id) := Put(t, session, w.now, w.draw);
      (u, if id.Failure? then Refused(OfSession(id.error))
          else if w.userId == "" then Refused(NoUserHandle)
          else RegistrationChallenge(id.value, session.challenge, session.rpId, session.origin, w.userId, IdsOf(cs)))
  }

  /** The tests shared by begin_remove and remove_with_password: yields the
      resolved account name. */
  function Removable(v: Vault, caller: Caller, sid: Sid, username: string, password: string,
                     credentialId: Option<string>, w: World): Result<string, Error> {
    var name := Authenticated(caller, sid, username, password, w);
    var account := AccountOf(v, sid);
    if name.Failure? then name
    else if account.None? || account.value.credentials == [] then Failure(NoCredentials)
    else if account.value.enforced && |account.value.credentials| <= 1 then Failure(LastCredential)
    else if credentialId.None? then Failure(MissingField)
    else if credentialId.value !in IdsOf(account.value.credentials) then Failure(NotRegistered)
    else name
  }

  function RemovalSession(v: Vault, caller: Caller, sid: Sid, name: string, credentialId: string, w: World): Session {
    NewSession(RemovalAuthorization, caller, sid, v, w).(username := name, credentialToRemove := credentialId)
  }

  function AfterBeginRemove(v: Vault, t: Table, caller: Caller, r: Request, w: World): (Table, Reply)
    requires r.BeginRemove?
  {
    var name := Removable(v, caller, r.sid, r.username, r.password, r.credentialId, w);
    if name.Failure? then (t, Refused(name.error))
    else if r.credentialId.None? then (t, Refused(MissingField))
    else
      var session := RemovalSession(v, caller, r.sid, name.value, r.credentialId.value, w);
      Challenged(t, session, CredentialsOf(AccountOf(v, r.sid)), w)
  }

  /** BrokerService.cpp, VerifySessionAssertion up to the save: the account with
      the new signature counter. */
  function Counted(v: Vault, session: Session, assertion: Option<Assertion>,
                   lib: Library): Result<AccountRecord, Error> {
    var account := AccountOf(v, session.targetSid);
    if assertion.None? then Failure(MissingField)
    else if account.None? || account.value.credentials == [] then Failure(NoCredentials)
    else if |assertion.value.items| != 1 then Failure(OfCeremony(NotOneAssertion))
    else
      var cs := account.value.credentials;
      var c := FindCredential(cs, assertion.value.items[0].credentialId);
      if c == |cs| then Failure(NotRegistered)
      else
        var counter := VerifyAssertion(cs[c], session.challenge, session.rpId, session.origin, assertion.value, lib);
        if counter.Failure? then Failure(OfCeremony(counter.error))
        else Success(WithCounter(account.value, c, counter.value))
  }

  function WithCounter(a: AccountRecord, c: nat, counter: Counter): AccountRecord
    requires c < |a.credentials|
  {
    a.(credentials := a.credentials[c := a.credentials[c].(signCount := counter)])
  }

  /** Verifies an assertion and stores the counter; None when that succeeds. */
  function AfterAssertion(v: Vault, session: Session, assertion: Option<Assertion>, lib: Library, fate: SaveFate,
                          valid: Vault -> bool): (Vault, Option<Error>) {
    var account := Counted(v, session, assertion, lib);
    if account.Failure? then (v, Some(account.error))
    else
      var (u, ok) := AfterSave(v, Some(Upserted(v, account.value)), fate, valid);
      (u, if ok then None else Some(NotSaved))
  }

  function AfterFinishAuth(v: Vault, t: Table, caller: Caller, r: Request, w: World, fate: SaveFate,
                           valid: Vault -> bool): Effect
    requires r.FinishAuth?
  {
    var (u, session) := Take(t, r.sessionId, caller, Authentication, w.now);
    if session.Failure? then Effect(v, u, Refused(OfSession(session.error)))
    else
      var (after, error) := AfterAssertion(v, session.value, r.assertion, w.lib, fate, valid);
      Effect(after, u, if error.Some? then Refused(error.value) else Done)
  }

  function NewRecord(r: RegistrationResult, keyLabel: string, utcNow: string): CredentialRecord {
    CredentialRecord(r.credentialId, r.cosePublicKey, r.algorithm, r.aaguid, keyLabel, utcNow, r.signCount)
  }

  predicate IdInUse(accounts: seq<AccountRecord>, id: string) {
    exists i :: 0 <= i < |accounts| && id in IdsOf(accounts[i].credentials)
  }

  /** The account that receives a registration, before its new credential. */
  function Receiving(v: Vault, session: Session): AccountRecord {
    var account := AccountOf(v, session.targetSid);
    if account.None? then AccountRecord(session.targetSid, session.username, false, [])
    else account.value.(username := session.username)
  }

  /** commit_registration: the account that receives the new credential. */
  function Enrolled(v: Vault, session: Session, r: RegistrationResult, utcNow: string): Result<AccountRecord, Error> {
    var account := Receiving(v, session);
    if IdInUse(v.accounts, r.credentialId) then Failure(AlreadyRegistered)
    else if |account.credentials| >= MAX_CREDENTIALS then Failure(TooManyCredentials)
    else Success(account.(credentials := account.credentials + [NewRecord(r, session.keyLabel, utcNow)]))
  }

  /** commit_registration up to the save: a verified registration, enrolled. */
  function Enrolling(v: Vault, session: Session, payload: Option<Payload>, w: World): Result<AccountRecord, Error> {
    if payload.None? then Failure(MissingField)
    else
      var r := VerifyRegistration(session.challenge, session.rpId, session.origin, payload.value.attestationObject,
                                  payload.value.clientDataJson, w.lib);
      if r.Failure? then Failure(OfCeremony(r.error)) else Enrolled(v, session, r.value, w.utcNow)
  }

  function AfterCommitRegistration(v: Vault, t: Table, caller: Caller, r: Request, w: World, fate: SaveFate,
                                   valid: Vault -> bool): Effect
    requires r.CommitRegistration?
  {
    var (u, session) := Take(t, r.sessionId, caller, Registration, w.now);
    if session.Failure? then Effect(v, u, Refused(OfSession(session.error)))
    else
      var account := Enrolling(v, session.value, r.payload, w);
      if account.Failure? then Effect(v, u, Refused(account.error))
      else
        var (after, ok) := AfterSave(v, Some(Upserted(v, account.value)), fate, valid);
        Effect(after, u, if ok then Registered(|account.value.credentials|) else Refused(NotSaved))
  }

  function AfterRemoveWithPassword(v: Vault, t: Table, caller: Caller, r: Request, w: World, fate: SaveFate,
                                   valid: Vault -> bool): Effect
    requires r.RemoveWithPassword?
  {
    var name := Removable(v, caller, r.sid, r.username, r.password, r.credentialId, w);
    if name.Failure? then Effect(v, t, Refused(name.error))
    else if r.credentialId.None? then Effect(v, t, Refused(MissingField))
    else
      var (after, ok) := AfterSave(v, WithoutCredential(v, r.sid, r.credentialId.value), fate, valid);
      Effect(after, t, if ok then Done else Refused(NotSaved))
  }

  function AfterFinishRemove(v: Vault, t: Table, caller: Caller, r: Request, w: World, fates: Fates,
                             valid: Vault -> bool): Effect
    requires r.FinishRemove?
  {
    var (u, session) := Take(t, r.sessionId, caller, RemovalAuthorization, w.now);
    if session.Failure? then Effect(v, u, Refused(OfSession(session.error)))
    else
      var (counted, error) := AfterAssertion(v, session.value, r.assertion, w.lib, fates.counter, valid);
      if error.Some? then Effect(counted, u, Refused(error.value))
      else
        var changed := WithoutCredential(counted, session.value.targetSid, session.value.credentialToRemove);
        var (after, ok) := AfterSave(counted, changed, fates.change, valid);
        Effect(after, u, if ok then Done else Refused(NotSaved))
  }

  /** set_enforcement up to the save: the value to set. */
  function PolicyChange(caller: Caller, r: Request, w: World): Result<bool, Error>
    requires r.SetEnforcement?
  {
    var name := Authenticated(caller, r.sid, r.username, r.password, w);
    if !caller.isElevatedAdmin then Failure(NotElevated)
    else if name.Failure? then Failure(name.error)
    else if r.enabled.None? then Failure(MissingField)
    else if r.enabled.value && w.filterConflict && !r.allowFilterConflict then Failure(FilterConflict)
    else if r.enabled.value && w.filterError then Failure(FilterUnknown)
    else Success(r.enabled.value)
  }

  function AfterSetEnforcement(v: Vault, t: Table, caller: Caller, r: Request, w: World, fate: SaveFate,
                               valid: Vault -> bool): Effect
    requires r.SetEnforcement?
  {
    var enabled := PolicyChange(caller, r, w);
    if enabled.Failure? then Effect(v, t, Refused(enabled.error))
    else
      var (after, ok) := AfterSave(v, WithEnforcement(v, r.sid, enabled.value), fate, valid);
      Effect(after, t, if ok then Done else Refused(NotSaved))
  }

  /** The operations that leave the vault alone. */
  function Answer(v: Vault, t: Table, caller: Caller, r: Request, w: World): (Table, Reply) {
    match r
    case Status(sid) => (t, StatusOf(v, caller, sid))
    case BeginAuth(sid) => AfterBeginAuth(v, t, caller, sid, w)
    case BeginTest(sid) => AfterBeginTest(v, t, caller, sid, w)
    case BeginRegistration(_, _, _, _) => AfterBeginRegistration(v, t, caller, r, w)
    case BeginRemove(_, _, _, _) => AfterBeginRemove(v, t, caller, r, w)
    case _ => (t, Refused(UnknownOperation))
  }

  function Serve(v: Vault, t: Table, caller: Caller, r: Request, w: World, fates: Fates, valid: Vault -> bool): Effect {
    match r
    case FinishAuth(_, _) => AfterFinishAuth(v, t, caller, r, w, fates.counter, valid)
    case CommitRegistration(_, _) => AfterCommitRegistration(v, t, caller, r, w, fates.change, valid)
    case RemoveWithPassword(_, _, _, _) => AfterRemoveWithPassword(v, t, caller, r, w, fates.change, valid)
    case FinishRemove(_, _) => AfterFinishRemove(v, t, caller, r, w, fates, valid)
    case SetEnforcement(_, _, _, _, _) => AfterSetEnforcement(v, t, caller, r, w, fates.change, valid)
    case _ =>
      var (u, reply) := Answer(v, t, caller, r, w);
      Effect(v, u, reply)
  }

  /** BrokerService.cpp, Handle: every request first refreshes the store. */
  function Handled(s: State, caller: Caller, r: Request, w: World, fates: Fates, valid: Vault -> bool): (State, Reply) {
    var (loaded, ok) := AfterRefresh(s.loaded, w, fates.refresh, valid);
    if !ok then (State(loaded, s.sessions), Refused(RefreshFailed))
    else
      var e := Serve(loaded.value, s.sessions, caller, r, w, fates, valid);
      (State(Success(e.vault), e.sessions), e.reply)
  }
}
