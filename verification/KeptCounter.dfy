/** Concrete runs after which the stored signature counter is not the last accepted
    one, and the disk states in which the saves end that way. In the first run no
    account is enforced: the save of the counter fails after the vault was replaced,
    and its undo fails as well. In the second the account is enforced, and the
    process crashes after the vault was replaced. */
module KeptCounter {
  import opened Base64
  import opened Basics
  import opened Broker
  import opened BrokerInvariants
  import opened BrokerRuns
  import opened BrokerSteps
  import opened CoseKey
  import opened CredentialStore
  import opened FidoVerifier
  import opened Sessions
  import opened VaultChanges
  import opened Vaults
  import MultiString

  const ACCOUNT: Sid := "S-1-5-21-1-2-3-1001"
  const SESSION_ID := "AAAAAAAAAAAAAAAAAAAAAAAAAAAAAAAA"
  const CHALLENGE := "AAAA"

  // ----- An assertion that verifies -----

  function Zeros(n: nat): Bytes {
    seq(n, _ => 0 as bv8)
  }

  /** Authenticator data with the user present and verified, and counter 1. */
  function AuthData(): Bytes {
    Zeros(32) + [5, 0, 0, 0, 1]
  }

  function Reader(): CborReader {
    var f := (b: Bytes) => CborLoad.Loaded(CborItem.Map(StandardKey(Zeros(32), Zeros(32))), |b|);
    f
  }

  /** A library that finds the key, the challenge and the hash it is asked for, and
      accepts every signature. */
  function TheLibrary(origin: string): Library {
    Library(
      _ => Some(Zeros(32)), Reader(), _ => Some(ClientData("webauthn.get", CHALLENGE, origin, false)),
      (_, _, _) => None, (_, _, _, _, _) => true)
  }

  lemma KeyIsAccepted(b: Bytes, origin: string)
    ensures PublicKeyOf(b, TheLibrary(origin)).Some?
  {
    var key := StandardKey(Zeros(32), Zeros(32));
    StandardKeyAccepted(Zeros(32), Zeros(32), []);
    assert key + [] == key;
  }

  lemma DataVerifies(rpId: string, origin: string)
    ensures VerifyAuthenticatorData(AuthData(), rpId, TheLibrary(origin)) == Success(1)
  {
    var data := AuthData();
    assert data[..32] == Zeros(32) && data[32] == 5 && data[33] == data[34] == data[35] == 0 && data[36] == 1;
  }

  lemma VerifiesFrom(c: CredentialRecord, challenge: string, rpId: string, origin: string, response: Assertion,
                     lib: Library, counter: Counter)
    requires c.algorithm == ES256_ALGORITHM && |response.items| == 1 && response.items[0].credentialId == c.credentialId
    requires UrlDecode(response.clientData) != [] && UrlDecode(c.credentialId) != [] && UrlDecode(c.cosePublicKey) != []
    requires UrlDecode(response.items[0].authenticatorData) != [] && UrlDecode(response.items[0].signature) != []
    requires forall b ::
      PublicKeyOf(b, lib).Some? && VerifyClientData(lib.clientData(b), "webauthn.get", challenge, origin)
    requires forall a, b, d, k :: lib.signatureOk(a, rpId, b, d, k)
    requires VerifyAuthenticatorData(UrlDecode(response.items[0].authenticatorData), rpId, lib) == Success(counter)
    requires FidoVerifier.CounterAccepted(c.signCount, counter)
    ensures VerifyAssertion(c, challenge, rpId, origin, response, lib) == Success(counter)
  {
  }

  /** A credential without a counter, in terms of the texts of one octet and of an AAGUID. */
  function TheRecord(text: string, aaguid: string): CredentialRecord {
    CredentialRecord(text, text, ES256_ALGORITHM, aaguid, "key", "", 0)
  }

  function TheAssertion(text: string, dataText: string): Assertion {
    Assertion(text, [AssertionItem(text, dataText, text)])
  }

  lemma AssertionVerifies(text: string, aaguid: string, dataText: string, rpId: string, origin: string)
    requires UrlDecode(text) != [] && UrlDecode(dataText) == AuthData()
    ensures VerifyAssertion(TheRecord(text, aaguid), CHALLENGE, rpId, origin, TheAssertion(text, dataText),
                            TheLibrary(origin)) == Success(1)
  {
    DataVerifies(rpId, origin);
    forall b
      ensures PublicKeyOf(b, TheLibrary(origin)).Some?
    {
      KeyIsAccepted(b, origin);
    }
    VerifiesFrom(TheRecord(text, aaguid), CHALLENGE, rpId, origin, TheAssertion(text, dataText), TheLibrary(origin), 1);
  }

  // ----- A vault that is valid -----

  /** The identifier of the machine: 32 hexadecimal digits. */
  function MachineId(): string {
    seq(32, _ => '0')
  }

  function TheAccount(record: CredentialRecord, enforced: bool): AccountRecord {
    AccountRecord(ACCOUNT, "u", enforced, [record])
  }

  function TheVault(record: CredentialRecord, enforced: bool): Vault {
    Vault(SCHEMA_VERSION, MachineId(), RpIdOf(MachineId()), [TheAccount(record, enforced)])
  }

  lemma TheVaultIsValid(record: CredentialRecord, enforced: bool, sidOk: Sid -> bool)
    requires ValidCredential(record) && sidOk(ACCOUNT)
    ensures ValidVault(TheVault(record, enforced), sidOk)
    ensures AnyEnforced(TheVault(record, enforced).accounts) <==> enforced
    ensures AccountOf(TheVault(record, enforced), ACCOUNT) == Some(TheAccount(record, enforced))
  {
    var v := TheVault(record, enforced);
    assert v.accounts[0] == TheAccount(record, enforced);
  }

  lemma TheRecordIsValid(text: string, aaguid: string)
    requires 1 <= |UrlDecode(text)| <= 1024 && |UrlDecode(aaguid)| == 16
    ensures ValidCredential(TheRecord(text, aaguid))
  {
  }

  // ----- The run -----

  const CALLER := Caller(ACCOUNT, false, false)

  function TheWorld(origin: string): World {
    World(0, "", _ => Mapped("u"), _ => None, (_, _) => false, false, false, CHALLENGE, _ => SESSION_ID, "", "",
          TheLibrary(origin))
  }

  /** begin_test, answered. */
  function Begin(v: Vault): Event {
    Call(CALLER, BeginTest(ACCOUNT), TheWorld(OriginOf(v)), Fates(Refreshes, Undone, Undone))
  }

  /** finish_auth: refused, its counter kept, or cut short after its save. */
  function Finish(v: Vault, assertion: Assertion, crash: bool): Event {
    var request := FinishAuth(SESSION_ID, Some(assertion));
    if crash then Crash(CALLER, request, TheWorld(OriginOf(v)), Fates(Refreshes, Commits, Undone))
    else Call(CALLER, request, TheWorld(OriginOf(v)), Fates(Refreshes, Kept, Undone))
  }

  /** The session that begin_test opens. */
  function TheSession(v: Vault): Session {
    NewSession(Authentication, CALLER, ACCOUNT, v, TheWorld(OriginOf(v))).(expiresAt := SESSION_LIFETIME)
  }

  function BeforeBegin(v: Vault): State { State(Success(v), map[]) }
  function BeforeFinish(v: Vault): State { State(Success(v), map[SESSION_ID := TheSession(v)]) }

  lemma RefreshOfOne(a: AccountRecord, resolve: Sid -> Resolution)
    requires resolve(a.sid) == Mapped(a.username)
    ensures Refreshed([a], resolve) == Some([a])
  {
    assert [a][1..] == [];
    assert [a] + [] == [a];
  }

  lemma RefreshChangesNothing(v: Vault, w: World, valid: Vault -> bool)
    requires Refreshed(v.accounts, w.resolveSid) == Some(v.accounts) && valid(v)
    ensures AfterRefresh(Success(v), w, Refreshes, valid) == (Success(v), true)
  {
  }

  lemma BeginOpens(v: Vault, a: AccountRecord, valid: Vault -> bool)
    requires AfterRefresh(Success(v), TheWorld(OriginOf(v)), Refreshes, valid) == (Success(v), true)
    requires AccountOf(v, ACCOUNT) == Some(a) && a.credentials != [] && v.rpId != ""
    ensures Next(BeforeBegin(v), Begin(v), valid) == BeforeFinish(v)
  {
    var session := NewSession(Authentication, CALLER, ACCOUNT, v, TheWorld(OriginOf(v)));
    SessionIsStored(session, TheWorld(OriginOf(v)));
  }

  lemma SessionIsStored(session: Session, w: World)
    requires session.challenge != "" && session.rpId != "" && session.origin != "" && w.now == 0
      && w.draw(0) == SESSION_ID
    ensures Put(map[], session, w.now, w.draw)
      == (map[SESSION_ID := session.(expiresAt := SESSION_LIFETIME)], Success(SESSION_ID))
  {
    assert Pruned(map[], 0) == map[] && OwnedBy(map[], session.callerSid) == {};
    assert SESSION_ID != "" by { assert |SESSION_ID| == 32; }
  }

  lemma FinishTakes(v: Vault, assertion: Assertion, crash: bool)
    ensures Take(BeforeFinish(v).sessions, SESSION_ID, CALLER, Authentication, 0) == (map[], Success(TheSession(v)))
    ensures SessionOf(BeforeFinish(v).sessions, CALLER, Finish(v, assertion, crash).request, TheWorld(OriginOf(v)))
      == Some(TheSession(v))
  {
    assert |SESSION_ID| == 32;
    assert Without(map[SESSION_ID := TheSession(v)], SESSION_ID) == map[];
  }

  lemma WouldVerifyOne(v: Vault, record: CredentialRecord, enforced: bool, assertion: Assertion, crash: bool)
    requires v == TheVault(record, enforced) && AccountOf(v, ACCOUNT) == Some(TheAccount(record, enforced))
    requires |assertion.items| == 1 && assertion.items[0].credentialId == record.credentialId
    requires VerifyAssertion(record, CHALLENGE, v.rpId, OriginOf(v), assertion, TheLibrary(OriginOf(v))) == Success(1)
    ensures RecordOf(Success(v), ACCOUNT, record.credentialId) == Some(record)
    ensures WouldVerify(BeforeFinish(v), CALLER, Finish(v, assertion, crash).request, TheWorld(OriginOf(v)), ACCOUNT,
                        record.credentialId) == Some(1)
  {
    FinishTakes(v, assertion, crash);
    FirstCredential([record], record.credentialId, 0);
  }

  lemma KeptIsRefused(v: Vault, t: Table, caller: Caller, r: Request, w: World, fates: Fates, valid: Vault -> bool)
    requires r.FinishAuth? && SessionOf(t, caller, r, w).Some? && fates.counter.Kept?
    requires Counted(v, SessionOf(t, caller, r, w).value, r.assertion, w.lib).Success?
    ensures Serve(v, t, caller, r, w, fates, valid).reply == Refused(NotSaved)
  {
  }

  /** The two events in a row, from a process that has just started. */
  function TheRun(v: Vault, assertion: Assertion, crash: bool, valid: Vault -> bool): Run {
    var e := Finish(v, assertion, crash);
    Run([BeforeBegin(v), BeforeFinish(v), Next(BeforeFinish(v), e, valid)], [Begin(v), e])
  }

  lemma TheRunIsRun(record: CredentialRecord, enforced: bool, assertion: Assertion, crash: bool, sidOk: Sid -> bool)
    requires ValidCredential(record) && sidOk(ACCOUNT)
    ensures IsRun(TheRun(TheVault(record, enforced), assertion, crash, ValidFor(sidOk)), ValidFor(sidOk))
    ensures
      var v := TheVault(record, enforced);
      AfterRefresh(Success(v), TheWorld(OriginOf(v)), Refreshes, ValidFor(sidOk)) == (Success(v), true)
  {
    var v, valid := TheVault(record, enforced), ValidFor(sidOk);
    TheVaultIsValid(record, enforced, sidOk);
    IsVaultValidIsTrusted(sidOk);
    RefreshOfOne(TheAccount(record, enforced), TheWorld(OriginOf(v)).resolveSid);
    RefreshChangesNothing(v, TheWorld(OriginOf(v)), valid);
    BeginOpens(v, TheAccount(record, enforced), valid);
    var run := TheRun(v, assertion, crash, valid);
    forall k: nat | k < 2
      ensures Follows(run, valid, k)
    {
      assert k == 0 || k == 1;
    }
  }

  lemma UntrackedFrom(v: Vault, record: CredentialRecord, assertion: Assertion, crash: bool, sidOk: Sid -> bool)
    requires ValidFor(sidOk)(v) && (AnyEnforced(v.accounts) <==> crash)
    requires AfterRefresh(Success(v), TheWorld(OriginOf(v)), Refreshes, ValidFor(sidOk)) == (Success(v), true)
    requires RecordOf(Success(v), ACCOUNT, record.credentialId) == Some(record) && record.signCount == 0
    requires WouldVerify(BeforeFinish(v), CALLER, Finish(v, assertion, crash).request, TheWorld(OriginOf(v)), ACCOUNT,
                         record.credentialId) == Some(1)
    ensures Untracked(BeforeFinish(v), Finish(v, assertion, crash), ValidFor(sidOk), ACCOUNT, record.credentialId)
  {
    UnansweredCount(BeforeFinish(v), Finish(v, assertion, crash), sidOk, ACCOUNT, record.credentialId);
  }

  /** Either way the counter 1 is stored for a credential that had none. */
  lemma FinishIsUntracked(record: CredentialRecord, assertion: Assertion, crash: bool, sidOk: Sid -> bool)
    requires ValidCredential(record) && record.signCount == 0 && sidOk(ACCOUNT)
    requires |assertion.items| == 1 && assertion.items[0].credentialId == record.credentialId
    requires
      var v := TheVault(record, crash);
      VerifyAssertion(record, CHALLENGE, v.rpId, OriginOf(v), assertion, TheLibrary(OriginOf(v))) == Success(1)
    ensures
      var v := TheVault(record, crash);
      Untracked(BeforeFinish(v), Finish(v, assertion, crash), ValidFor(sidOk), ACCOUNT, record.credentialId)
  {
    var v := TheVault(record, crash);
    TheVaultIsValid(record, crash, sidOk);
    TheRunIsRun(record, crash, assertion, crash, sidOk);
    WouldVerifyOne(v, record, crash, assertion, crash);
    UntrackedFrom(v, record, assertion, crash, sidOk);
  }

  lemma TheRunIsUntracked(text: string, aaguid: string, dataText: string, crash: bool, sidOk: Sid -> bool)
    requires 1 <= |UrlDecode(text)| <= 1024 && |UrlDecode(aaguid)| == 16 && UrlDecode(dataText) == AuthData()
      && sidOk(ACCOUNT)
    ensures
      var v, valid := TheVault(TheRecord(text, aaguid), crash), ValidFor(sidOk);
      var assertion := TheAssertion(text, dataText);
      && IsRun(TheRun(v, assertion, crash, valid), valid)
      && Untracked(BeforeFinish(v), Finish(v, assertion, crash), valid, ACCOUNT, text)
  {
    var record, assertion := TheRecord(text, aaguid), TheAssertion(text, dataText);
    var v := TheVault(record, crash);
    TheRecordIsValid(text, aaguid);
    TheRunIsRun(record, crash, assertion, crash, sidOk);
    AssertionVerifies(text, aaguid, dataText, v.rpId, OriginOf(v));
    FinishIsUntracked(record, assertion, crash, sidOk);
  }

  lemma TheRunIsRefused(text: string, aaguid: string, dataText: string, sidOk: Sid -> bool)
    requires 1 <= |UrlDecode(text)| <= 1024 && |UrlDecode(aaguid)| == 16 && UrlDecode(dataText) == AuthData()
      && sidOk(ACCOUNT)
    ensures
      var v, valid := TheVault(TheRecord(text, aaguid), false), ValidFor(sidOk);
      var s, e := BeforeFinish(v), Finish(v, TheAssertion(text, dataText), false);
      Handled(s, CALLER, e.request, e.world, e.fates, valid).1 == Refused(NotSaved)
  {
    var record, assertion := TheRecord(text, aaguid), TheAssertion(text, dataText);
    var v, valid := TheVault(record, false), ValidFor(sidOk);
    var s, e := BeforeFinish(v), Finish(v, assertion, false);
    TheRecordIsValid(text, aaguid);
    TheVaultIsValid(record, false, sidOk);
    TheRunIsRun(record, false, assertion, false, sidOk);
    AssertionVerifies(text, aaguid, dataText, v.rpId, OriginOf(v));
    WouldVerifyOne(v, record, false, assertion, false);
    FinishTakes(v, assertion, false);
    VerifiedIsCounted(v, TheSession(v), Some(assertion), TheLibrary(OriginOf(v)), ACCOUNT, text);
    KeptIsRefused(v, s.sessions, CALLER, e.request, e.world, e.fates, valid);
  }

  /** The texts exist: two requests that leave a counter behind which no answer
      accepted, in runs that start with a vault that loads. */
  lemma UnansweredCounterIsKept(sidOk: Sid -> bool, crash: bool) returns (run: Run, id: string)
    requires sidOk(ACCOUNT)
    ensures IsRun(run, ValidFor(sidOk)) && |run.events| == 2 && run.states[0].loaded.Success?
    ensures AnyEnforced(run.states[0].loaded.value.accounts) <==> crash
    ensures run.events[0].Call? && run.events[0].request == BeginTest(ACCOUNT)
    ensures if crash then run.events[1].Crash? else run.events[1].Call?
    ensures run.events[1].request.FinishAuth?
    ensures
      var e := run.events[1];
      !crash ==> Handled(run.states[1], e.caller, e.request, e.world, e.fates, ValidFor(sidOk)).1 == Refused(NotSaved)
    ensures Untracked(run.states[1], run.events[1], ValidFor(sidOk), ACCOUNT, id)
  {
    var one: Bytes := [1];
    id := UrlEncode(one, false);
    var aaguid, dataText := UrlEncode(Zeros(16), false), UrlEncode(AuthData(), false);
    UrlDecodeInvertsUrlEncode(one);
    UrlDecodeInvertsUrlEncode(Zeros(16));
    UrlDecodeInvertsUrlEncode(AuthData());
    run := Chosen(id, aaguid, dataText, sidOk, crash);
  }

  lemma Chosen(text: string, aaguid: string, dataText: string, sidOk: Sid -> bool, crash: bool) returns (run: Run)
    requires 1 <= |UrlDecode(text)| <= 1024 && |UrlDecode(aaguid)| == 16 && UrlDecode(dataText) == AuthData()
      && sidOk(ACCOUNT)
    ensures IsRun(run, ValidFor(sidOk)) && |run.events| == 2 && run.states[0].loaded.Success?
    ensures AnyEnforced(run.states[0].loaded.value.accounts) <==> crash
    ensures run.events[0].Call? && run.events[0].request == BeginTest(ACCOUNT)
    ensures if crash then run.events[1].Crash? else run.events[1].Call?
    ensures run.events[1].request.FinishAuth?
    ensures
      var e := run.events[1];
      !crash ==> Handled(run.states[1], e.caller, e.request, e.world, e.fates, ValidFor(sidOk)).1 == Refused(NotSaved)
    ensures Untracked(run.states[1], run.events[1], ValidFor(sidOk), ACCOUNT, text)
  {
    var v, assertion := TheVault(TheRecord(text, aaguid), crash), TheAssertion(text, dataText);
    TheRunIsUntracked(text, aaguid, dataText, crash, sidOk);
    if !crash { TheRunIsRefused(text, aaguid, dataText, sidOk); }
    TheRecordIsValid(text, aaguid);
    TheVaultIsValid(TheRecord(text, aaguid), crash, sidOk);
    run := RunOf(v, assertion, sidOk, crash, text);
  }

  lemma RunOf(v: Vault, assertion: Assertion, sidOk: Sid -> bool, crash: bool, id: string) returns (run: Run)
    requires IsRun(TheRun(v, assertion, crash, ValidFor(sidOk)), ValidFor(sidOk))
    requires AnyEnforced(v.accounts) <==> crash
    requires Untracked(BeforeFinish(v), Finish(v, assertion, crash), ValidFor(sidOk), ACCOUNT, id)
    requires
      var e := Finish(v, assertion, crash);
      !crash ==> Handled(BeforeFinish(v), CALLER, e.request, e.world, e.fates, ValidFor(sidOk)).1 == Refused(NotSaved)
    ensures IsRun(run, ValidFor(sidOk)) && |run.events| == 2 && run.states[0].loaded == Success(v)
    ensures run.events[0].Call? && run.events[0].request == BeginTest(ACCOUNT)
    ensures if crash then run.events[1].Crash? else run.events[1].Call?
    ensures run.events[1].request.FinishAuth?
    ensures
      var e := run.events[1];
      !crash ==> Handled(run.states[1], e.caller, e.request, e.world, e.fates, ValidFor(sidOk)).1 == Refused(NotSaved)
    ensures Untracked(run.states[1], run.events[1], ValidFor(sidOk), ACCOUNT, id)
  {
    run := TheRun(v, assertion, crash, ValidFor(sidOk));
  }

  // ----- The disk states -----

  /** Consecutive states of a disk between the steps of Save up to the rename, for
      the vault `v` over the vault `u`. */
  ghost predicate UpToRename(d: Disk, written: Disk, remembered: Disk, v: Vault, renamed: Disk) {
    && WritesTemporary(d, v, true, written)
    && CopiesPrimary(written, true, remembered)
    && MovesTemporary(remembered, true, renamed)
  }

  /** A save of a vault that enforces nobody ends with the new vault in place although
      it fails: the rename is done; the write of the first registry value, the
      copy of the backup and the second attempt at the registry fail. */
  lemma KeptHasDiskStates(u: Vault, v: Vault, d: Disk, valid: Vault -> bool)
    requires valid(u) && valid(v) && d.primary == Sealed(u) && !AnyEnforced(v.accounts)
    ensures LoadDisk(d, valid) == Success(u)
    ensures exists written, remembered, renamed, unpublished, uncopied, last ::
      && UpToRename(d, written, remembered, v, renamed)
      && SetsList(renamed, MultiString.Print(EnforcedSids(v.accounts)), false, unpublished)
      && CopiesBackup(unpublished, false, uncopied)
      && SetsList(uncopied, MultiString.Print(EnforcedSids(u.accounts)), false, last)
      && LoadDisk(last, valid) == Success(v)
  {
    var written := d.(temporary := Sealed(v));
    var remembered := written.(backup := Sealed(u));
    var renamed := remembered.(primary := Sealed(v), temporary := Absent);
    assert UpToRename(d, written, remembered, v, renamed);
    assert CopiesBackup(renamed, false, renamed);
    assert SetsList(renamed, MultiString.Print(EnforcedSids(v.accounts)), false, renamed);
    assert SetsList(renamed, MultiString.Print(EnforcedSids(u.accounts)), false, renamed);
    assert LoadDisk(renamed, valid) == Success(v);
  }

  /** A save of an enforcing vault publishes the policy and then renames the file;
      a crash right after that leaves the new vault in place. */
  lemma CrashHasDiskStates(u: Vault, v: Vault, d: Disk, valid: Vault -> bool)
    requires valid(u) && valid(v) && d.primary == Sealed(u) && AnyEnforced(v.accounts)
    ensures LoadDisk(d, valid) == Success(u)
    ensures exists written, remembered, listed, flagged, renamed ::
      && WritesTemporary(d, v, true, written)
      && CopiesPrimary(written, true, remembered)
      && SetsList(remembered, MultiString.Print(EnforcedSids(v.accounts)), true, listed)
      && SetsFlag(listed, 1, true, flagged)
      && MovesTemporary(flagged, true, renamed)
      && LoadDisk(renamed, valid) == Success(v)
  {
    var written := d.(temporary := Sealed(v));
    var remembered := written.(backup := Sealed(u));
    var listed := remembered.(sidList := Some(MultiString.Print(EnforcedSids(v.accounts))));
    var flagged := listed.(filterFlag := Some(1));
    var renamed := flagged.(primary := Sealed(v), temporary := Absent);
    assert WritesTemporary(d, v, true, written) && CopiesPrimary(written, true, remembered);
    assert SetsList(remembered, MultiString.Print(EnforcedSids(v.accounts)), true, listed)
      && SetsFlag(listed, 1, true, flagged);
    assert MovesTemporary(flagged, true, renamed) && LoadDisk(renamed, valid) == Success(v);
  }
}
