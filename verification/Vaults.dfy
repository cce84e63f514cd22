/** The credential vault and its validity test. */
module Vaults {
  import opened Basics
  import Base64

  const SCHEMA_VERSION := 1
  const ES256_ALGORITHM := -7
  const MAX_CREDENTIALS := 64

  type Counter = n: int | 0 <= n < 0x1_0000_0000

  datatype CredentialRecord = CredentialRecord(
    credentialId: string,
    cosePublicKey: string,
    algorithm: int,
    aaguid: string,
    keyLabel: string,
    createdAt: string,
    signCount: Counter)

  datatype AccountRecord = AccountRecord(
    sid: Sid,
    username: string,
    enforced: bool,
    credentials: seq<CredentialRecord>)

  datatype Vault = Vault(
    schemaVersion: int,
    machineId: string,
    rpId: string,
    accounts: seq<AccountRecord>)

  function RpIdOf(machineId: string): string {
    "wfl-" + machineId + ".login.local"
  }

  predicate LowerHex(c: char) {
    '0' <= c <= '9' || 'a' <= c <= 'f'
  }

  predicate ValidHeader(v: Vault) {
    && v.schemaVersion == SCHEMA_VERSION
    && |v.machineId| == 32
    && v.rpId == RpIdOf(v.machineId)
    && |v.accounts| <= 1024
    && forall i :: 0 <= i < 32 ==> LowerHex(v.machineId[i])
  }

  /** No control character in a label. */
  predicate Printable(keyLabel: string) {
    forall i :: 0 <= i < |keyLabel| ==> keyLabel[i] >= ' ' && keyLabel[i] != '\U{7F}'
  }

  predicate ValidCredential(c: CredentialRecord) {
    && c.algorithm == ES256_ALGORITHM
    && 1 <= |Base64.UrlDecode(c.credentialId)| <= 1024
    && 1 <= |Base64.UrlDecode(c.cosePublicKey)| <= 1024
    && |Base64.UrlDecode(c.aaguid)| == 16
    && 1 <= |c.keyLabel| <= 128
    && |c.createdAt| <= 64
    && Printable(c.keyLabel)
  }

  predicate All<T>(s: seq<T>, p: T -> bool) {
    forall i :: 0 <= i < |s| ==> p(s[i])
  }

  predicate DistinctIds(cs: seq<CredentialRecord>) {
    forall i, j :: 0 <= i < j < |cs| ==> cs[i].credentialId != cs[j].credentialId
  }

  predicate ValidCredentials(cs: seq<CredentialRecord>) {
    All(cs, ValidCredential) && DistinctIds(cs)
  }

  /** `sidOk` is the operating system's judgement of a string SID. */
  predicate ValidAccount(a: AccountRecord, sidOk: Sid -> bool) {
    && 1 <= |a.sid| <= 184 && sidOk(a.sid)
    && |a.username| <= 256
    && |a.credentials| <= MAX_CREDENTIALS
    && (a.enforced ==> a.credentials != [])
    && ValidCredentials(a.credentials)
  }

  predicate DistinctSids(accounts: seq<AccountRecord>) {
    forall i, j :: 0 <= i < j < |accounts| ==> !SameText(accounts[i].sid, accounts[j].sid)
  }

  predicate ValidVault(v: Vault, sidOk: Sid -> bool) {
    && ValidHeader(v)
    && (forall i :: 0 <= i < |v.accounts| ==> ValidAccount(v.accounts[i], sidOk))
    && DistinctSids(v.accounts)
  }

  /** The test of the vault for one reading of SIDs. */
  function ValidFor(sidOk: Sid -> bool): Vault -> bool {
    v => ValidVault(v, sidOk)
  }

  /** LocalCredentialStore.cpp, IsVaultValid. */
  method IsVaultValid(v: Vault, sidOk: Sid -> bool) returns (valid: bool)
    ensures valid <==> ValidVault(v, sidOk)
  {
    if v.schemaVersion != SCHEMA_VERSION || |v.machineId| != 32 || v.rpId != RpIdOf(v.machineId)
      || |v.accounts| > 1024 {
      return false;
    }
    if exists i :: 0 <= i < |v.machineId| && !LowerHex(v.machineId[i]) {
      return false;
    }
    var accountSids: set<string> := {};
    for k := 0 to |v.accounts|
      invariant ValidHeader(v)
      invariant forall i :: 0 <= i < k ==> ValidAccount(v.accounts[i], sidOk)
      invariant DistinctSids(v.accounts[..k])
      invariant accountSids == set i | 0 <= i < k :: Fold(v.accounts[i].sid)
    {
      var account := v.accounts[k];
      var accountOk := IsAccountValid(account, sidOk);
      var folded := Fold(account.sid);
      if !accountOk || folded in accountSids {
        return false;
      }
      accountSids := accountSids + {folded};
    }
    assert v.accounts[..|v.accounts|] == v.accounts;
    return true;
  }

  method IsAccountValid(account: AccountRecord, sidOk: Sid -> bool) returns (valid: bool)
    ensures valid <==> ValidAccount(account, sidOk)
  {
    if |account.sid| == 0 || |account.sid| > 184 || |account.username| > 256
       || |account.credentials| > 64 || (account.enforced && |account.credentials| == 0) {
      return false;
    }
    if !sidOk(account.sid) {
      return false;
    }
    valid := AreCredentialsValid(account.credentials);
  }

  method AreCredentialsValid(credentials: seq<CredentialRecord>) returns (valid: bool)
    ensures valid <==> ValidCredentials(credentials)
  {
    var credentialIds: set<string> := {};
    for k := 0 to |credentials|
      invariant ValidCredentials(credentials[..k])
      invariant credentialIds == set i | 0 <= i < k :: credentials[i].credentialId
    {
      var credential := credentials[k];
      var credentialOk := IsCredentialValid(credential);
      ValidPrefix(credentials, k);
      if !credentialOk || credential.credentialId in credentialIds {
        return false;
      }
      credentialIds := credentialIds + {credential.credentialId};
    }
    assert credentials[..|credentials|] == credentials;
    return true;
  }

  lemma ValidPrefix(cs: seq<CredentialRecord>, k: nat)
    requires k < |cs| && ValidCredentials(cs[..k])
    ensures ValidCredentials(cs[..k + 1]) <==>
      ValidCredential(cs[k]) && forall i :: 0 <= i < k ==> cs[i].credentialId != cs[k].credentialId
    ensures !ValidCredentials(cs[..k + 1]) ==> !ValidCredentials(cs)
  {
    AllOfPrefix(cs, k, ValidCredential);
    DistinctPrefix(cs, k);
  }

  lemma AllOfPrefix<T>(s: seq<T>, k: nat, p: T -> bool)
    requires k < |s|
    ensures All(s[..k + 1], p) <==> All(s[..k], p) && p(s[k])
    ensures All(s, p) ==> All(s[..k + 1], p)
  {
    var longer := s[..k + 1];
    assert longer[k] == s[k];
    forall i | 0 <= i < k
      ensures longer[i] == s[i] == s[..k][i]
    {
    }
  }

  lemma DistinctPrefix(cs: seq<CredentialRecord>, k: nat)
    requires k < |cs| && DistinctIds(cs[..k])
    ensures DistinctIds(cs[..k + 1]) <==> forall i :: 0 <= i < k ==> cs[i].credentialId != cs[k].credentialId
    ensures DistinctIds(cs) ==> DistinctIds(cs[..k + 1])
  {
    var longer := cs[..k + 1];
    assert longer[k] == cs[k];
    forall i | 0 <= i < k
      ensures longer[i] == cs[i] == cs[..k][i]
    {
    }
  }

  method IsCredentialValid(credential: CredentialRecord) returns (valid: bool)
    ensures valid <==> ValidCredential(credential)
  {
    var credentialId := Base64.Base64UrlDecode(credential.credentialId);
    var coseKey := Base64.Base64UrlDecode(credential.cosePublicKey);
    var aaguid := Base64.Base64UrlDecode(credential.aaguid);
    if credential.algorithm != ES256_ALGORITHM || |credentialId| == 0 || |credentialId| > 1024
       || |coseKey| == 0 || |coseKey| > 1024 || |aaguid| != 16 || |credential.keyLabel| == 0
       || |credential.keyLabel| > 128 || |credential.createdAt| > 64 {
      return false;
    }
    valid := Printable(credential.keyLabel);
  }

  // ----- The test in numbers -----

  /** A credential within the limits, in numbers. */
  predicate CredentialFits(c: CredentialRecord) {
    && c.algorithm == -7 && 0 < |c.keyLabel| < 129
    && (forall i :: 0 <= i < |c.keyLabel| ==> ' ' <= c.keyLabel[i] != '\U{7F}')
    && 0 < |Base64.UrlDecode(c.credentialId)| < 1025 && 0 < |Base64.UrlDecode(c.cosePublicKey)| < 1025
    && |Base64.UrlDecode(c.aaguid)| == 16 && |c.createdAt| < 65
  }

  predicate AccountFits(a: AccountRecord, sidOk: Sid -> bool) {
    && 0 < |a.sid| < 185 && sidOk(a.sid) && |a.username| < 257 && |a.credentials| < 65
    && (a.credentials == [] ==> !a.enforced)
    && (forall i :: 0 <= i < |a.credentials| ==> CredentialFits(a.credentials[i]))
    && (forall i, j ::
          0 <= i < |a.credentials| && 0 <= j < |a.credentials| && i != j ==>
            a.credentials[i].credentialId != a.credentials[j].credentialId)
  }

  /** The whole test in numbers: the vaults that load are exactly those within these
      limits, of one schema, named after their machine, and without a repeated SID. */
  lemma ValidInNumbers(v: Vault, sidOk: Sid -> bool)
    ensures ValidVault(v, sidOk)
      <==> && v.schemaVersion == 1 && |v.machineId| == 32 && v.rpId == "wfl-" + v.machineId + ".login.local"
           && (forall i :: 0 <= i < 32 ==> '0' <= v.machineId[i] <= '9' || 'a' <= v.machineId[i] <= 'f')
           && |v.accounts| < 1025 && (forall i :: 0 <= i < |v.accounts| ==> AccountFits(v.accounts[i], sidOk))
           && (forall i, j ::
                 0 <= i < |v.accounts| && 0 <= j < |v.accounts| && i != j ==>
                   !SameText(v.accounts[i].sid, v.accounts[j].sid))
  {
    forall a
      ensures ValidAccount(a, sidOk) <==> AccountFits(a, sidOk)
    {
      AccountInNumbers(a, sidOk);
    }
  }

  lemma AccountInNumbers(a: AccountRecord, sidOk: Sid -> bool)
    ensures ValidAccount(a, sidOk) <==> AccountFits(a, sidOk)
  {
    forall c
      ensures ValidCredential(c) <==> CredentialFits(c)
    {
      CredentialInNumbers(c);
    }
  }

  lemma CredentialInNumbers(c: CredentialRecord)
    ensures ValidCredential(c) <==> CredentialFits(c)
  {
  }

  // ----- Looking things up and changing them -----

  /** Index of the first account with a SID, or the number of accounts. */
  function FindAccount(accounts: seq<AccountRecord>, sid: Sid): (k: nat)
    ensures k <= |accounts|
    ensures k < |accounts| ==> SameText(accounts[k].sid, sid)
    ensures forall i :: 0 <= i < k ==> !SameText(accounts[i].sid, sid)
  {
    if accounts == [] || SameText(accounts[0].sid, sid) then 0 else 1 + FindAccount(accounts[1..], sid)
  }

  function AccountIn(accounts: seq<AccountRecord>, sid: Sid): Option<AccountRecord> {
    var k := FindAccount(accounts, sid);
    if k < |accounts| then Some(accounts[k]) else None
  }

  /** Index of the first credential with an ID, or the number of credentials. */
  function FindCredential(cs: seq<CredentialRecord>, id: string): (k: nat)
    ensures k <= |cs|
    ensures k < |cs| ==> cs[k].credentialId == id
    ensures forall i :: 0 <= i < k ==> cs[i].credentialId != id
  {
    if cs == [] || cs[0].credentialId == id then 0 else 1 + FindCredential(cs[1..], id)
  }

  /** UpsertAccount: the account replaces the one with its SID, or comes last. */
  function Upserted(v: Vault, account: AccountRecord): Vault {
    var k := FindAccount(v.accounts, account.sid);
    v.(accounts := if k < |v.accounts| then v.accounts[k := account] else v.accounts + [account])
  }

  function Dropped(cs: seq<CredentialRecord>, k: nat): seq<CredentialRecord>
    requires k < |cs|
  {
    cs[..k] + cs[k + 1..]
  }

  /** RemoveCredential: None when there is nothing to remove, or when it is the
      last credential of an enforced account. */
  function WithoutCredential(v: Vault, sid: Sid, credentialId: string): Option<Vault> {
    var k := FindAccount(v.accounts, sid);
    if k == |v.accounts| then None
    else
      var account := v.accounts[k];
      var c := FindCredential(account.credentials, credentialId);
      if c == |account.credentials| || (account.enforced && |account.credentials| <= 1) then None
      else Some(v.(accounts := v.accounts[k := account.(credentials := Dropped(account.credentials, c))]))
  }

  /** SetEnforced: None without an account, or to enforce one without credentials. */
  function WithEnforcement(v: Vault, sid: Sid, enforced: bool): Option<Vault> {
    var k := FindAccount(v.accounts, sid);
    if k == |v.accounts| || (enforced && v.accounts[k].credentials == []) then None
    else Some(v.(accounts := v.accounts[k := v.accounts[k].(enforced := enforced)]))
  }

  /** The SIDs SynchronizeEnforcedRegistry lists, in vault order. */
  function EnforcedSids(accounts: seq<AccountRecord>): seq<Sid> {
    if accounts == [] then []
    else (if accounts[0].enforced then [accounts[0].sid] else []) + EnforcedSids(accounts[1..])
  }

  predicate AnyEnforced(accounts: seq<AccountRecord>) {
    exists i :: 0 <= i < |accounts| && accounts[i].enforced
  }

  /** A reader of the list finds exactly the enforced accounts. */
  lemma {:induction false} ListedIffEnforced(accounts: seq<AccountRecord>, sid: Sid)
    ensures (exists s :: s in EnforcedSids(accounts) && SameText(s, sid))
      <==> exists i :: 0 <= i < |accounts| && accounts[i].enforced && SameText(accounts[i].sid, sid)
  {
    if accounts != [] {
      ListedIffEnforced(accounts[1..], sid);
      var a := accounts[0];
      if a.enforced { assert a.sid in EnforcedSids(accounts); }
      forall s | s in EnforcedSids(accounts[1..])
        ensures s in EnforcedSids(accounts)
      {
      }
      forall i | 0 <= i < |accounts[1..]|
        ensures accounts[1..][i] == accounts[i + 1]
      {
      }
    }
  }
}
