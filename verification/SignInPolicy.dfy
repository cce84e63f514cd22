/** What the disk states of the store mean for a sign-in. */
module SignInPolicy {
  import opened Basics
  import opened Vaults
  import opened CredentialStore
  import MultiString

  /** BrokerService.cpp, begin_auth: MFA is demanded, sign-in is refused, or the
      password alone is enough. */
  datatype Decision = Mfa | Blocked | PasswordOnly

  predicate EnforcedIn(v: Vault, sid: Sid) {
    var account := AccountOf(v, sid);
    account.Some? && account.value.enforced
  }

  function SignIn(d: Disk, sid: Sid, valid: Vault -> bool): Decision {
    var loaded := LoadDisk(d, valid);
    if loaded.Failure? then Blocked
    else if EnforcedIn(loaded.value, sid) then Mfa
    else if Listed(d, sid) then Blocked
    else PasswordOnly
  }

  /** What IsVaultValid guarantees about SIDs. */
  predicate WellNamed(v: Vault) {
    && DistinctSids(v.accounts)
    && forall i :: 0 <= i < |v.accounts| ==> v.accounts[i].sid != ""
  }

  lemma ValidIsWellNamed(v: Vault, sidOk: Sid -> bool)
    requires ValidVault(v, sidOk)
    ensures WellNamed(v)
  {
    forall i | 0 <= i < |v.accounts|
      ensures v.accounts[i].sid != ""
    {
      assert ValidAccount(v.accounts[i], sidOk);
    }
  }

  lemma {:induction false} EnforcedSidsAreNotEmpty(accounts: seq<AccountRecord>)
    requires forall i :: 0 <= i < |accounts| ==> accounts[i].sid != ""
    ensures MultiString.NoneEmpty(EnforcedSids(accounts))
  {
    if accounts != [] {
      EnforcedSidsAreNotEmpty(accounts[1..]);
    }
  }

  lemma FindsTheAccount(accounts: seq<AccountRecord>, sid: Sid, i: nat)
    requires DistinctSids(accounts) && i < |accounts| && SameText(accounts[i].sid, sid)
    ensures FindAccount(accounts, sid) == i
  {
    var k := FindAccount(accounts, sid);
    if k < i {
      assert SameText(accounts[k].sid, accounts[i].sid);
    }
  }

  /** Reading back the published list finds exactly the enforced accounts. */
  lemma PublishedListIsExact(d: Disk, v: Vault, sid: Sid)
    requires WellNamed(v) && d.sidList == ListOf(v)
    ensures Listed(d, sid) <==> EnforcedIn(v, sid)
  {
    EnforcedSidsAreNotEmpty(v.accounts);
    MultiString.ParseInvertsPrint(EnforcedSids(v.accounts));
    ListedIffEnforced(v.accounts, sid);
    forall i | 0 <= i < |v.accounts| && SameText(v.accounts[i].sid, sid)
      ensures FindAccount(v.accounts, sid) == i
    {
      FindsTheAccount(v.accounts, sid, i);
    }
  }

  /** A vault in step with the registry is never ambiguous: every account it
      enforces must use MFA, everybody else signs in with the password. */
  lemma InStepIsDecided(d: Disk, v: Vault, sid: Sid, valid: Vault -> bool)
    requires WellNamed(v) && LoadDisk(d, valid) == Success(v) && Agrees(d, v)
    ensures SignIn(d, sid, valid) == if EnforcedIn(v, sid) then Mfa else PasswordOnly
  {
    PublishedListIsExact(d, v, sid);
  }

  /** The filter that removes the password providers is on exactly when somebody
      must use a key. */
  predicate FilterFits(flag: Option<nat>, v: Vault) {
    && (flag == Some(1) <==> exists i :: 0 <= i < |v.accounts| && v.accounts[i].enforced)
    && (flag == Some(0) <==> forall i :: 0 <= i < |v.accounts| ==> !v.accounts[i].enforced)
  }

  /** The same for the validity test of the program. */
  lemma LoadedIsDecided(d: Disk, sid: Sid, sidOk: Sid -> bool)
    requires InStep(d, LoadDisk(d, ValidFor(sidOk)))
    ensures
      var v := LoadDisk(d, ValidFor(sidOk)).value;
      && (Listed(d, sid) <==> EnforcedIn(v, sid))
      && SignIn(d, sid, ValidFor(sidOk)) == (if EnforcedIn(v, sid) then Mfa else PasswordOnly)
      && FilterFits(d.filterFlag, v)
  {
    var v := LoadDisk(d, ValidFor(sidOk)).value;
    ValidIsWellNamed(v, sidOk);
    PublishedListIsExact(d, v, sid);
  }

  /** The start of the Broker, from any disk that a crash or a failed save may have
      left: once the refresh succeeds, the test that the tile falls back on finds
      the enforced accounts of the vault in force, and no sign-in is blocked. */
  method Restart(store: Machine, newId: string, resolve: Sid -> Resolution, sid: Sid, ghost sidOk: Sid -> bool)
    returns (ok: bool, listed: bool)
    requires store.valid == ValidFor(sidOk)
    modifies store
    ensures ok ==> store.Loaded().Success? && ValidVault(store.Loaded().value, sidOk)
    ensures ok ==> Some(store.Loaded().value) == Changed(BaseOf(old(store.Loaded()), newId), Refreshing(resolve))
    ensures ok ==> (listed <==> EnforcedIn(store.Loaded().value, sid))
    ensures ok ==> SignIn(store.Now(), sid, store.valid) == if listed then Mfa else PasswordOnly
    ensures ok ==> FilterFits(store.filterFlag, store.Loaded().value)
  {
    ghost var trace;
    ok, trace := store.RefreshLocalAccounts(newId, resolve);
    listed := store.IsSidEnforced(sid);
    if ok {
      LoadedIsDecided(store.Now(), sid, sidOk);
    }
  }

  function Rank(d: Decision): nat {
    match d case Mfa => 0 case Blocked => 1 case PasswordOnly => 2
  }

  /** The decision of a state that shows the vault `u` beside the list of `w`. */
  function MixedDecision(u: Vault, w: Vault, sid: Sid): Decision {
    if EnforcedIn(u, sid) then Mfa else if EnforcedIn(w, sid) then Blocked else PasswordOnly
  }

  lemma ShownDecision(d: Disk, u: Vault, w: Vault, sid: Sid, valid: Vault -> bool)
    requires WellNamed(w) && Shows(d, u, w, valid)
    ensures SignIn(d, sid, valid) == MixedDecision(u, w, sid)
  {
    PublishedListIsExact(d, w, sid);
  }

  ghost predicate NeverLooser(trace: seq<Disk>, sid: Sid, valid: Vault -> bool) {
    forall i, j :: 0 <= i <= j < |trace| ==> Rank(SignIn(trace[i], sid, valid)) >= Rank(SignIn(trace[j], sid, valid))
  }

  ghost predicate NeverStricter(trace: seq<Disk>, sid: Sid, valid: Vault -> bool) {
    forall i, j :: 0 <= i <= j < |trace| ==> Rank(SignIn(trace[i], sid, valid)) <= Rank(SignIn(trace[j], sid, valid))
  }

  /** During a successful Save the decision for an account only tightens or only
      loosens; it never goes back and forth. */
  lemma DecisionMovesOneWay(trace: seq<Disk>, u: Vault, v: Vault, sid: Sid, valid: Vault -> bool)
    requires WellNamed(u) && WellNamed(v) && MovesFrom(trace, u, v, valid)
    ensures NeverLooser(trace, sid, valid) || NeverStricter(trace, sid, valid)
  {
    var i, j :| 0 <= i <= j <= |trace| && Moves(trace, i, j, u, v, valid);
    var first, last := MixedDecision(u, u, sid), MixedDecision(v, v, sid);
    var middle := if AnyEnforced(v.accounts) then MixedDecision(u, v, sid) else MixedDecision(v, u, sid);
    forall k | 0 <= k < |trace|
      ensures SignIn(trace[k], sid, valid) == if k < i then first else if k < j then middle else last
    {
      if k < i { ShownDecision(trace[k], u, u, sid, valid); }
      else if k >= j { ShownDecision(trace[k], v, v, sid, valid); }
      else if AnyEnforced(v.accounts) { ShownDecision(trace[k], u, v, sid, valid); }
      else { ShownDecision(trace[k], v, u, sid, valid); }
    }
  }

  /** Whatever fails, the password alone is enough only for an account that the
      old or the new vault leaves unenforced; one enforced by both always needs MFA. */
  lemma PasswordOnlyIsLicensed(trace: seq<Disk>, u: Vault, v: Vault, d: Disk, sid: Sid, valid: Vault -> bool)
    requires OldOrNew(trace, Success(u), v, valid) && d in trace
    ensures SignIn(d, sid, valid) == PasswordOnly ==> !EnforcedIn(u, sid) || !EnforcedIn(v, sid)
    ensures EnforcedIn(u, sid) && EnforcedIn(v, sid) ==> SignIn(d, sid, valid) == Mfa
  {
  }

  /** A change of the vault, seen by sign-ins that read the disk in any state it
      passes through. When it succeeds, the decision for an account goes one way,
      from that of the old vault to that of the new one. Whatever fails, the
      password alone is enough only if one of the two vaults leaves the account
      unenforced. */
  method Change(store: Machine, v: Vault, sid: Sid, ghost sidOk: Sid -> bool) returns (ok: bool, ghost trace: seq<Disk>)
    requires store.valid == ValidFor(sidOk) && InStep(store.Now(), store.Loaded())
    modifies store
    ensures if trace == [] then store.Now() == old(store.Now()) else trace[|trace| - 1] == store.Now()
    ensures ok ==> NeverLooser(trace, sid, store.valid) || NeverStricter(trace, sid, store.valid)
    ensures SignIn(old(store.Now()), sid, store.valid)
      == if EnforcedIn(old(store.Loaded()).value, sid) then Mfa else PasswordOnly
    ensures ok ==> SignIn(store.Now(), sid, store.valid) == if EnforcedIn(v, sid) then Mfa else PasswordOnly
    ensures ok ==> FilterFits(store.filterFlag, v)
    ensures ValidVault(v, sidOk) && store.faults == old(store.faults) ==> ok
    ensures forall d :: d in trace && SignIn(d, sid, store.valid) == PasswordOnly ==>
      !EnforcedIn(old(store.Loaded()).value, sid) || !EnforcedIn(v, sid)
  {
    ghost var before, undone;
    before := store.Loaded();
    LoadedIsDecided(store.Now(), sid, sidOk);
    ValidIsWellNamed(before.value, sidOk);
    ok, trace, undone := store.Save(v);
    forall d | d in trace
      ensures SignIn(d, sid, store.valid) == PasswordOnly ==> !EnforcedIn(before.value, sid) || !EnforcedIn(v, sid)
    {
      PasswordOnlyIsLicensed(trace, before.value, v, d, sid, store.valid);
    }
    if ok {
      ValidIsWellNamed(v, sidOk);
      LoadedIsDecided(store.Now(), sid, sidOk);
      DecisionMovesOneWay(trace, before.value, v, sid, store.valid);
    }
  }

  /** The new vault is never in force without the policy that guards it. */
  lemma EnforcementIsGuarded(trace: seq<Disk>, v: Vault, d: Disk, sid: Sid, valid: Vault -> bool)
    requires WellNamed(v) && AnyEnforced(v.accounts) && PolicyFirst(trace, v, valid)
    requires d in trace && LoadDisk(d, valid) == Success(v)
    ensures d.filterFlag == Some(1)
    ensures Listed(d, sid) <==> EnforcedIn(v, sid)
  {
    PublishedListIsExact(d, v, sid);
  }

  /** The indexes, from `start` on, of the accounts that are still mapped. */
  function Survivors(all: seq<AccountRecord>, start: nat, resolve: Sid -> Resolution): seq<nat>
    requires start <= |all|
    decreases |all| - start
  {
    if start == |all| then []
    else (if resolve(all[start].sid).Mapped? then [start] else []) + Survivors(all, start + 1, resolve)
  }

  /** They increase, and whoever is missing is not mapped. */
  lemma {:induction false} SurvivorsAreTheMapped(all: seq<AccountRecord>, start: nat, resolve: Sid -> Resolution)
    requires start <= |all|
    ensures var from := Survivors(all, start, resolve);
      && (forall i :: 0 <= i < |from| ==> start <= from[i] < |all|)
      && (forall i, j :: 0 <= i < j < |from| ==> from[i] < from[j])
      && (forall k :: start <= k < |all| ==> (k in from <==> resolve(all[k].sid).Mapped?))
    decreases |all| - start
  {
    if start < |all| {
      SurvivorsAreTheMapped(all, start + 1, resolve);
    }
  }

  predicate KeptAs(before: AccountRecord, after: AccountRecord, resolve: Sid -> Resolution) {
    && resolve(before.sid).Mapped?
    && after == before.(username := after.username)
    && SameText(after.username, resolve(before.sid).name)
  }

  ghost predicate AllKept(all: seq<AccountRecord>, from: seq<nat>, after: seq<AccountRecord>,
                          resolve: Sid -> Resolution) {
    && |from| == |after|
    && forall i :: 0 <= i < |from| ==> from[i] < |all| && KeptAs(all[from[i]], after[i], resolve)
  }

  /** A refresh keeps the mapped accounts in their order, with their SID,
      credentials and enforced flag; only their name can change. */
  lemma {:induction false} RefreshKeepsSurvivors(all: seq<AccountRecord>, start: nat, resolve: Sid -> Resolution)
    requires start <= |all| && Refreshed(all[start..], resolve).Some?
    ensures AllKept(all, Survivors(all, start, resolve), Refreshed(all[start..], resolve).value, resolve)
    decreases |all| - start
  {
    if start < |all| {
      var a := all[start];
      assert all[start..][0] == a && all[start..][1..] == all[start + 1..];
      RefreshKeepsSurvivors(all, start + 1, resolve);
      var from, after := Survivors(all, start + 1, resolve), Refreshed(all[start + 1..], resolve).value;
      if resolve(a.sid).Mapped? {
        RenamedIsKept(a, resolve);
        KeepOneMore(all, start, from, Renamed(a, resolve(a.sid).name), after, resolve);
      } else {
        assert [] + from == from;
      }
    }
  }

  lemma RenamedIsKept(a: AccountRecord, resolve: Sid -> Resolution)
    requires resolve(a.sid).Mapped?
    ensures KeptAs(a, Renamed(a, resolve(a.sid).name), resolve)
  {
  }

  lemma KeepOneMore(all: seq<AccountRecord>, start: nat, from: seq<nat>, kept: AccountRecord, after: seq<AccountRecord>,
                    resolve: Sid -> Resolution)
    requires start < |all| && KeptAs(all[start], kept, resolve) && AllKept(all, from, after, resolve)
    ensures AllKept(all, [start] + from, [kept] + after, resolve)
  {
  }
}
