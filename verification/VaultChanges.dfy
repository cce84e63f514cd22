/** How the operations on a vault change what is stored for one account and for
    one credential, and which credential identifiers the vault holds in all. */
module VaultChanges {
  import opened Basics
  import opened Broker
  import opened CredentialStore
  import opened Vaults

  // ----- One account -----

  lemma FirstMatch(accounts: seq<AccountRecord>, sid: Sid, k: nat)
    requires k <= |accounts| && forall i :: 0 <= i < k ==> !SameText(accounts[i].sid, sid)
    requires k < |accounts| ==> SameText(accounts[k].sid, sid)
    ensures FindAccount(accounts, sid) == k
  {
  }

  lemma SameMatch(accounts: seq<AccountRecord>, sid: Sid, other: Sid)
    requires SameText(sid, other)
    ensures FindAccount(accounts, sid) == FindAccount(accounts, other)
  {
    FirstMatch(accounts, other, FindAccount(accounts, sid));
  }

  /** An upsert changes the account it names and no other. */
  lemma AccountAfterUpsert(v: Vault, a: AccountRecord, sid: Sid)
    ensures AccountOf(Upserted(v, a), sid) == if SameText(a.sid, sid) then Some(a) else AccountOf(v, sid)
  {
    var k, after := FindAccount(v.accounts, a.sid), Upserted(v, a).accounts;
    if SameText(a.sid, sid) {
      SameMatch(v.accounts, a.sid, sid);
      FirstMatch(after, sid, k);
    } else {
      var n := FindAccount(v.accounts, sid);
      if n < |v.accounts| {
        FirstMatch(after, sid, n);
      } else {
        FirstMatch(after, sid, |after|);
      }
    }
  }

  /** Removing a credential is an upsert of the account without it. */
  lemma RemovalIsUpsert(v: Vault, sid: Sid, credentialId: string)
    requires WithoutCredential(v, sid, credentialId).Some?
    ensures
      var a := v.accounts[FindAccount(v.accounts, sid)];
      && SameText(a.sid, sid) && AccountOf(v, sid) == Some(a)
      && FindCredential(a.credentials, credentialId) < |a.credentials|
      && (a.enforced ==> |a.credentials| > 1)
      && WithoutCredential(v, sid, credentialId).value
         == Upserted(v, a.(credentials := Dropped(a.credentials, FindCredential(a.credentials, credentialId))))
  {
    SameMatch(v.accounts, sid, v.accounts[FindAccount(v.accounts, sid)].sid);
  }

  /** Changing the policy is an upsert of the account with the new flag. */
  lemma EnforcementIsUpsert(v: Vault, sid: Sid, enforced: bool)
    requires WithEnforcement(v, sid, enforced).Some?
    ensures
      var a := v.accounts[FindAccount(v.accounts, sid)];
      && SameText(a.sid, sid) && AccountOf(v, sid) == Some(a)
      && WithEnforcement(v, sid, enforced).value == Upserted(v, a.(enforced := enforced))
  {
    SameMatch(v.accounts, sid, v.accounts[FindAccount(v.accounts, sid)].sid);
  }

  // ----- A refresh -----

  lemma DistinctTail(accounts: seq<AccountRecord>)
    requires accounts != [] && DistinctSids(accounts)
    ensures DistinctSids(accounts[1..])
    ensures forall i :: 0 <= i < |accounts[1..]| ==> !SameText(accounts[0].sid, accounts[1..][i].sid)
  {
  }

  function RefreshedAccount(a: Option<AccountRecord>, resolve: Sid -> Resolution): Option<AccountRecord> {
    if a.None? then None
    else match resolve(a.value.sid)
      case Mapped(name) => Some(Renamed(a.value, name))
      case _ => None
  }

  lemma AccountInCons(a: AccountRecord, others: seq<AccountRecord>, sid: Sid)
    ensures AccountIn([a] + others, sid) == if SameText(a.sid, sid) then Some(a) else AccountIn(others, sid)
  {
    assert ([a] + others)[1..] == others;
  }

  lemma NobodyElse(a: AccountRecord, others: seq<AccountRecord>, sid: Sid)
    requires SameText(a.sid, sid) && forall i :: 0 <= i < |others| ==> !SameText(a.sid, others[i].sid)
    ensures AccountIn(others, sid) == None
  {
    FirstMatch(others, sid, |others|);
  }

  /** A refresh keeps a mapped account, under its current name, and drops an
      unmapped one. */
  lemma {:induction false} FoundAfterRefresh(accounts: seq<AccountRecord>, resolve: Sid -> Resolution, sid: Sid)
    requires DistinctSids(accounts) && Refreshed(accounts, resolve).Some?
    ensures AccountIn(Refreshed(accounts, resolve).value, sid) == RefreshedAccount(AccountIn(accounts, sid), resolve)
  {
    if accounts != [] {
      var a, others := accounts[0], accounts[1..];
      DistinctTail(accounts);
      FoundAfterRefresh(others, resolve, sid);
      assert accounts == [a] + others;
      AccountInCons(a, others, sid);
      match resolve(a.sid) {
        case Mapped(name) =>
          AccountInCons(Renamed(a, name), Refreshed(others, resolve).value, sid);
        case Unmapped =>
          if SameText(a.sid, sid) { NobodyElse(a, others, sid); }
        case Unresolved =>
      }
    }
  }

  lemma AccountAfterRefresh(v: Vault, resolve: Sid -> Resolution, sid: Sid)
    requires DistinctSids(v.accounts) && RefreshedVault(v, resolve).Some?
    ensures AccountOf(RefreshedVault(v, resolve).value, sid) == RefreshedAccount(AccountOf(v, sid), resolve)
  {
    FoundAfterRefresh(v.accounts, resolve, sid);
  }

  // ----- One credential -----

  function RecordIn(cs: seq<CredentialRecord>, id: string): Option<CredentialRecord> {
    var c := FindCredential(cs, id);
    if c < |cs| then Some(cs[c]) else None
  }

  lemma FirstCredential(cs: seq<CredentialRecord>, id: string, c: nat)
    requires c <= |cs| && forall i :: 0 <= i < c ==> cs[i].credentialId != id
    requires c < |cs| ==> cs[c].credentialId == id
    ensures FindCredential(cs, id) == c
  {
  }

  lemma RecordAfterCount(a: AccountRecord, c: nat, counter: Counter, id: string)
    requires c < |a.credentials| && c == FindCredential(a.credentials, a.credentials[c].credentialId)
    ensures RecordIn(WithCounter(a, c, counter).credentials, id)
      == if a.credentials[c].credentialId == id then Some(a.credentials[c].(signCount := counter))
        else RecordIn(a.credentials, id)
  {
    FirstCredential(WithCounter(a, c, counter).credentials, id, FindCredential(a.credentials, id));
  }

  lemma RecordAfterDrop(cs: seq<CredentialRecord>, c: nat, id: string)
    requires c < |cs| && DistinctIds(cs)
    ensures RecordIn(Dropped(cs, c), id) == if cs[c].credentialId == id then None else RecordIn(cs, id)
  {
    var k, after := FindCredential(cs, id), Dropped(cs, c);
    if cs[c].credentialId == id {
      FirstCredential(cs, id, c);
      FirstCredential(after, id, |after|);
    } else if k == |cs| {
      FirstCredential(after, id, |after|);
    } else {
      FirstCredential(after, id, if k < c then k else k - 1);
    }
  }

  lemma RecordAfterAppend(cs: seq<CredentialRecord>, r: CredentialRecord, id: string)
    ensures RecordIn(cs + [r], id)
      == if RecordIn(cs, id).Some? then RecordIn(cs, id) else if r.credentialId == id then Some(r) else None
  {
    var k := FindCredential(cs, id);
    if k < |cs| {
      FirstCredential(cs + [r], id, k);
    } else {
      FirstCredential(cs + [r], id, if r.credentialId == id then |cs| else |cs| + 1);
    }
  }

  // ----- All identifiers of a vault -----

  function Sum<T>(s: seq<T>, f: T -> multiset<string>): multiset<string> {
    if s == [] then multiset{} else f(s[0]) + Sum(s[1..], f)
  }

  lemma {:induction false} SumOfUpdate<T>(s: seq<T>, k: nat, x: T, f: T -> multiset<string>)
    requires k < |s|
    ensures Sum(s[k := x], f) + f(s[k]) == Sum(s, f) + f(x)
  {
    if k == 0 {
      assert s[k := x][1..] == s[1..];
    } else {
      SumOfUpdate(s[1..], k - 1, x, f);
      assert s[k := x][1..] == s[1..][k - 1 := x];
      assert Sum(s[k := x], f) == f(s[0]) + Sum(s[1..][k - 1 := x], f);
      AddFirst(f(s[0]), Sum(s[1..][k - 1 := x], f), f(s[k]), Sum(s[1..], f), f(x));
    }
  }

  lemma AddFirst(a: multiset<string>, b: multiset<string>, c: multiset<string>, d: multiset<string>,
                 e: multiset<string>)
    requires b + c == d + e
    ensures a + b + c == a + d + e
  {
    assert a + b + c == a + (b + c);
  }

  lemma {:induction false} SumOfAppend<T>(s: seq<T>, x: T, f: T -> multiset<string>)
    ensures Sum(s + [x], f) == Sum(s, f) + f(x)
  {
    if s == [] {
      assert s + [x] == [x] && [x][1..] == [];
    } else {
      SumOfAppend(s[1..], x, f);
      assert (s + [x])[1..] == s[1..] + [x];
    }
  }

  function IdsIn(a: AccountRecord): multiset<string> {
    multiset(IdsOf(a.credentials))
  }

  function IdBag(accounts: seq<AccountRecord>): multiset<string> {
    Sum(accounts, IdsIn)
  }

  /** No identifier is registered twice, in whatever accounts. */
  ghost predicate GloballyDistinct(accounts: seq<AccountRecord>) {
    forall id :: IdBag(accounts)[id] <= 1
  }

  /** An upsert exchanges the identifiers of one account. */
  lemma BagAfterUpsert(v: Vault, a: AccountRecord)
    ensures IdBag(Upserted(v, a).accounts) + multiset(IdsOf(CredentialsOf(AccountOf(v, a.sid))))
      == IdBag(v.accounts) + multiset(IdsOf(a.credentials))
  {
    var k := FindAccount(v.accounts, a.sid);
    if k < |v.accounts| {
      SumOfUpdate(v.accounts, k, a, IdsIn);
    } else {
      SumOfAppend(v.accounts, a, IdsIn);
      assert IdsOf([]) == [];
    }
  }

  /** A refresh only loses identifiers. */
  lemma {:induction false} BagAfterRefresh(accounts: seq<AccountRecord>, resolve: Sid -> Resolution)
    requires Refreshed(accounts, resolve).Some?
    ensures IdBag(Refreshed(accounts, resolve).value) <= IdBag(accounts)
  {
    if accounts != [] {
      BagAfterRefresh(accounts[1..], resolve);
      if resolve(accounts[0].sid).Mapped? {
        var a, others := Renamed(accounts[0], resolve(accounts[0].sid).name), Refreshed(accounts[1..], resolve).value;
        assert ([a] + others)[1..] == others;
      }
    }
  }

  lemma {:induction false} InBagIffInUse(accounts: seq<AccountRecord>, id: string)
    ensures id in IdBag(accounts) <==> IdInUse(accounts, id)
  {
    if accounts != [] {
      InBagIffInUse(accounts[1..], id);
      forall i | 0 <= i < |accounts[1..]|
        ensures accounts[1..][i] == accounts[i + 1]
      {
      }
    }
  }

  lemma IdsAfterDrop(cs: seq<CredentialRecord>, c: nat)
    requires c < |cs|
    ensures multiset(IdsOf(Dropped(cs, c))) == multiset(IdsOf(cs)) - multiset{cs[c].credentialId}
  {
    var ids := IdsOf(cs);
    assert ids == ids[..c] + ([ids[c]] + ids[c + 1..]);
    assert IdsOf(Dropped(cs, c)) == ids[..c] + ids[c + 1..];
  }

  lemma IdsAfterAppend(cs: seq<CredentialRecord>, r: CredentialRecord)
    ensures multiset(IdsOf(cs + [r])) == multiset(IdsOf(cs)) + multiset{r.credentialId}
  {
    assert IdsOf(cs + [r]) == IdsOf(cs) + [r.credentialId];
  }
}
