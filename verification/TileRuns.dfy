/** What may reach the LSA, over every sequence of callbacks on a logon tile. */
module TileRuns {
  import opened Basics
  import opened CredentialTile

  datatype Callback =
    | SetString(field: Field, value: string)
    | Deselect
    | Disconnected
    | Retired
    | Connected(env: Env)
    | Serialize(packs: bool)
    | Report(status: NtStatus, substatus: NtStatus)

  type Resolver = string -> Option<LocalAccount>

  /** Resolving the name of a resolved account gives the same account. */
  ghost predicate Idempotent(resolve: Resolver) {
    forall name :: IdempotentAt(resolve, name)
  }

  predicate IdempotentAt(resolve: Resolver, name: string) {
    resolve(name).Some? ==> resolve(resolve(name).value.name) == resolve(name)
  }

  function Next(t: Tile, c: Callback, resolve: Resolver): Tile {
    match c
    case SetString(field, value) => AfterSetString(t, field, value).0
    case Deselect => FullReset(t)
    case Disconnected => FullReset(t)
    case Retired => FullReset(t).(retired := true)
    case Connected(env) => AfterConnect(t, env, resolve).0
    case Serialize(_) => t
    case Report(status, substatus) => AfterReport(t, status, substatus)
  }

  datatype Run = Run(tiles: seq<Tile>, callbacks: seq<Callback>)

  /** A run of a tile from its initialization. */
  ghost predicate IsRun(run: Run, resolve: Resolver) {
    && Idempotent(resolve)
    && |run.tiles| == |run.callbacks| + 1
    && (exists username, domain, password, userSid :: run.tiles[0] == Fresh(username, domain, password, userSid))
    && forall k: nat :: k < |run.callbacks| ==> Follows(run, resolve, k)
  }

  predicate Follows(run: Run, resolve: Resolver, k: nat)
    requires k < |run.callbacks| < |run.tiles|
  {
    run.tiles[k + 1] == Next(run.tiles[k], run.callbacks[k], resolve)
  }

  // ----- What a tile holds -----

  /** The account a tile names. */
  function AccountOf(t: Tile): LocalAccount {
    LocalAccount(t.username, t.domain, t.sid)
  }

  /** MFA is complete for this account. */
  function Authorized(t: Tile): Option<LocalAccount> {
    if t.mfaComplete then Some(AccountOf(t)) else None
  }

  /** The Broker's challenge for this account waits for a key. */
  function Pending(t: Tile): Option<(LocalAccount, Challenge)> {
    if t.challenge.Some? then Some((AccountOf(t), t.challenge.value)) else None
  }

  /** The password of this account may be changed. */
  function MayChange(t: Tile): Option<LocalAccount> {
    if t.mode == ChangePassword && t.changeAuthorized then Some(AccountOf(t)) else None
  }

  /** The name resolves to the account, which is the one the tile is bound to. */
  predicate Resolves(t: Tile, name: string, a: LocalAccount, resolve: Resolver) {
    resolve(name) == Some(a) && (t.userSid == "" || SameText(a.sid, t.userSid))
  }

  predicate WellNamed(t: Tile, resolve: Resolver) {
    t.mfaComplete || t.challenge.Some? ==> Resolves(t, t.username, AccountOf(t), resolve)
  }

  /** The callback ends every authorization. */
  predicate Ends(t: Tile, c: Callback) {
    || c.Deselect? || c.Disconnected? || c.Retired?
    || (c.SetString? && c.field == UsernameField && c.value != t.username && t.userSid == "" && !t.retired)
    || (c.Connected? && c.env.stops(0) && !t.retired)
  }

  /** A Connect that asks the Broker for a challenge for the account and gets it. */
  predicate Asks(t: Tile, c: Callback, resolve: Resolver, a: LocalAccount, challenge: Challenge) {
    && c.Connected? && Resolves(t, t.username, a, resolve) && AskedFor(t, c.env, resolve) == Some(a.sid)
    && c.env.begin(a.sid) == Some(challenge) && challenge.enforced
  }

  /** A Connect to which the Broker and the registry say that the account needs
      no MFA. */
  predicate Waives(t: Tile, c: Callback, resolve: Resolver, a: LocalAccount) {
    && c.Connected? && Resolves(t, t.username, a, resolve) && AskedFor(t, c.env, resolve) == Some(a.sid)
    && c.env.begin(a.sid).Some? && !c.env.begin(a.sid).value.enforced && !c.env.listed(a.sid)
  }

  /** A Connect that submits an assertion for the challenge, which the Broker accepts. */
  predicate Accepts(t: Tile, c: Callback, resolve: Resolver, challenge: Challenge) {
    && c.Connected? && Submitted(t, c.env, resolve) == Some(challenge.sessionId)
    && c.env.finish(challenge.sessionId)
  }

  /** A Connect that completes MFA for the account. */
  predicate Authorizes(t: Tile, c: Callback, resolve: Resolver, a: LocalAccount) {
    || Waives(t, c, resolve, a)
    || (Pending(t).Some? && Pending(t).value.0 == a && Accepts(t, c, resolve, Pending(t).value.1))
    || (c.Connected? && c.env.begin(a.sid).Some?
        && Asks(t, c, resolve, a, c.env.begin(a.sid).value) && Accepts(t, c, resolve, c.env.begin(a.sid).value))
  }

  // ----- One callback -----

  /** The Broker accepts what is submitted for the pending challenge. */
  predicate AcceptedBy(submitted: Option<string>, t: Tile, env: Env) {
    t.challenge.Some? && submitted == Some(t.challenge.value.sessionId) && env.finish(t.challenge.value.sessionId)
  }

  /** The last part of a Connect completes MFA only with an accepted challenge. */
  lemma VerifyStep(t: Tile, env: Env)
    ensures
      var u := AfterVerify(t, env).0;
      && u.userSid == t.userSid && u.challenge.None? && (u.mode == t.mode || u.mode == UsernamePassword)
      && (u.mfaComplete ==> AccountOf(u) == AccountOf(t) && AcceptedBy(VerifySubmits(t, env), t, env))
  {
  }

  lemma ChallengeStep(t: Tile, env: Env)
    requires t.challenge.Some?
    ensures
      var u := AfterChallenge(t, env).0;
      && u.userSid == t.userSid && (u.mode == t.mode || u.mode == UsernamePassword || u.mode == Fido)
      && (u.challenge.Some? ==> Pending(u) == Pending(t) && Authorized(u) == Authorized(t))
      && (u.challenge.None? && u.mfaComplete ==>
             AccountOf(u) == AccountOf(t) && AcceptedBy(ChallengeSubmits(t, env), t, env))
  {
    if env.devices != [] && (|env.devices| == 1 || (!env.stops(2) && env.touched.Some?)) {
      var k := if |env.devices| > 1 then env.touched.value else 0;
      VerifyStep(t.(devices := env.devices, selected := Some(k)), env);
    }
  }

  /** What a callback leaves of authorizations: each was given by this callback or
      was there before. */
  ghost predicate AuthorityExplained(t: Tile, c: Callback, u: Tile, resolve: Resolver) {
    && WellNamed(u, resolve)
    && (u.mfaComplete ==>
          || Authorizes(t, c, resolve, AccountOf(u))
          || (Authorized(t) == Authorized(u) && !Ends(t, c) && !c.Report?))
    && (u.challenge.Some? ==>
          || Asks(t, c, resolve, AccountOf(u), u.challenge.value)
          || (Pending(u) == Pending(t) && !Ends(t, c)))
    && (MayChange(u).Some? ==>
          || (c.Report? && DemandsChange(c.status, c.substatus) && Authorized(t) == MayChange(u))
          || (MayChange(t) == MayChange(u) && !Ends(t, c) && !c.Report?))
  }

  lemma BeginStep(t: Tile, env: Env, resolve: Resolver)
    requires IdempotentAt(resolve, t.username) && WellNamed(t, resolve)
    requires Proceeds(t, env) && t.challenge.None?
    ensures AuthorityExplained(t, Connected(env), AfterBegin(t, env, resolve).0, resolve)
  {
    var account := resolve(t.username);
    if account.Some? && Resolves(t, t.username, account.value, resolve) {
      var a := account.value;
      var named := t.(username := a.name, domain := a.computer, sid := a.sid);
      assert AccountOf(named) == a && (t.mfaComplete ==> AccountOf(t) == a);
      var reply := env.begin(a.sid);
      if reply.Some? && reply.value.enforced && !env.stops(1) {
        ChallengeStep(named.(challenge := reply), env);
      }
    }
  }

  lemma ConnectStep(t: Tile, env: Env, resolve: Resolver)
    requires IdempotentAt(resolve, t.username) && WellNamed(t, resolve)
    ensures AuthorityExplained(t, Connected(env), AfterConnect(t, env, resolve).0, resolve)
  {
    if Proceeds(t, env) {
      if t.challenge.None? { BeginStep(t, env, resolve); } else { VerifyStep(t, env); }
    }
  }

  lemma StringStep(t: Tile, field: Field, value: string, resolve: Resolver)
    requires WellNamed(t, resolve)
    ensures AuthorityExplained(t, SetString(field, value), AfterSetString(t, field, value).0, resolve)
  {
  }

  lemma ReportStep(t: Tile, status: NtStatus, substatus: NtStatus, resolve: Resolver)
    requires WellNamed(t, resolve)
    ensures AuthorityExplained(t, Report(status, substatus), AfterReport(t, status, substatus), resolve)
  {
  }

  lemma Step(t: Tile, c: Callback, resolve: Resolver)
    requires Idempotent(resolve) && WellNamed(t, resolve)
    ensures AuthorityExplained(t, c, Next(t, c, resolve), resolve)
  {
    match c {
      case Connected(env) =>
        assert IdempotentAt(resolve, t.username);
        ConnectStep(t, env, resolve);
      case SetString(field, value) => StringStep(t, field, value, resolve);
      case Report(status, substatus) => ReportStep(t, status, substatus, resolve);
      case _ =>
    }
  }

  lemma WellNamedNext(t: Tile, c: Callback, resolve: Resolver)
    requires Idempotent(resolve) && WellNamed(t, resolve)
    ensures WellNamed(Next(t, c, resolve), resolve)
  {
    Step(t, c, resolve);
  }

  // ----- Whole runs -----

  /** What is held now was given by some earlier step and never ended since. */
  lemma {:induction false} Origin<A>(held: nat -> Option<A>, given: nat -> bool, ended: nat -> bool, k: nat)
    returns (j: nat)
    requires held(0).None? && held(k).Some?
    requires forall m: nat :: m < k ==> GoesOn(held, given, ended, m)
    ensures j < k && given(j)
    ensures forall i: nat :: j < i <= k ==> held(i) == held(k)
    ensures forall i: nat :: j < i < k ==> !ended(i)
  {
    assert GoesOn(held, given, ended, k - 1);
    if given(k - 1) {
      j := k - 1;
    } else {
      j := Origin(held, given, ended, k - 1);
    }
  }

  lemma {:induction false} AlwaysWellNamed(run: Run, resolve: Resolver, k: nat)
    requires IsRun(run, resolve) && k < |run.tiles|
    ensures WellNamed(run.tiles[k], resolve)
  {
    if k > 0 {
      AlwaysWellNamed(run, resolve, k - 1);
      assert Follows(run, resolve, k - 1);
      WellNamedNext(run.tiles[k - 1], run.callbacks[k - 1], resolve);
    }
  }

  lemma StepOfRun(run: Run, resolve: Resolver, k: nat)
    requires IsRun(run, resolve) && k < |run.callbacks|
    ensures AuthorityExplained(run.tiles[k], run.callbacks[k], run.tiles[k + 1], resolve)
  {
    AlwaysWellNamed(run, resolve, k);
    assert Follows(run, resolve, k);
    Step(run.tiles[k], run.callbacks[k], resolve);
  }

  /** The histories of a run: what is held in each state, by which steps it was
      given, and which steps end everything. */
  function AuthorizedIn(run: Run): nat -> Option<LocalAccount> {
    (k: nat) => if k < |run.tiles| then Authorized(run.tiles[k]) else None
  }

  function PendingIn(run: Run): nat -> Option<(LocalAccount, Challenge)> {
    (k: nat) => if k < |run.tiles| then Pending(run.tiles[k]) else None
  }

  function MayChangeIn(run: Run): nat -> Option<LocalAccount> {
    (k: nat) => if k < |run.tiles| then MayChange(run.tiles[k]) else None
  }

  predicate Within(run: Run, k: nat) {
    k < |run.callbacks| && k + 1 < |run.tiles|
  }

  function AuthorizedBy(run: Run, resolve: Resolver): nat -> bool {
    (k: nat) => Within(run, k) && Authorizes(run.tiles[k], run.callbacks[k], resolve, AccountOf(run.tiles[k + 1]))
  }

  function AskedBy(run: Run, resolve: Resolver): nat -> bool {
    (k: nat) => Within(run, k) && Pending(run.tiles[k + 1]).Some?
      && Asks(run.tiles[k], run.callbacks[k], resolve, Pending(run.tiles[k + 1]).value.0,
              Pending(run.tiles[k + 1]).value.1)
  }

  function DemandedBy(run: Run): nat -> bool {
    (k: nat) => Within(run, k) && run.callbacks[k].Report?
      && DemandsChange(run.callbacks[k].status, run.callbacks[k].substatus)
      && Authorized(run.tiles[k]) == MayChange(run.tiles[k + 1])
  }

  function ResetBy(run: Run): nat -> bool {
    (k: nat) => Within(run, k) && Ends(run.tiles[k], run.callbacks[k])
  }

  function EndedBy(run: Run): nat -> bool {
    (k: nat) => Within(run, k) && (run.callbacks[k].Report? || Ends(run.tiles[k], run.callbacks[k]))
  }

  /** No callback after step `j` and before step `k` ends authorizations. */
  ghost predicate Uninterrupted(run: Run, j: nat, k: nat) {
    forall i: nat :: j < i < k ==> !EndedBy(run)(i)
  }

  predicate GoesOn<A(==)>(held: nat -> Option<A>, given: nat -> bool, ended: nat -> bool, k: nat) {
    held(k + 1).Some? ==> given(k) || (held(k) == held(k + 1) && !ended(k))
  }

  lemma AuthorizationGoesOn(run: Run, resolve: Resolver, k: nat)
    requires Within(run, k) && AuthorityExplained(run.tiles[k], run.callbacks[k], run.tiles[k + 1], resolve)
    ensures GoesOn(AuthorizedIn(run), AuthorizedBy(run, resolve), EndedBy(run), k)
  {
  }

  lemma NextAuthorization(run: Run, resolve: Resolver, k: nat)
    requires IsRun(run, resolve) && k < |run.callbacks|
    ensures GoesOn(AuthorizedIn(run), AuthorizedBy(run, resolve), EndedBy(run), k)
  {
    StepOfRun(run, resolve, k);
    AuthorizationGoesOn(run, resolve, k);
  }

  lemma ChallengeGoesOn(run: Run, resolve: Resolver, k: nat)
    requires Within(run, k) && AuthorityExplained(run.tiles[k], run.callbacks[k], run.tiles[k + 1], resolve)
    ensures GoesOn(PendingIn(run), AskedBy(run, resolve), ResetBy(run), k)
  {
  }

  lemma NextChallenge(run: Run, resolve: Resolver, k: nat)
    requires IsRun(run, resolve) && k < |run.callbacks|
    ensures GoesOn(PendingIn(run), AskedBy(run, resolve), ResetBy(run), k)
  {
    StepOfRun(run, resolve, k);
    ChallengeGoesOn(run, resolve, k);
  }

  lemma ChangeGoesOn(run: Run, resolve: Resolver, k: nat)
    requires Within(run, k) && AuthorityExplained(run.tiles[k], run.callbacks[k], run.tiles[k + 1], resolve)
    ensures GoesOn(MayChangeIn(run), DemandedBy(run), EndedBy(run), k)
  {
  }

  lemma NextChange(run: Run, resolve: Resolver, k: nat)
    requires IsRun(run, resolve) && k < |run.callbacks|
    ensures GoesOn(MayChangeIn(run), DemandedBy(run), EndedBy(run), k)
  {
    StepOfRun(run, resolve, k);
    ChangeGoesOn(run, resolve, k);
  }

  lemma AuthorizationOrigin(run: Run, resolve: Resolver, k: nat) returns (j: nat)
    requires IsRun(run, resolve) && k < |run.tiles| && AuthorizedIn(run)(k).Some?
    ensures j < k && AuthorizedBy(run, resolve)(j)
    ensures Uninterrupted(run, j, k) && forall i: nat :: j < i <= k ==> AuthorizedIn(run)(i) == AuthorizedIn(run)(k)
  {
    forall m: nat | m < k
      ensures GoesOn(AuthorizedIn(run), AuthorizedBy(run, resolve), EndedBy(run), m)
    {
      NextAuthorization(run, resolve, m);
    }
    assert AuthorizedIn(run)(0).None?;
    j := Origin(AuthorizedIn(run), AuthorizedBy(run, resolve), EndedBy(run), k);
  }

  lemma AuthorizedFor(run: Run, resolve: Resolver, j: nat, k: nat)
    requires j < k < |run.tiles| && AuthorizedBy(run, resolve)(j) && AuthorizedIn(run)(j + 1) == AuthorizedIn(run)(k)
      && run.tiles[k].mfaComplete
    ensures Within(run, j) && Authorizes(run.tiles[j], run.callbacks[j], resolve, AccountOf(run.tiles[k]))
  {
  }

  /** Completed MFA has its Connect, for the same account, with nothing since that
      would end it: no report, reset, disconnection, retirement, cancellation or
      change of the user name. */
  lemma MfaHasOrigin(run: Run, resolve: Resolver, k: nat) returns (j: nat)
    requires IsRun(run, resolve) && k < |run.tiles| && run.tiles[k].mfaComplete
    ensures j < k && Authorizes(run.tiles[j], run.callbacks[j], resolve, AccountOf(run.tiles[k]))
    ensures Uninterrupted(run, j, k) && forall i: nat :: j < i <= k ==> AuthorizedIn(run)(i) == AuthorizedIn(run)(k)
  {
    j := AuthorizationOrigin(run, resolve, k);
    AuthorizedFor(run, resolve, j, k);
  }

  lemma ChallengedFor(run: Run, resolve: Resolver, j: nat, k: nat)
    requires j < k < |run.tiles| && AskedBy(run, resolve)(j) && PendingIn(run)(j + 1) == PendingIn(run)(k)
      && Pending(run.tiles[k]).Some?
    ensures Within(run, j)
      && Asks(run.tiles[j], run.callbacks[j], resolve, Pending(run.tiles[k]).value.0, Pending(run.tiles[k]).value.1)
  {
  }

  /** A waiting challenge has its Connect, for the same account, with no reset since. */
  lemma ChallengeHasOrigin(run: Run, resolve: Resolver, k: nat) returns (j: nat)
    requires IsRun(run, resolve) && k < |run.tiles| && Pending(run.tiles[k]).Some?
    ensures
      var (a, challenge) := Pending(run.tiles[k]).value;
      j < k && Asks(run.tiles[j], run.callbacks[j], resolve, a, challenge)
    ensures forall i: nat :: j < i < k ==> !ResetBy(run)(i)
  {
    forall m: nat | m < k
      ensures GoesOn(PendingIn(run), AskedBy(run, resolve), ResetBy(run), m)
    {
      NextChallenge(run, resolve, m);
    }
    j := Origin(PendingIn(run), AskedBy(run, resolve), ResetBy(run), k);
    ChallengedFor(run, resolve, j, k);
  }

  /** The Connect at step `j` completed MFA for the account: it was told that none
      is needed, or the Broker accepted an assertion for a challenge that it gave
      for this account at step `i`, with no reset in between. */
  ghost predicate Completes(run: Run, resolve: Resolver, i: nat, j: nat, a: LocalAccount)
    requires |run.callbacks| < |run.tiles|
  {
    && i <= j < |run.callbacks| && (forall m: nat :: i < m < j ==> !ResetBy(run)(m))
    && (Waives(run.tiles[j], run.callbacks[j], resolve, a)
        || exists challenge ::
             Asks(run.tiles[i], run.callbacks[i], resolve, a, challenge)
               && Accepts(run.tiles[j], run.callbacks[j], resolve, challenge))
  }

  lemma MfaIsCompleted(run: Run, resolve: Resolver, k: nat) returns (i: nat, j: nat)
    requires IsRun(run, resolve) && k < |run.tiles| && run.tiles[k].mfaComplete
    ensures j < k && Completes(run, resolve, i, j, AccountOf(run.tiles[k])) && Uninterrupted(run, j, k)
    ensures forall m: nat :: j < m <= k ==> AuthorizedIn(run)(m) == AuthorizedIn(run)(k)
  {
    var a := AccountOf(run.tiles[k]);
    j := MfaHasOrigin(run, resolve, k);
    i := j;
    var t, c := run.tiles[j], run.callbacks[j];
    if !Waives(t, c, resolve, a) && Pending(t).Some? && Pending(t).value.0 == a
      && Accepts(t, c, resolve, Pending(t).value.1) {
      i := ChallengeHasOrigin(run, resolve, j);
      assert Asks(run.tiles[i], run.callbacks[i], resolve, a, t.challenge.value);
    }
  }

  /** A logon reaches the LSA only for the account of a Connect that completed MFA,
      the one the tile is bound to, with nothing since that ends it. */
  lemma LogonIsAuthorized(run: Run, resolve: Resolver, k: nat, packs: bool) returns (i: nat, j: nat, a: LocalAccount)
    requires IsRun(run, resolve) && k < |run.tiles| && Serialized(run.tiles[k], packs).Logon?
    ensures Serialized(run.tiles[k], packs) == Logon(a.computer, a.name, run.tiles[k].password)
    ensures run.tiles[k].userSid == "" || SameText(a.sid, run.tiles[k].userSid)
    ensures resolve(a.name) == Some(a) && !run.tiles[k].retired && run.tiles[k].mode != ChangePassword
    ensures j < k && Completes(run, resolve, i, j, a) && Uninterrupted(run, j, k)
    ensures forall m: nat :: j < m <= k ==> AuthorizedIn(run)(m) == Some(a)
  {
    a := AccountOf(run.tiles[k]);
    AlwaysWellNamed(run, resolve, k);
    i, j := MfaIsCompleted(run, resolve, k);
  }

  /** A password change reaches the LSA only in its own mode, with equal new
      passwords that are not empty, when the last report demanded the change and
      found MFA complete for the same account. */
  lemma ChangeIsAuthorized(run: Run, resolve: Resolver, k: nat, packs: bool)
    returns (i: nat, j: nat, m: nat, a: LocalAccount)
    requires IsRun(run, resolve) && k < |run.tiles| && Serialized(run.tiles[k], packs).Change?
    ensures run.tiles[k].mode == ChangePassword && !run.tiles[k].retired
    ensures run.tiles[k].newPassword1 == run.tiles[k].newPassword2 != ""
    ensures Serialized(run.tiles[k], packs)
      == Change(a.computer, a.name, run.tiles[k].password, run.tiles[k].newPassword1)
    ensures m < k && run.callbacks[m].Report? && DemandsChange(run.callbacks[m].status, run.callbacks[m].substatus)
    ensures run.tiles[m].mfaComplete && AccountOf(run.tiles[m]) == a && Uninterrupted(run, m, k)
    ensures j < m && Completes(run, resolve, i, j, a) && Uninterrupted(run, j, m)
  {
    a := AccountOf(run.tiles[k]);
    m := ChangeHasOrigin(run, resolve, k);
    i, j := MfaIsCompleted(run, resolve, m);
  }

  lemma ChangeHasOrigin(run: Run, resolve: Resolver, k: nat) returns (j: nat)
    requires IsRun(run, resolve) && k < |run.tiles| && MayChange(run.tiles[k]).Some?
    ensures j < k && run.callbacks[j].Report? && DemandsChange(run.callbacks[j].status, run.callbacks[j].substatus)
    ensures run.tiles[j].mfaComplete && AccountOf(run.tiles[j]) == AccountOf(run.tiles[k])
    ensures Uninterrupted(run, j, k) && forall i: nat :: j < i <= k ==> MayChangeIn(run)(i) == MayChangeIn(run)(k)
  {
    forall m: nat | m < k
      ensures GoesOn(MayChangeIn(run), DemandedBy(run), EndedBy(run), m)
    {
      NextChange(run, resolve, m);
    }
    j := Origin(MayChangeIn(run), DemandedBy(run), EndedBy(run), k);
    assert MayChangeIn(run)(j + 1) == MayChangeIn(run)(k);
  }

  /** A retired tile never hands anything over. */
  lemma {:induction false} RetiredNeverFinishes(run: Run, resolve: Resolver, j: nat, k: nat, packs: bool)
    requires IsRun(run, resolve) && j < k < |run.tiles| && run.callbacks[j].Retired?
    ensures run.tiles[k].retired && Serialized(run.tiles[k], packs) == NotFinished
  {
    assert Follows(run, resolve, k - 1);
    if j < k - 1 {
      RetiredNeverFinishes(run, resolve, j, k - 1, packs);
      RetiredStays(run.tiles[k - 1], run.callbacks[k - 1], resolve);
    }
  }

  lemma RetiredStays(t: Tile, c: Callback, resolve: Resolver)
    requires t.retired
    ensures Next(t, c, resolve).retired
  {
  }

  // ----- The authorization of a password change outside its mode -----

  /** The flag is set although no password change is under way. */
  predicate Leftover(t: Tile) {
    t.changeAuthorized && t.mode != ChangePassword
  }

  /** A report of general failure, which resets the mode and not the flag. */
  predicate Leaves(t: Tile, c: Callback) {
    c.Report? && c.status != StatusSuccess && !DemandsChange(c.status, c.substatus) && t.changeAuthorized
  }

  predicate VerifyResets(t: Tile, env: Env) {
    && t.challenge.Some? && t.selected.Some? && t.selected.value < |t.devices|
    && (env.stops(3) || (env.signs(t.selected.value, t.pin) && env.finish(t.challenge.value.sessionId) && env.stops(4)))
  }

  predicate ChallengeResets(t: Tile, env: Env) {
    if env.devices == [] || (|env.devices| > 1 && !env.stops(2) && env.touched.None?) then false
    else if |env.devices| > 1 && env.stops(2) then true
    else
      var k := if |env.devices| > 1 then env.touched.value else 0;
      !env.devices[k].hasPin && VerifyResets(t.(devices := env.devices, selected := Some(k)), env)
  }

  predicate BeginResets(t: Tile, env: Env, resolve: Resolver) {
    var account := resolve(t.username);
    && account.Some?
    && var reply := env.begin(account.value.sid);
    || (t.userSid != "" && !SameText(account.value.sid, t.userSid))
    || (reply.Some? && (env.stops(1) || (reply.value.enforced && ChallengeResets(t.(challenge := reply), env))))
  }

  /** A Connect that is cancelled where that is asked, or that names another
      account than the one the tile is bound to. */
  predicate ConnectResets(t: Tile, env: Env, resolve: Resolver) {
    || (!t.retired && env.stops(0))
    || (Proceeds(t, env) && if t.challenge.None? then BeginResets(t, env, resolve) else VerifyResets(t, env))
  }

  /** The callback takes a left flag back: by a reset, or by a report of success or
      a new demand. */
  predicate TakesBack(t: Tile, c: Callback, resolve: Resolver) {
    match c
    case SetString(field, value) => !t.retired && field == UsernameField && t.userSid == "" && value != t.username
    case Deselect => true
    case Disconnected => true
    case Retired => true
    case Connected(env) => ConnectResets(t, env, resolve)
    case Serialize(_) => false
    case Report(status, substatus) => status == StatusSuccess || DemandsChange(status, substatus)
  }

  /** What a callback keeps of the flag outside its mode. */
  predicate StaysLeft(u: Tile, t: Tile, reset: bool) {
    u.mode != ChangePassword && u.changeAuthorized == (t.changeAuthorized && !reset)
  }

  lemma VerifyLeft(t: Tile, env: Env)
    requires t.mode != ChangePassword
    ensures StaysLeft(AfterVerify(t, env).0, t, VerifyResets(t, env))
  {
  }

  lemma ChallengeLeft(t: Tile, env: Env)
    requires t.mode != ChangePassword && t.challenge.Some?
    ensures StaysLeft(AfterChallenge(t, env).0, t, ChallengeResets(t, env))
  {
    if env.devices != [] && (|env.devices| == 1 || (!env.stops(2) && env.touched.Some?)) {
      var k := if |env.devices| > 1 then env.touched.value else 0;
      VerifyLeft(t.(devices := env.devices, selected := Some(k)), env);
    }
  }

  lemma SameChallengeResets(t: Tile, u: Tile, env: Env)
    requires t.challenge == u.challenge && t.pin == u.pin
    ensures ChallengeResets(t, env) == ChallengeResets(u, env)
  {
  }

  lemma BeginLeft(t: Tile, env: Env, resolve: Resolver)
    requires t.mode != ChangePassword
    ensures StaysLeft(AfterBegin(t, env, resolve).0, t, BeginResets(t, env, resolve))
  {
    var account := resolve(t.username);
    if account.Some? && env.begin(account.value.sid).Some? {
      var reply := env.begin(account.value.sid);
      var named := t.(username := account.value.name, domain := account.value.computer, sid := account.value.sid);
      ChallengeLeft(named.(challenge := reply), env);
      SameChallengeResets(t.(challenge := reply), named.(challenge := reply), env);
    }
  }

  lemma ConnectLeft(t: Tile, env: Env, resolve: Resolver)
    ensures Leftover(AfterConnect(t, env, resolve).0) <==> Leftover(t) && !ConnectResets(t, env, resolve)
  {
    if Proceeds(t, env) {
      if t.challenge.None? { BeginLeft(t, env, resolve); } else { VerifyLeft(t, env); }
    }
  }

  /** A report leaves the flag outside its mode exactly when it is one of general
      failure and finds the flag set. */
  lemma ReportLeavesFlagIff(t: Tile, status: NtStatus, substatus: NtStatus)
    ensures Leftover(AfterReport(t, status, substatus)) <==> Leaves(t, Report(status, substatus))
  {
  }

  /** After any callback the flag is left exactly when a report leaves it, or it was
      left before and the callback does not take it back. */
  lemma FlagIsLeftIff(t: Tile, c: Callback, resolve: Resolver)
    ensures Leftover(Next(t, c, resolve)) <==> Leaves(t, c) || (Leftover(t) && !TakesBack(t, c, resolve))
  {
    match c {
      case Connected(env) => ConnectLeft(t, env, resolve);
      case Report(status, substatus) => ReportLeavesFlagIff(t, status, substatus);
      case _ =>
    }
  }

  /** A report left the flag at step `j`, and no callback since takes it back. */
  ghost predicate LeftSince(run: Run, resolve: Resolver, j: nat, k: nat) {
    && j < k <= |run.callbacks| <= |run.tiles| && Leaves(run.tiles[j], run.callbacks[j])
    && forall m :: j < m < k ==> !TakesBack(run.tiles[m], run.callbacks[m], resolve)
  }

  ghost predicate WasLeft(run: Run, resolve: Resolver, k: nat) {
    exists j: nat :: LeftSince(run, resolve, j, k)
  }

  /** In every state of every run: exactly when the flag is set outside its mode. */
  lemma {:induction false} LeftoverIff(run: Run, resolve: Resolver, k: nat)
    requires IsRun(run, resolve) && k < |run.tiles|
    ensures Leftover(run.tiles[k]) <==> WasLeft(run, resolve, k)
  {
    if k > 0 {
      LeftoverIff(run, resolve, k - 1);
      assert Follows(run, resolve, k - 1);
      FlagIsLeftIff(run.tiles[k - 1], run.callbacks[k - 1], resolve);
      WasLeftNext(run, resolve, k - 1);
    }
  }

  lemma WasLeftNext(run: Run, resolve: Resolver, k: nat)
    requires k < |run.callbacks| < |run.tiles|
    ensures WasLeft(run, resolve, k + 1) <==>
      Leaves(run.tiles[k], run.callbacks[k])
      || (WasLeft(run, resolve, k) && !TakesBack(run.tiles[k], run.callbacks[k], resolve))
  {
    if Leaves(run.tiles[k], run.callbacks[k]) {
      assert LeftSince(run, resolve, k, k + 1);
    } else if WasLeft(run, resolve, k + 1) {
      var j: nat :| LeftSince(run, resolve, j, k + 1);
      assert LeftSince(run, resolve, j, k);
    }
    if WasLeft(run, resolve, k) && !TakesBack(run.tiles[k], run.callbacks[k], resolve) {
      var j: nat :| LeftSince(run, resolve, j, k);
      assert LeftSince(run, resolve, j, k + 1);
    }
  }

  /** A waived Connect, a report that demands a new password, and a report of
      general failure. */
  lemma LeftoverExample() returns (run: Run, resolve: Resolver)
    ensures IsRun(run, resolve) && |run.callbacks| == 3 && run.callbacks[0].Connected?
    ensures run.callbacks[1] == Report(PasswordMustChange, OtherStatus)
    ensures run.callbacks[2] == Report(WrongPassword, OtherStatus)
    ensures Leftover(run.tiles[3])
  {
    resolve := TheResolver();
    run := Run([Fresh("u", "PC", "p", ""), WaivedTile(), AfterReport(WaivedTile(), PasswordMustChange, OtherStatus),
                AfterReport(AfterReport(WaivedTile(), PasswordMustChange, OtherStatus), WrongPassword, OtherStatus)],
               [Connected(Waiver()), Report(PasswordMustChange, OtherStatus), Report(WrongPassword, OtherStatus)]);
    WaivedConnect();
    forall k: nat | k < 3
      ensures Follows(run, resolve, k)
    {
      assert k == 0 || k == 1 || k == 2;
    }
  }

  /** Outside its mode the flag is of no use, whatever callbacks follow: no change
      is handed over from such a state, and whenever one may be handed over later, a
      report since then demanded it and found MFA complete for the same account. */
  lemma LeftoverIsUseless(run: Run, resolve: Resolver, i: nat, k: nat, packs: bool) returns (m: nat)
    requires IsRun(run, resolve) && i <= k < |run.tiles| && run.tiles[i].mode != ChangePassword
    ensures !Serialized(run.tiles[i], packs).Change?
    ensures MayChange(run.tiles[k]).Some? ==>
      && i <= m < k && run.callbacks[m].Report? && DemandsChange(run.callbacks[m].status, run.callbacks[m].substatus)
      && Authorized(run.tiles[m]) == MayChange(run.tiles[k])
  {
    m := i;
    if MayChange(run.tiles[k]).Some? {
      m := ChangeHasOrigin(run, resolve, k);
      assert m < i ==> MayChangeIn(run)(i) == MayChangeIn(run)(k);
    }
  }

  /** A Connect that the user cancels, wherever, leaves nothing authorized. */
  lemma CancelledLeavesNothing(t: Tile, env: Env, resolve: Resolver)
    requires AfterConnect(t, env, resolve).1 == Cancelled
    ensures
      var u := AfterConnect(t, env, resolve).0;
      Authorized(u).None? && Pending(u).None? && MayChange(u).None? && !u.changeAuthorized && u.password == ""
  {
    if !env.stops(0) && t.challenge.None? {
      CancelledCeremony(t, env, resolve);
    }
  }

  lemma CancelledCeremony(t: Tile, env: Env, resolve: Resolver)
    requires AfterBegin(t, env, resolve).1 == Cancelled
    ensures exists named :: AfterBegin(t, env, resolve).0 == FullReset(named)
  {
    var a := resolve(t.username).value;
    var named := t.(username := a.name, domain := a.computer, sid := a.sid);
    if !env.stops(1) {
      var asked := named.(challenge := env.begin(a.sid));
      if !(|env.devices| > 1 && env.stops(2)) {
        var k := if |env.devices| > 1 then env.touched.value else 0;
        assert AfterBegin(t, env, resolve).0 == FullReset(asked.(devices := env.devices, selected := Some(k)));
      } else {
        assert AfterBegin(t, env, resolve).0 == FullReset(asked);
      }
    }
  }

  // ----- MFA that survives a failed Connect -----

  /** MFA is complete only on a live tile, outside the mode for changing passwords. */
  predicate Live(t: Tile) {
    t.mfaComplete ==> !t.retired && t.mode != ChangePassword
  }

  lemma VerifyLive(t: Tile, env: Env)
    requires !t.retired && t.mode != ChangePassword
    ensures !AfterVerify(t, env).0.retired && AfterVerify(t, env).0.mode != ChangePassword
  {
  }

  lemma ChallengeLive(t: Tile, env: Env)
    requires !t.retired && t.mode != ChangePassword
    ensures !AfterChallenge(t, env).0.retired && AfterChallenge(t, env).0.mode != ChangePassword
  {
  }

  lemma BeginLive(t: Tile, env: Env, resolve: Resolver)
    requires !t.retired && t.mode != ChangePassword
    ensures !AfterBegin(t, env, resolve).0.retired && AfterBegin(t, env, resolve).0.mode != ChangePassword
  {
    var account := resolve(t.username);
    if account.Some? {
      var named := t.(username := account.value.name, domain := account.value.computer, sid := account.value.sid);
      ChallengeLive(named.(challenge := env.begin(account.value.sid)), env);
    }
  }

  lemma LiveNext(t: Tile, c: Callback, resolve: Resolver)
    requires Live(t)
    ensures Live(Next(t, c, resolve))
  {
    if c.Connected? && !t.retired && t.mode != ChangePassword {
      VerifyLive(t, c.env);
      BeginLive(t, c.env, resolve);
    }
  }

  lemma {:induction false} AlwaysLive(run: Run, resolve: Resolver, k: nat)
    requires IsRun(run, resolve) && k < |run.tiles|
    ensures Live(run.tiles[k])
  {
    if k > 0 {
      AlwaysLive(run, resolve, k - 1);
      assert Follows(run, resolve, k - 1);
      LiveNext(run.tiles[k - 1], run.callbacks[k - 1], resolve);
    }
  }

  /** The conditions under which a Connect on a tile whose MFA is complete fails
      and leaves it so: something is missing, or the Broker cannot be asked, or it
      waives MFA while the registry demands it. */
  predicate FailsWithoutReset(t: Tile, env: Env) {
    && !env.stops(0)
    && (t.username == "" || t.password == ""
        || (t.challenge.None? && (env.begin(t.sid).None? || ContradictedWaiver(t, env))))
  }

  predicate ContradictedWaiver(t: Tile, env: Env) {
    env.begin(t.sid).Some? && !env.stops(1) && !env.begin(t.sid).value.enforced && env.listed(t.sid)
  }

  lemma FailedBeginIff(t: Tile, env: Env, resolve: Resolver)
    requires IdempotentAt(resolve, t.username) && WellNamed(t, resolve) && t.mfaComplete && t.challenge.None?
    ensures
      var (u, outcome) := AfterBegin(t, env, resolve);
      outcome != Ok && u.mfaComplete <==> env.begin(t.sid).None? || ContradictedWaiver(t, env)
  {
    assert resolve(t.username) == Some(AccountOf(t));
    var reply := env.begin(t.sid);
    if reply.Some? && reply.value.enforced && !env.stops(1) {
      FailedChallenge(t.(challenge := reply), env);
    }
  }

  lemma FailedChallenge(t: Tile, env: Env)
    ensures AfterChallenge(t, env).1 != Ok ==> !AfterChallenge(t, env).0.mfaComplete
  {
  }

  /** Exactly when a Connect fails and yet MFA stays complete. */
  lemma FailedConnectKeepsMfaIff(run: Run, resolve: Resolver, k: nat, env: Env)
    requires IsRun(run, resolve) && k < |run.tiles| && run.tiles[k].mfaComplete
    ensures
      var (u, outcome) := AfterConnect(run.tiles[k], env, resolve);
      outcome != Ok && u.mfaComplete <==> FailsWithoutReset(run.tiles[k], env)
  {
    var t := run.tiles[k];
    AlwaysLive(run, resolve, k);
    AlwaysWellNamed(run, resolve, k);
    assert IdempotentAt(resolve, t.username);
    if t.challenge.None? { FailedBeginIff(t, env, resolve); }
  }

  /** A Connect that asks the Broker, is given a challenge, and ends in the prompt
      for the PIN of a key. */
  predicate PromptsForPin(t: Tile, env: Env) {
    && Proceeds(t, env) && t.challenge.None?
    && env.begin(t.sid).Some? && env.begin(t.sid).value.enforced && !env.stops(1)
    && if |env.devices| > 1 then !env.stops(2) && env.touched.Some? && env.devices[env.touched.value].hasPin
       else env.devices != [] && env.devices[0].hasPin
  }

  /** MFA is complete after the Connect, but this Connect has not completed it. */
  predicate KeptStale(t: Tile, env: Env, resolve: Resolver) {
    var u := AfterConnect(t, env, resolve).0;
    u.mfaComplete && !Authorizes(t, Connected(env), resolve, AccountOf(u))
  }

  lemma ChallengeKeepsMfaIff(t: Tile, env: Env)
    requires t.mfaComplete && t.challenge.Some?
    ensures
      var k := if |env.devices| > 1 && env.touched.Some? then env.touched.value else 0;
      var chosen := env.devices != [] && (|env.devices| > 1 ==> !env.stops(2) && env.touched.Some?);
      var prompts := chosen && env.devices[k].hasPin;
      && (prompts ==> AfterChallenge(t, env).0.mfaComplete && ChallengeSubmits(t, env).None?)
      && (!prompts && AfterChallenge(t, env).0.mfaComplete ==> AcceptedBy(ChallengeSubmits(t, env), t, env))
  {
  }

  lemma BeginKeepsMfaIff(t: Tile, env: Env, resolve: Resolver)
    requires IdempotentAt(resolve, t.username) && WellNamed(t, resolve)
    requires t.mfaComplete && t.challenge.None? && Proceeds(t, env)
    ensures KeptStale(t, env, resolve) <==>
      env.begin(t.sid).None? || ContradictedWaiver(t, env) || PromptsForPin(t, env)
  {
    assert resolve(t.username) == Some(AccountOf(t));
    var reply := env.begin(t.sid);
    if reply.Some? && reply.value.enforced && !env.stops(1) {
      ChallengeKeepsMfaIff(t.(challenge := reply), env);
    }
  }

  lemma VerifyKeepsNothing(t: Tile, env: Env, resolve: Resolver)
    requires t.mfaComplete && t.challenge.Some? && Proceeds(t, env)
    ensures !KeptStale(t, env, resolve)
  {
    VerifyStep(t, env);
  }

  /** For every Connect in every run: MFA is complete afterwards without this
      Connect having completed it exactly when it was complete before, and the
      Connect fails without a reset or prompts for a PIN. It then stays complete for
      the same account. */
  lemma StaleMfaIff(run: Run, resolve: Resolver, k: nat, env: Env)
    requires IsRun(run, resolve) && k < |run.tiles|
    ensures
      var t := run.tiles[k];
      KeptStale(t, env, resolve) <==> t.mfaComplete && (FailsWithoutReset(t, env) || PromptsForPin(t, env))
    ensures KeptStale(run.tiles[k], env, resolve) ==>
      Authorized(AfterConnect(run.tiles[k], env, resolve).0) == Authorized(run.tiles[k])
  {
    var t := run.tiles[k];
    AlwaysLive(run, resolve, k);
    AlwaysWellNamed(run, resolve, k);
    assert IdempotentAt(resolve, t.username);
    ConnectStep(t, env, resolve);
    if t.mfaComplete { StaleConnect(t, env, resolve); }
  }

  lemma StaleConnect(t: Tile, env: Env, resolve: Resolver)
    requires IdempotentAt(resolve, t.username) && WellNamed(t, resolve) && Live(t) && t.mfaComplete
    ensures KeptStale(t, env, resolve) <==> FailsWithoutReset(t, env) || PromptsForPin(t, env)
  {
    if Proceeds(t, env) {
      if t.challenge.None? { BeginKeepsMfaIff(t, env, resolve); } else { VerifyKeepsNothing(t, env, resolve); }
    }
  }

  /** The account that the tile names, if it may be used on this tile. */
  predicate Bound(t: Tile, resolve: Resolver) {
    resolve(t.username).Some? && (t.userSid == "" || SameText(resolve(t.username).value.sid, t.userSid))
  }

  /** The Broker is asked, and its answer is not cut off by a cancellation. */
  predicate IsTold(t: Tile, env: Env, resolve: Resolver, reply: Challenge) {
    && Proceeds(t, env) && t.challenge.None? && Bound(t, resolve)
    && env.begin(resolve(t.username).value.sid) == Some(reply) && !env.stops(1)
  }

  /** Broker and registry need no key. */
  ghost predicate NeedsNoKey(t: Tile, env: Env, resolve: Resolver) {
    exists reply :: IsTold(t, env, resolve, reply) && !reply.enforced && !env.listed(resolve(t.username).value.sid)
  }

  /** A key is found: the only device, or the one touched. */
  predicate Chooses(env: Env, k: nat) {
    && k < |env.devices|
    && if |env.devices| == 1 then k == 0 else !env.stops(2) && env.touched == Some(k)
  }

  ghost predicate AsksForPin(t: Tile, env: Env, resolve: Resolver) {
    exists reply, k: nat :: IsTold(t, env, resolve, reply) && reply.enforced && Chooses(env, k) && env.devices[k].hasPin
  }

  /** The key signs with the PIN of the tile and the Broker accepts, with no
      cancellation before or after. */
  predicate KeyAccepted(t: Tile, env: Env, k: nat, challenge: Challenge) {
    !env.stops(3) && env.signs(k, t.pin) && env.finish(challenge.sessionId) && !env.stops(4)
  }

  ghost predicate SignsAtOnce(t: Tile, env: Env, resolve: Resolver) {
    exists reply, k: nat ::
      && IsTold(t, env, resolve, reply) && reply.enforced && Chooses(env, k) && !env.devices[k].hasPin
      && KeyAccepted(t, env, k, reply)
  }

  predicate SignsWaiting(t: Tile, env: Env) {
    && Proceeds(t, env) && t.challenge.Some? && t.selected.Some? && t.selected.value < |t.devices|
    && KeyAccepted(t, env, t.selected.value, t.challenge.value)
  }

  lemma VerifyIff(t: Tile, env: Env)
    requires t.challenge.Some?
    ensures
      var (u, outcome) := AfterVerify(t, env);
      var good := t.selected.Some? && t.selected.value < |t.devices|
        && KeyAccepted(t, env, t.selected.value, t.challenge.value);
      && (outcome == Ok <==> good) && (u.mfaComplete <==> good) && u.challenge.None? && u.pin == ""
      && (!good ==> u.devices == [] && u.selected.None? && u.mode == UsernamePassword)
  {
  }

  lemma ChallengeIff(t: Tile, env: Env)
    requires t.challenge.Some?
    ensures
      var (u, outcome) := AfterChallenge(t, env);
      var prompts := exists k: nat :: Chooses(env, k) && env.devices[k].hasPin;
      var signs := exists k: nat ::
        Chooses(env, k) && !env.devices[k].hasPin && KeyAccepted(t, env, k, t.challenge.value);
      && (outcome == Ok <==> prompts || signs)
      && (u.mfaComplete <==> (prompts && t.mfaComplete) || signs)
  {
    if env.devices != [] && (|env.devices| == 1 || (!env.stops(2) && env.touched.Some?)) {
      var k := if |env.devices| > 1 then env.touched.value else 0;
      assert Chooses(env, k);
      VerifyIff(t.(devices := env.devices, selected := Some(k)), env);
    }
  }

  lemma BeginIff(t: Tile, env: Env, resolve: Resolver)
    requires Proceeds(t, env) && t.challenge.None?
    ensures AfterBegin(t, env, resolve).1 == Ok
      <==> NeedsNoKey(t, env, resolve) || AsksForPin(t, env, resolve) || SignsAtOnce(t, env, resolve)
    ensures !t.mfaComplete ==>
      (AfterBegin(t, env, resolve).0.mfaComplete <==> NeedsNoKey(t, env, resolve) || SignsAtOnce(t, env, resolve))
  {
    if Bound(t, resolve) {
      var a := resolve(t.username).value;
      var reply := env.begin(a.sid);
      if reply.Some? && !env.stops(1) {
        assert IsTold(t, env, resolve, reply.value);
        ChallengeIff(t.(username := a.name, domain := a.computer, sid := a.sid, challenge := reply), env);
      }
    }
  }

  /** Exactly when a Connect succeeds, and exactly when it completes MFA: a key is not
      needed, or it signs and the Broker accepts. */
  lemma ConnectIff(t: Tile, env: Env, resolve: Resolver)
    ensures AfterConnect(t, env, resolve).1 == Ok
      <==> || (!t.retired && !env.stops(0) && t.mode == ChangePassword && t.changeAuthorized)
           || NeedsNoKey(t, env, resolve) || AsksForPin(t, env, resolve)
           || SignsAtOnce(t, env, resolve) || SignsWaiting(t, env)
    ensures !t.mfaComplete ==>
      (AfterConnect(t, env, resolve).0.mfaComplete
       <==> NeedsNoKey(t, env, resolve) || SignsAtOnce(t, env, resolve) || SignsWaiting(t, env))
  {
    if Proceeds(t, env) {
      if t.challenge.None? { BeginIff(t, env, resolve); } else { VerifyIff(t, env); }
    }
  }

  /** In particular a Connect that fails takes nothing from the account and gives it
      to no other. */
  lemma FailedConnectKeepsAccount(run: Run, resolve: Resolver, k: nat, env: Env)
    requires IsRun(run, resolve) && k < |run.tiles| && FailsWithoutReset(run.tiles[k], env)
    ensures Authorized(run.tiles[k]).Some? ==>
      Authorized(AfterConnect(run.tiles[k], env, resolve).0) == Authorized(run.tiles[k])
  {
    StaleMfaIff(run, resolve, k, env);
  }

  /** The same in terms of what the LSA may get: after a Connect that has not
      completed MFA a logon is handed over in exactly these cases. */
  lemma StaleLogonIff(run: Run, resolve: Resolver, k: nat, env: Env)
    requires IsRun(run, resolve) && k < |run.callbacks| && run.callbacks[k] == Connected(env)
    ensures
      var t, u := run.tiles[k], run.tiles[k + 1];
      Serialized(u, true).Logon? && !Authorizes(t, run.callbacks[k], resolve, AccountOf(u))
      <==> t.mfaComplete && (FailsWithoutReset(t, env) || PromptsForPin(t, env))
  {
    StaleMfaIff(run, resolve, k, env);
    assert Follows(run, resolve, k);
    AlwaysLive(run, resolve, k + 1);
  }

  /** A Connect that leaves a new challenge waiting has prompted for a PIN. Nothing is
      handed over until it is answered exactly when MFA was not complete before. */
  lemma PromptHoldsBackIff(t: Tile, env: Env, resolve: Resolver)
    requires t.challenge.None? && AfterConnect(t, env, resolve).0.challenge.Some?
    ensures AfterConnect(t, env, resolve).1 == Ok
    ensures Serialized(AfterConnect(t, env, resolve).0, true) == NotFinished <==> !t.mfaComplete
  {
    var account := resolve(t.username).value;
    var named := t.(username := account.name, domain := account.computer, sid := account.sid);
    ChallengeWaits(named.(challenge := env.begin(account.sid)), env);
  }

  lemma ChallengeWaits(t: Tile, env: Env)
    requires t.challenge.Some? && AfterChallenge(t, env).0.challenge.Some?
    ensures AfterChallenge(t, env).1 == Ok
    ensures AfterChallenge(t, env).0.mode == Fido && AfterChallenge(t, env).0.mfaComplete == t.mfaComplete
  {
  }

  // ----- Concrete runs -----

  function TheAccount(): LocalAccount {
    LocalAccount("u", "PC", "S-1-5-21-1-2-3-1001")
  }

  function TheResolver(): Resolver {
    _ => Some(TheAccount())
  }

  /** The Broker says that no MFA is needed; the registry lists the account or not. */
  function WaiverWhile(listed: bool): Env {
    Surroundings(_ => false, _ => Some(Challenge(false, "")), _ => listed, [], None, (_, _) => false, _ => false)
  }

  function Waiver(): Env { WaiverWhile(false) }

  /** The Broker demands a key, and the only one has a PIN. */
  function PinDemand(): Env {
    Surroundings(_ => false, _ => Some(Challenge(true, "s")), _ => true, [Device(true)], None, (_, _) => false,
                 _ => false)
  }

  function WaivedTile(): Tile {
    Fresh("u", "PC", "p", "").(sid := TheAccount().sid, mfaComplete := true)
  }

  lemma WaivedConnect()
    ensures Idempotent(TheResolver())
    ensures Next(Fresh("u", "PC", "p", ""), Connected(Waiver()), TheResolver()) == WaivedTile()
  {
    forall name
      ensures IdempotentAt(TheResolver(), name)
    {
    }
  }

  /** A Connect that is told no MFA is needed, a password that is then erased, and a
      second Connect: it fails, and MFA stays complete. */
  lemma FailedConnectExample() returns (run: Run, resolve: Resolver)
    ensures IsRun(run, resolve) && |run.callbacks| == 3
    ensures run.callbacks[0].Connected? && run.callbacks[2].Connected?
    ensures run.callbacks[1] == SetString(PasswordField, "")
    ensures AfterConnect(run.tiles[2], run.callbacks[2].env, resolve).1 == InvalidArgument
    ensures run.tiles[3].mfaComplete && run.tiles[3].password == ""
  {
    resolve := TheResolver();
    var erased := WaivedTile().(password := "");
    run := Run([Fresh("u", "PC", "p", ""), WaivedTile(), erased, erased],
               [Connected(Waiver()), SetString(PasswordField, ""), Connected(Waiver())]);
    WaivedConnect();
    forall k: nat | k < 3
      ensures Follows(run, resolve, k)
    {
      assert k == 0 || k == 1 || k == 2;
    }
  }

  /** A waived Connect, and one that is refused because the registry lists the
      account by then: a logon is still handed over. */
  lemma StaleAfterRefusalExample() returns (run: Run, resolve: Resolver)
    ensures IsRun(run, resolve) && |run.callbacks| == 2
    ensures run.callbacks == [Connected(WaiverWhile(false)), Connected(WaiverWhile(true))]
    ensures AfterConnect(run.tiles[1], WaiverWhile(true), resolve).1 == AccessDenied
    ensures Serialized(run.tiles[2], true) == Logon("PC", "u", "p")
  {
    resolve := TheResolver();
    run := Run([Fresh("u", "PC", "p", ""), WaivedTile(), WaivedTile()],
               [Connected(Waiver()), Connected(WaiverWhile(true))]);
    WaivedConnect();
    forall k: nat | k < 2
      ensures Follows(run, resolve, k)
    {
      assert k == 0 || k == 1;
    }
  }

  /** A waived Connect, and one that is asked for a key and prompts for its PIN: the
      challenge waits for an answer, and a logon is handed over. */
  lemma StaleBehindPromptExample() returns (run: Run, resolve: Resolver)
    ensures IsRun(run, resolve) && |run.callbacks| == 2
    ensures run.callbacks == [Connected(WaiverWhile(false)), Connected(PinDemand())]
    ensures AfterConnect(run.tiles[1], PinDemand(), resolve).1 == Ok && run.tiles[2].challenge.Some?
    ensures Serialized(run.tiles[2], true) == Logon("PC", "u", "p")
  {
    resolve := TheResolver();
    var prompting := WaivedTile().(challenge := Some(Challenge(true, "s")), devices := [Device(true)],
                                   selected := Some(0), mode := Fido);
    run := Run([Fresh("u", "PC", "p", ""), WaivedTile(), prompting], [Connected(Waiver()), Connected(PinDemand())]);
    WaivedConnect();
    forall k: nat | k < 2
      ensures Follows(run, resolve, k)
    {
      assert k == 0 || k == 1;
    }
  }

  // ----- What the fields hold -----

  /** The text of a field. */
  function TextOf(t: Tile, field: Field): string {
    match field
    case UsernameField => t.username
    case PasswordField => t.password
    case PinField => t.pin
    case NewPassword1Field => t.newPassword1
    case NewPassword2Field => t.newPassword2
    case OtherField => ""
  }

  predicate IsPassword(field: Field) {
    field == PasswordField || field == NewPassword1Field || field == NewPassword2Field
  }

  /** A field that is set holds the value, and no other field changes, except that a
      new user name resets the tile, so that every password and the PIN are empty.
      Nothing else is refused than a retired tile, the name of a bound tile, and an
      unknown field. */
  lemma SetStringSets(t: Tile, field: Field, value: string)
    ensures
      var (u, outcome) := AfterSetString(t, field, value);
      var refused := t.retired || (field == UsernameField && t.userSid != "") || field == OtherField;
      && (outcome == Ok <==> !refused) && (refused ==> u == t)
      && (!refused ==> TextOf(u, field) == value)
      && (!refused && (field != UsernameField || value == t.username) ==>
            u == t.(username := u.username, password := u.password, pin := u.pin, newPassword1 := u.newPassword1,
                    newPassword2 := u.newPassword2)
            && forall other: Field :: other != field ==> TextOf(u, other) == TextOf(t, other))
      && (!refused && field == UsernameField && value != t.username ==>
            forall other: Field :: other != field ==> TextOf(u, other) == "")
  {
  }

  /** The callback empties all passwords: a reset, or a report other than a demand. */
  predicate Wipes(t: Tile, c: Callback, resolve: Resolver) {
    match c
    case SetString(field, value) => !t.retired && field == UsernameField && t.userSid == "" && value != t.username
    case Deselect => true
    case Disconnected => true
    case Retired => true
    case Connected(env) => ConnectResets(t, env, resolve)
    case Serialize(_) => false
    case Report(status, substatus) => !DemandsChange(status, substatus)
  }

  /** The callback sets the field. */
  predicate Sets(t: Tile, c: Callback, field: Field, value: string) {
    !t.retired && c == SetString(field, value)
  }

  predicate SamePasswords(t: Tile, u: Tile) {
    t.password == u.password && t.newPassword1 == u.newPassword1 && t.newPassword2 == u.newPassword2
  }

  predicate NoPasswords(t: Tile) {
    t.password == "" && t.newPassword1 == "" && t.newPassword2 == "" && t.pin == ""
  }

  lemma VerifyPasswords(t: Tile, env: Env)
    ensures if VerifyResets(t, env) then NoPasswords(AfterVerify(t, env).0) else SamePasswords(t, AfterVerify(t, env).0)
  {
  }

  lemma ChallengePasswords(t: Tile, env: Env)
    requires t.challenge.Some?
    ensures
      var u := AfterChallenge(t, env).0;
      if ChallengeResets(t, env) then NoPasswords(u) else SamePasswords(t, u)
  {
    if env.devices != [] && (|env.devices| == 1 || (!env.stops(2) && env.touched.Some?)) {
      var k := if |env.devices| > 1 then env.touched.value else 0;
      VerifyPasswords(t.(devices := env.devices, selected := Some(k)), env);
    }
  }

  lemma BeginPasswords(t: Tile, env: Env, resolve: Resolver)
    ensures
      var u := AfterBegin(t, env, resolve).0;
      if BeginResets(t, env, resolve) then NoPasswords(u) else SamePasswords(t, u)
  {
    var account := resolve(t.username);
    if account.Some? && env.begin(account.value.sid).Some? {
      var reply := env.begin(account.value.sid);
      var named := t.(username := account.value.name, domain := account.value.computer, sid := account.value.sid);
      ChallengePasswords(named.(challenge := reply), env);
      SameChallengeResets(t.(challenge := reply), named.(challenge := reply), env);
    }
  }

  lemma ConnectPasswords(t: Tile, env: Env, resolve: Resolver)
    ensures
      var u := AfterConnect(t, env, resolve).0;
      if ConnectResets(t, env, resolve) then NoPasswords(u) else SamePasswords(t, u)
  {
    if Proceeds(t, env) {
      if t.challenge.None? { BeginPasswords(t, env, resolve); } else { VerifyPasswords(t, env); }
    }
  }

  /** A reset tile is as it was initialized, with the name and without the password. */
  lemma ResetIsComplete(t: Tile)
    ensures FullReset(t) == Fresh(t.username, t.domain, "", t.userSid).(retired := t.retired)
  {
  }

  /** What the four statuses of a report do to a tile: success empties it and ends the
      ceremony, a demand for a new password, in either status, turns MFA into the
      authorization of the change and keeps the passwords, and anything else empties
      it and goes back to the password. */
  lemma ReportIff(t: Tile, status: NtStatus, substatus: NtStatus)
    ensures
      var u := AfterReport(t, status, substatus);
      var demanded := status == PasswordMustChange || status == PasswordExpired
        || substatus == PasswordMustChange || substatus == PasswordExpired;
      && !u.mfaComplete && u.pin == ""
      && if status != StatusSuccess && demanded then
           && u.mode == ChangePassword && u.changeAuthorized == t.mfaComplete && SamePasswords(t, u)
         else
           && NoPasswords(u) && u.challenge.None? && u.devices == [] && u.selected.None?
           && u.mode == (if status == StatusSuccess then t.mode else UsernamePassword)
           && u.changeAuthorized == (status != StatusSuccess && t.changeAuthorized)
  {
  }

  /** What any callback does to a password: it is emptied, set, or left alone; the
      PIN is emptied with the passwords, and by every report. */
  lemma PasswordStep(t: Tile, c: Callback, resolve: Resolver, field: Field)
    requires IsPassword(field)
    ensures
      var u := Next(t, c, resolve);
      TextOf(u, field) == if Wipes(t, c, resolve) then ""
                          else if c.SetString? && Sets(t, c, field, c.value) then c.value
                          else TextOf(t, field)
    ensures Wipes(t, c, resolve) || c.Report? ==> Next(t, c, resolve).pin == ""
  {
    if c.Connected? { ConnectPasswords(t, c.env, resolve); }
  }

  /** Step `j` was the last to set the field, to this value, and nothing has emptied
      it since. */
  ghost predicate LastSet(run: Run, resolve: Resolver, j: nat, k: nat, field: Field, value: string) {
    && j < k <= |run.callbacks| <= |run.tiles| && Sets(run.tiles[j], run.callbacks[j], field, value)
    && Untouched(run, resolve, j + 1, k, field)
  }

  ghost predicate Untouched(run: Run, resolve: Resolver, j: nat, k: nat, field: Field)
    requires k <= |run.callbacks| <= |run.tiles|
  {
    forall m :: j <= m < k ==> !Wipes(run.tiles[m], run.callbacks[m], resolve) && !SetsSome(run, m, field)
  }

  predicate SetsSome(run: Run, m: nat, field: Field)
    requires m < |run.callbacks| <= |run.tiles|
  {
    run.callbacks[m].SetString? && Sets(run.tiles[m], run.callbacks[m], field, run.callbacks[m].value)
  }

  /** A password that is not empty is the one set last, or still the one that the
      tile was initialized with. */
  lemma {:induction false} PasswordHasOrigin(run: Run, resolve: Resolver, k: nat, field: Field) returns (j: nat)
    requires IsRun(run, resolve) && k < |run.tiles| && IsPassword(field) && TextOf(run.tiles[k], field) != ""
    ensures LastSet(run, resolve, j, k, field, TextOf(run.tiles[k], field))
            || (Untouched(run, resolve, 0, k, field) && TextOf(run.tiles[0], field) == TextOf(run.tiles[k], field))
  {
    j := 0;
    if k > 0 {
      assert Follows(run, resolve, k - 1);
      PasswordStep(run.tiles[k - 1], run.callbacks[k - 1], resolve, field);
      if SetsSome(run, k - 1, field) {
        j := k - 1;
      } else {
        j := PasswordHasOrigin(run, resolve, k - 1, field);
      }
    }
  }

  /** A tile is initialized without new passwords. */
  lemma NewPasswordIsSet(run: Run, resolve: Resolver, k: nat, field: Field) returns (j: nat)
    requires IsRun(run, resolve) && k < |run.tiles| && TextOf(run.tiles[k], field) != ""
    requires field == NewPassword1Field || field == NewPassword2Field
    ensures LastSet(run, resolve, j, k, field, TextOf(run.tiles[k], field))
  {
    j := PasswordHasOrigin(run, resolve, k, field);
  }

  /** A change that is handed over carries the new password that was set last in the
      first field, and the one set last in the second field is the same, both since
      passwords were last emptied. */
  lemma ChangeIsConfirmed(run: Run, resolve: Resolver, k: nat, packs: bool) returns (i: nat, j: nat)
    requires IsRun(run, resolve) && k < |run.tiles| && Serialized(run.tiles[k], packs).Change?
    ensures Serialized(run.tiles[k], packs).newPassword != ""
    ensures LastSet(run, resolve, i, k, NewPassword1Field, Serialized(run.tiles[k], packs).newPassword)
    ensures LastSet(run, resolve, j, k, NewPassword2Field, Serialized(run.tiles[k], packs).newPassword)
  {
    i := NewPasswordIsSet(run, resolve, k, NewPassword1Field);
    j := NewPasswordIsSet(run, resolve, k, NewPassword2Field);
  }

  /** The password that is handed over. */
  function PasswordIn(blob: Blob): string {
    match blob
    case NotFinished => ""
    case Logon(_, _, password) => password
    case Change(_, _, oldPassword, _) => oldPassword
  }

  /** A password that is handed over was the last one set, or is the initial one. */
  lemma PasswordIsLastSet(run: Run, resolve: Resolver, k: nat, packs: bool) returns (j: nat)
    requires IsRun(run, resolve) && k < |run.tiles| && PasswordIn(Serialized(run.tiles[k], packs)) != ""
    ensures
      var password := PasswordIn(Serialized(run.tiles[k], packs));
      LastSet(run, resolve, j, k, PasswordField, password)
      || (Untouched(run, resolve, 0, k, PasswordField) && run.tiles[0].password == password)
  {
    j := PasswordHasOrigin(run, resolve, k, PasswordField);
  }

  /** What was set last and not emptied since is there. */
  lemma {:induction false} LastSetIsThere(run: Run, resolve: Resolver, j: nat, k: nat, field: Field, value: string)
    requires IsRun(run, resolve) && k < |run.tiles| && IsPassword(field)
    requires LastSet(run, resolve, j, k, field, value)
    ensures TextOf(run.tiles[k], field) == value
    decreases k
  {
    assert Follows(run, resolve, k - 1);
    PasswordStep(run.tiles[k - 1], run.callbacks[k - 1], resolve, field);
    if j < k - 1 {
      LastSetIsThere(run, resolve, j, k - 1, field, value);
    }
  }

  /** A change is handed over whenever all of this holds, and only then: LogonUI is
      answered, the mode and the authorization are there, and both fields were last
      set to the same new password. */
  lemma ChangeIff(run: Run, resolve: Resolver, k: nat, packs: bool, value: string)
    requires IsRun(run, resolve) && k < |run.tiles| && value != ""
    ensures Serialized(run.tiles[k], packs).Change? && Serialized(run.tiles[k], packs).newPassword == value
      <==> && packs && !run.tiles[k].retired && MayChange(run.tiles[k]).Some?
           && (exists i: nat :: LastSet(run, resolve, i, k, NewPassword1Field, value))
           && (exists j: nat :: LastSet(run, resolve, j, k, NewPassword2Field, value))
  {
    if Serialized(run.tiles[k], packs).Change? && Serialized(run.tiles[k], packs).newPassword == value {
      var i, j := ChangeIsConfirmed(run, resolve, k, packs);
    }
    forall i: nat | LastSet(run, resolve, i, k, NewPassword1Field, value)
      ensures run.tiles[k].newPassword1 == value
    {
      LastSetIsThere(run, resolve, i, k, NewPassword1Field, value);
    }
    forall j: nat | LastSet(run, resolve, j, k, NewPassword2Field, value)
      ensures run.tiles[k].newPassword2 == value
    {
      LastSetIsThere(run, resolve, j, k, NewPassword2Field, value);
    }
  }

  // ----- The tile itself -----

  /** What a callback on a tile in this state hands over. */
  function HandedOver(t: Tile, c: Callback): Blob {
    if c.Serialize? then Serialized(t, c.packs) else NotFinished
  }

  /** LogonUI calls back one method of the tile. */
  method CallBack(tile: CCredential, c: Callback, resolve: Resolver) returns (blob: Blob)
    modifies tile
    ensures tile.Now() == Next(old(tile.Now()), c, resolve)
    ensures blob == HandedOver(old(tile.Now()), c)
  {
    blob := NotFinished;
    match c {
      case SetString(field, value) =>
        var _ := tile.SetStringValue(field, value);
      case Deselect => tile.SetDeselected();
      case Disconnected => tile.Disconnect();
      case Retired => tile.Retire();
      case Connected(env) =>
        var _, _, _ := tile.Connect(env, resolve);
      case Serialize(packs) => blob := tile.GetSerialization(packs);
      case Report(status, substatus) => tile.ReportResult(status, substatus);
    }
  }

  /** A tile that is initialized and then called back in any order goes through a
      run, and hands over what the run says. */
  method Play(username: string, domain: string, password: string, userSid: Sid, callbacks: seq<Callback>,
              resolve: Resolver)
    returns (blobs: seq<Blob>, ghost run: Run)
    requires Idempotent(resolve)
    ensures IsRun(run, resolve) && run.callbacks == callbacks && |blobs| == |callbacks|
    ensures run.tiles[0] == Fresh(username, domain, password, userSid)
    ensures forall k :: 0 <= k < |blobs| ==> blobs[k] == HandedOver(run.tiles[k], callbacks[k])
  {
    var tile := new CCredential(username, domain, password, userSid);
    blobs, run := [], Run([tile.Now()], []);
    for i := 0 to |callbacks|
      invariant IsRun(run, resolve) && run.callbacks == callbacks[..i] && |blobs| == i
      invariant run.tiles[0] == Fresh(username, domain, password, userSid) && run.tiles[i] == tile.Now()
      invariant forall k :: 0 <= k < i ==> blobs[k] == HandedOver(run.tiles[k], callbacks[k])
    {
      var blob := CallBack(tile, callbacks[i], resolve);
      RunGoesOn(run, callbacks[i], resolve);
      blobs, run := blobs + [blob], Extended(run, callbacks[i], resolve);
    }
  }

  ghost function Extended(run: Run, c: Callback, resolve: Resolver): Run
    requires |run.tiles| == |run.callbacks| + 1
  {
    Run(run.tiles + [Next(run.tiles[|run.callbacks|], c, resolve)], run.callbacks + [c])
  }

  lemma RunGoesOn(run: Run, c: Callback, resolve: Resolver)
    requires IsRun(run, resolve)
    ensures IsRun(Extended(run, c, resolve), resolve)
  {
    var longer := Extended(run, c, resolve);
    assert longer.tiles[0] == run.tiles[0];
    forall k: nat | k < |longer.callbacks|
      ensures Follows(longer, resolve, k)
    {
      assert k < |run.callbacks| ==> Follows(run, resolve, k);
    }
  }
}
