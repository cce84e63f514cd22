/** A logon tile and the Broker together: what stands behind a logon that reaches
    the LSA. */
module EndToEnd {
  import opened Base64
  import opened Basics
  import opened Broker
  import opened BrokerSteps
  import opened CredentialStore
  import opened FidoVerifier
  import opened Sessions
  import opened VaultChanges
  import opened Vaults
  import BrokerRuns
  import CredentialTile
  import SignInPolicy
  import TileRuns

  /** BrokerClient.cpp, BeginAuthentication: what the tile makes of a reply. */
  function Understood(reply: Reply): Option<CredentialTile.Challenge> {
    match reply
    case NotEnforced => Some(CredentialTile.Challenge(false, ""))
    case Challenge(id, _, _, _, _) => Some(CredentialTile.Challenge(true, id))
    case _ => None
  }

  /** The Broker answered a request in its step `n`. */
  ghost predicate Answered(broker: BrokerRuns.Run, n: nat) {
    n < |broker.events| < |broker.states| && broker.events[n].Call?
  }

  function ReplyAt(broker: BrokerRuns.Run, valid: Vault -> bool, n: nat): Reply
    requires Answered(broker, n)
  {
    var e := broker.events[n];
    Handled(broker.states[n], e.caller, e.request, e.world, e.fates, valid).1
  }

  ghost predicate Begins(broker: BrokerRuns.Run, valid: Vault -> bool, n: nat, sid: Sid,
                         challenge: CredentialTile.Challenge) {
    Answered(broker, n) && broker.events[n].request == BeginAuth(sid)
      && Understood(ReplyAt(broker, valid, n)) == Some(challenge)
  }

  ghost predicate Finishes(broker: BrokerRuns.Run, valid: Vault -> bool, n: nat, id: string) {
    && Answered(broker, n) && broker.events[n].request.FinishAuth? && broker.events[n].request.sessionId == id
    && ReplyAt(broker, valid, n) == Done
  }

  /** The steps in which the Broker served what each callback asked of it. */
  datatype Wiring = Wiring(begin: nat -> nat, finish: nat -> nat)

  /** Whatever a Connect is told by the Broker, the Broker did answer. Its requests
      may come between those of any other clients. */
  ghost predicate Wired(tile: TileRuns.Run, resolve: TileRuns.Resolver,
                        broker: BrokerRuns.Run, valid: Vault -> bool, wires: Wiring) {
    forall k: nat :: TileRuns.Within(tile, k) && tile.callbacks[k].Connected? ==>
      WiredAt(tile.tiles[k], tile.callbacks[k].env, resolve, broker, valid, wires.begin(k), wires.finish(k))
  }

  ghost predicate WiredAt(t: CredentialTile.Tile, env: CredentialTile.Env, resolve: TileRuns.Resolver,
                          broker: BrokerRuns.Run, valid: Vault -> bool, begin: nat, finish: nat) {
    var asked, submitted := CredentialTile.AskedFor(t, env, resolve), CredentialTile.Submitted(t, env, resolve);
    && (asked.Some? && env.begin(asked.value).Some? ==>
          Begins(broker, valid, begin, asked.value, env.begin(asked.value).value))
    && (submitted.Some? && env.finish(submitted.value) ==> Finishes(broker, valid, finish, submitted.value))
  }

  /** The random generator never gives two sessions the same identifier. */
  ghost predicate NoIdTwice(broker: BrokerRuns.Run, valid: Vault -> bool) {
    forall i: nat, j: nat :: i < |broker.events| < |broker.states| && j < |broker.events| ==>
      SameOpening(BrokerRuns.Openings(broker, valid), i, j)
  }

  predicate SameOpening(openings: nat -> Option<(string, Session)>, i: nat, j: nat) {
    openings(i).Some? && openings(j).Some? && openings(i).value.0 == openings(j).value.0 ==> i == j
  }

  /** The vault that step `n` works on leaves the account unenforced. */
  ghost predicate Unenforced(broker: BrokerRuns.Run, valid: Vault -> bool, n: nat, sid: Sid) {
    && n < |broker.events| < |broker.states|
    && var v := BrokerRuns.Working(broker.states[n], broker.events[n], valid);
       v.Some? && !SignInPolicy.EnforcedIn(v.value, sid)
  }

  /** The assertion is a signature by the key of the credential over the challenge,
      with the user present and verified. */
  predicate SignedBy(record: CredentialRecord, session: Session, response: Assertion, lib: Library) {
    && |response.items| == 1 && response.items[0].credentialId == record.credentialId
    && var clientData, authData := UrlDecode(response.clientData), UrlDecode(response.items[0].authenticatorData);
    && var key := PublicKeyOf(UrlDecode(record.cosePublicKey), lib);
    && lib.clientData(clientData) == Some(ClientData("webauthn.get", session.challenge, session.origin, false))
    && |authData| >= 37 && authData[32] & 0x05 == 0x05
    && key.Some?
    && lib.signatureOk(clientData, session.rpId, authData, UrlDecode(response.items[0].signature), key.value)
  }

  /** Step `d` was answered for an assertion over the challenge of step `b`, by a
      credential that the vault held for the account. */
  ghost predicate Signed(broker: BrokerRuns.Run, valid: Vault -> bool, b: nat, d: nat, sid: Sid,
                         record: CredentialRecord)
    requires BrokerRuns.IsRun(broker, valid)
  {
    && b < d < |broker.events| && broker.events[b].Call? && broker.events[b].request == BeginAuth(sid)
    && broker.events[d].Call? && broker.events[d].request.FinishAuth? && broker.events[d].request.assertion.Some?
    && var begin, finish, v := broker.events[b], broker.events[d],
         BrokerRuns.Working(broker.states[d], broker.events[d], valid);
    && finish.world.now < begin.world.now + SESSION_LIFETIME
    && v.Some? && RecordIn(HoldingOf(AccountOf(v.value, sid)).credentials, record.credentialId) == Some(record)
    && exists session ::
         && BrokerRuns.Backs(broker, valid, b, d, finish.request.sessionId, session)
         && session.challenge == begin.world.challenge
         && SignedBy(record, session, finish.request.assertion.value, finish.world.lib)
  }

  // ----- The Broker's side -----

  /** A waiver is given only by a vault that leaves the account unenforced. */
  lemma WaiverIsUnenforced(v: Vault, t: Table, caller: Caller, sid: Sid, w: World)
    requires AfterBeginAuth(v, t, caller, sid, w).1 == NotEnforced
    ensures !SignInPolicy.EnforcedIn(v, sid)
  {
  }

  /** A challenge is that of a session opened for the account. */
  lemma ChallengeOpens(v: Vault, t: Table, caller: Caller, sid: Sid, w: World)
    requires AfterBeginAuth(v, t, caller, sid, w).1.Challenge?
    ensures Offered(v, caller, BeginAuth(sid), w).Some?
    ensures Put(t, Offered(v, caller, BeginAuth(sid), w).value, w.now, w.draw).1
      == Success(AfterBeginAuth(v, t, caller, sid, w).1.sessionId)
  {
  }

  lemma BeginIsUnenforced(broker: BrokerRuns.Run, valid: Vault -> bool, n: nat, sid: Sid,
                          challenge: CredentialTile.Challenge)
    requires Begins(broker, valid, n, sid, challenge) && !challenge.enforced
    ensures Unenforced(broker, valid, n, sid)
  {
    var s, e := broker.states[n], broker.events[n];
    WaiverIsUnenforced(BrokerRuns.Working(s, e, valid).value, s.sessions, e.caller, sid, e.world);
  }

  lemma BeginOpens(broker: BrokerRuns.Run, valid: Vault -> bool, n: nat, sid: Sid, challenge: CredentialTile.Challenge)
    requires Begins(broker, valid, n, sid, challenge) && challenge.enforced
    ensures BrokerRuns.Openings(broker, valid)(n).Some?
      && BrokerRuns.Openings(broker, valid)(n).value.0 == challenge.sessionId
  {
    var s, e := broker.states[n], broker.events[n];
    ChallengeOpens(BrokerRuns.Working(s, e, valid).value, s.sessions, e.caller, sid, e.world);
  }

  /** A verified assertion is a signature by a registered key. */
  lemma VerifiedIsSigned(h: Holding, session: Session, assertion: Option<Assertion>, lib: Library, sid: Sid, id: string)
    returns (record: CredentialRecord)
    requires VerifiedCounter(h, session, assertion, lib, sid, id).Some?
    ensures assertion.Some? && RecordIn(h.credentials, record.credentialId) == Some(record)
    ensures SignedBy(record, session, assertion.value, lib)
  {
    record := RecordIn(h.credentials, id).value;
    AcceptedAssertion(record, session.challenge, session.rpId, session.origin, assertion.value, lib);
    RecordInHasId(h.credentials, id);
  }

  lemma RecordInHasId(cs: seq<CredentialRecord>, id: string)
    ensures RecordIn(cs, id).Some? ==> RecordIn(cs, id).value.credentialId == id
  {
  }

  /** A finish_auth that is answered for the session of a begin_auth. */
  lemma FinishIsSigned(broker: BrokerRuns.Run, valid: Vault -> bool, b: nat, d: nat, sid: Sid,
                       challenge: CredentialTile.Challenge)
    returns (record: CredentialRecord)
    requires BrokerRuns.IsRun(broker, valid) && NoIdTwice(broker, valid)
    requires Begins(broker, valid, b, sid, challenge) && challenge.enforced
      && Finishes(broker, valid, d, challenge.sessionId)
    ensures Signed(broker, valid, b, d, sid, record)
  {
    assert BrokerRuns.Follows(broker, valid, d);
    var j, target, id := BrokerRuns.AuthenticationIsBacked(broker, valid, d);
    BeginOpens(broker, valid, b, sid, challenge);
    assert SameOpening(BrokerRuns.Openings(broker, valid), j, b);
    var e := broker.events[d];
    var v, session := BrokerRuns.Working(broker.states[d], e, valid),
      BrokerRuns.UsedBy(broker.states[d], e, valid).value;
    record := VerifiedIsSigned(HoldingOf(AccountOf(v.value, sid)), session, e.request.assertion, e.world.lib, sid, id);
  }

  /** What a served request finds for a credential was held before. */
  lemma FoundWasHeld(s: State, e: BrokerRuns.Event, valid: Vault -> bool, sid: Sid, id: string)
    requires Trusted(valid) && LoadsValid(s.loaded, valid) && BrokerRuns.Working(s, e, valid).Some?
    requires RecordIn(HoldingOf(AccountOf(BrokerRuns.Working(s, e, valid).value, sid)).credentials, id).Some?
    ensures RecordOf(s.loaded, sid, id)
      == RecordIn(HoldingOf(AccountOf(BrokerRuns.Working(s, e, valid).value, sid)).credentials, id)
  {
    HeldAfterRefresh(s.loaded, e.world, e.fates.refresh, valid, sid);
  }

  /** The key behind a signature was in the first vault, or was registered by the
      account with its password. */
  lemma SignerHasOrigin(broker: BrokerRuns.Run, valid: Vault -> bool, b: nat, d: nat, sid: Sid,
                        record: CredentialRecord)
    requires BrokerRuns.IsRun(broker, valid) && Signed(broker, valid, b, d, sid, record)
    ensures BrokerRuns.HasOrigin(broker, valid, d, sid, record.credentialId, record)
  {
    BrokerRuns.AlwaysLoadsValid(broker, valid, d);
    FoundWasHeld(broker.states[d], broker.events[d], valid, sid, record.credentialId);
    BrokerRuns.KeyHasOrigin(broker, valid, d, sid, record.credentialId);
  }

  // ----- Both together -----

  /** A signature, by a key that came into the vault as it should. */
  ghost predicate SignedByOwnKey(broker: BrokerRuns.Run, valid: Vault -> bool, b: nat, d: nat, sid: Sid,
                                 record: CredentialRecord)
    requires BrokerRuns.IsRun(broker, valid)
  {
    && Signed(broker, valid, b, d, sid, record)
    && BrokerRuns.HasOrigin(broker, valid, d, sid, record.credentialId, record)
  }

  /** The logon of an account goes back to a begin_auth for this account that the
      Broker answered. Either the vault left the account unenforced then, or the
      Broker answered a finish_auth with a signature over that challenge by a key of
      the account, with the user present and verified; and that key was in the first
      vault or was registered by the account itself with its password. */
  lemma LogonIsSigned(tile: TileRuns.Run, resolve: TileRuns.Resolver,
                      broker: BrokerRuns.Run, valid: Vault -> bool, wires: Wiring, k: nat, packs: bool)
    returns (a: CredentialTile.LocalAccount, b: nat, d: nat, record: CredentialRecord)
    requires TileRuns.IsRun(tile, resolve) && BrokerRuns.IsRun(broker, valid) && NoIdTwice(broker, valid)
    requires Wired(tile, resolve, broker, valid, wires)
    requires k < |tile.tiles| && CredentialTile.Serialized(tile.tiles[k], packs).Logon?
    ensures CredentialTile.Serialized(tile.tiles[k], packs)
      == CredentialTile.Logon(a.computer, a.name, tile.tiles[k].password)
    ensures a.sid == tile.tiles[k].sid && resolve(a.name) == Some(a)
    ensures tile.tiles[k].userSid == "" || SameText(a.sid, tile.tiles[k].userSid)
    ensures Answered(broker, b) && broker.events[b].request == BeginAuth(a.sid)
    ensures Unenforced(broker, valid, b, a.sid) || SignedByOwnKey(broker, valid, b, d, a.sid, record)
  {
    var i, j;
    i, j, a := TileRuns.LogonIsAuthorized(tile, resolve, k, packs);
    assert TileRuns.AuthorizedIn(tile)(k) == Some(a);
    b, d, record := CompletedIsSigned(tile, resolve, broker, valid, wires, i, j, a);
  }

  lemma CompletedIsSigned(tile: TileRuns.Run, resolve: TileRuns.Resolver,
                          broker: BrokerRuns.Run, valid: Vault -> bool, wires: Wiring,
                          i: nat, j: nat, a: CredentialTile.LocalAccount)
    returns (b: nat, d: nat, record: CredentialRecord)
    requires TileRuns.IsRun(tile, resolve) && BrokerRuns.IsRun(broker, valid) && NoIdTwice(broker, valid)
    requires Wired(tile, resolve, broker, valid, wires) && TileRuns.Completes(tile, resolve, i, j, a)
    ensures Answered(broker, b) && broker.events[b].request == BeginAuth(a.sid)
    ensures Unenforced(broker, valid, b, a.sid) || SignedByOwnKey(broker, valid, b, d, a.sid, record)
  {
    assert TileRuns.Within(tile, i) && TileRuns.Within(tile, j);
    if TileRuns.Waives(tile.tiles[j], tile.callbacks[j], resolve, a) {
      b, d := wires.begin(j), 0;
      record := CredentialRecord("", "", 0, "", "", "", 0);
      BeginIsUnenforced(broker, valid, b, a.sid, tile.callbacks[j].env.begin(a.sid).value);
    } else {
      b, d := wires.begin(i), wires.finish(j);
      var challenge :| TileRuns.Asks(tile.tiles[i], tile.callbacks[i], resolve, a, challenge)
        && TileRuns.Accepts(tile.tiles[j], tile.callbacks[j], resolve, challenge);
      record := FinishIsSigned(broker, valid, b, d, a.sid, challenge);
      SignerHasOrigin(broker, valid, b, d, a.sid, record);
    }
  }

  ghost predicate NeverUnenforced(broker: BrokerRuns.Run, valid: Vault -> bool, sid: Sid) {
    forall n: nat ::
      Answered(broker, n) && broker.events[n].request == BeginAuth(sid) ==> !Unenforced(broker, valid, n, sid)
  }

  /** While every vault that a begin_auth for the account meets enforces it, nobody
      logs on as this account without a signature by one of its keys. */
  lemma EnforcedLogonIsSigned(tile: TileRuns.Run, resolve: TileRuns.Resolver,
                              broker: BrokerRuns.Run, valid: Vault -> bool, wires: Wiring, k: nat, packs: bool)
    returns (b: nat, d: nat, record: CredentialRecord)
    requires TileRuns.IsRun(tile, resolve) && BrokerRuns.IsRun(broker, valid) && NoIdTwice(broker, valid)
    requires Wired(tile, resolve, broker, valid, wires)
    requires k < |tile.tiles| && CredentialTile.Serialized(tile.tiles[k], packs).Logon?
    requires NeverUnenforced(broker, valid, tile.tiles[k].sid)
    ensures SignedByOwnKey(broker, valid, b, d, tile.tiles[k].sid, record)
  {
    var a;
    a, b, d, record := LogonIsSigned(tile, resolve, broker, valid, wires, k, packs);
  }
}
