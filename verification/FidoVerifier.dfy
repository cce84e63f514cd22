/** The verifier's own checks of authenticator data, attested credential data
    and signature counters: sections 6.1, 6.5.1 and 7.2 of W3C Web
    Authentication Level 2. Hashing, signatures, JSON and CBOR decoding are a
    library passed as a parameter. */
module FidoVerifier {
  import opened Basics
  import opened Base64
  import opened Vaults
  import opened CoseKey

  const USER_PRESENT: bv8 := 0x01
  const USER_VERIFIED: bv8 := 0x04
  const ATTESTED_CREDENTIAL_DATA: bv8 := 0x40

  /** cbor_load: an item and the number of octets it took. */
  datatype CborLoad = NoItem | Loaded(item: CborItem, read: nat)

  ghost predicate ReadsWithin(f: Bytes -> CborLoad) {
    forall b :: f(b).Loaded? ==> f(b).read <= |b|
  }

  /** A decoder never reports more octets than it was given. */
  type CborReader = f: Bytes -> CborLoad | ReadsWithin(f) ghost witness (_: Bytes) => NoItem

  datatype ClientData = ClientData(kind: string, challenge: string, origin: string, crossOrigin: bool)

  /** What libfido2 makes of an attestation object. */
  datatype Attestation = Attestation(format: string, verified: bool, authData: Bytes, credentialId: Bytes)

  datatype Library = Library(
    sha256: string -> Option<Bytes>,
    cborLoad: CborReader,
    clientData: Bytes -> Option<ClientData>,
    attestation: (Bytes, string, Bytes) -> Option<Attestation>,
    signatureOk: (Bytes, string, Bytes, Bytes, Bytes) -> bool)

  datatype Refusal =
    | UnsupportedAlgorithm | NotOneAssertion | ForeignCredential | BadEncoding
    | ClientDataMismatch | AuthDataTooShort | NoHash | RpIdMismatch | UserNotPresent | UserNotVerified
    | CounterDidNotIncrease | BadSignature | BadAttestation | UnsupportedFormat | NoAuthData
    | NoAttestedData | BadCredentialLength | BadPublicKey | CredentialIdMismatch

  function VerifyClientData(data: Option<ClientData>, kind: string, challenge: string, origin: string): bool {
    data.Some? && data.value == ClientData(kind, challenge, origin, false)
  }

  /** A big-endian 32-bit number. */
  function Counter32(b: Bytes, at: nat): Counter
    requires at + 4 <= |b|
  {
    b[at] as int * 0x100_0000 + b[at + 1] as int * 0x1_0000 + b[at + 2] as int * 0x100 + b[at + 3] as int
  }

  /** FidoVerifier.cpp, VerifyAuthenticatorData: yields the signature counter. */
  function VerifyAuthenticatorData(authData: Bytes, rpId: string, lib: Library): Result<Counter, Refusal> {
    if |authData| < 37 then Failure(AuthDataTooShort)
    else
      var hash := lib.sha256(rpId);
      if hash.None? then Failure(NoHash)
      else if hash.value != authData[..32] then Failure(RpIdMismatch)
      else if authData[32] & USER_PRESENT == 0 then Failure(UserNotPresent)
      else if authData[32] & USER_VERIFIED == 0 then Failure(UserNotVerified)
      else Success(Counter32(authData, 33))
  }

  /** The octets hold exactly one CBOR map that is an ES256 key. */
  function PublicKeyOf(cose: Bytes, lib: Library): Option<Bytes> {
    var loaded := lib.cborLoad(cose);
    if loaded.Loaded? && loaded.item.Map? && loaded.read == |cose| then Coordinates(loaded.item.pairs) else None
  }

  datatype AttestedCredential = AttestedCredential(id: Bytes, cose: Bytes)

  function IdLength(authData: Bytes): nat
    requires |authData| >= 55
  {
    authData[53] as nat * 0x100 + authData[54] as nat
  }

  /** FidoVerifier.cpp, ExtractAttestedCredential. */
  function ExtractAttestedCredential(authData: Bytes, lib: Library): Result<AttestedCredential, Refusal> {
    if |authData| < 55 || authData[32] & ATTESTED_CREDENTIAL_DATA == 0 then Failure(NoAttestedData)
    else
      var idLength := IdLength(authData);
      var coseOffset := 55 + idLength;
      if idLength == 0 || idLength > 1024 || coseOffset >= |authData| then Failure(BadCredentialLength)
      else CredentialAt(authData, coseOffset, lib)
  }

  function CredentialAt(authData: Bytes, coseOffset: nat, lib: Library): Result<AttestedCredential, Refusal>
    requires 55 <= coseOffset <= |authData|
  {
    var loaded := lib.cborLoad(authData[coseOffset..]);
    if loaded.NoItem? || !loaded.item.Map? || loaded.read == 0 then Failure(BadPublicKey)
    else
      var cose := authData[coseOffset..coseOffset + loaded.read];
      if PublicKeyOf(cose, lib).None? then Failure(BadPublicKey)
      else Success(AttestedCredential(authData[55..coseOffset], cose))
  }

  lemma ThreeParts(data: Bytes, a: nat, b: nat)
    requires 55 <= a <= b <= |data|
    ensures data[..b] == data[..55] + data[55..a] + data[a..b]
  {
  }

  /** The octets after the identifier. */
  lemma ExtractedParts(authData: Bytes, lib: Library) returns (coseOffset: nat, read: nat)
    requires ExtractAttestedCredential(authData, lib).Success?
    ensures 56 <= coseOffset <= 55 + 1024 && coseOffset < coseOffset + read <= |authData|
    ensures ExtractAttestedCredential(authData, lib).value
      == AttestedCredential(authData[55..coseOffset], authData[coseOffset..coseOffset + read])
    ensures PublicKeyOf(authData[coseOffset..coseOffset + read], lib).Some?
  {
    coseOffset := 55 + IdLength(authData);
    read := lib.cborLoad(authData[coseOffset..]).read;
  }

  /** Section 6.5.1: what was extracted lies in its place in the data. */
  lemma ExtractedInPlace(authData: Bytes, lib: Library)
    requires ExtractAttestedCredential(authData, lib).Success?
    ensures
      var c := ExtractAttestedCredential(authData, lib).value;
      && 1 <= |c.id| <= 1024 && c.cose != []
      && |authData| >= 55 + |c.id| + |c.cose|
      && authData[..55 + |c.id| + |c.cose|] == authData[..55] + c.id + c.cose
      && PublicKeyOf(c.cose, lib).Some?
  {
    var coseOffset, read := ExtractedParts(authData, lib);
    ThreeParts(authData, coseOffset, coseOffset + read);
  }

  lemma LaidOut(head: Bytes, id: Bytes, cose: Bytes)
    requires |head| == 55
    ensures
      var data, n := head + id + cose, 55 + |id|;
      data[32] == head[32] && IdLength(data) == IdLength(head) && data[55..n] == id && data[n..] == cose
  {
    var data := head + id + cose;
    assert data[..55] == head;
    assert data[53] == head[53] && data[54] == head[54];
  }

  lemma Prefix(b: Bytes, from: nat)
    requires from <= |b|
    ensures b[from..from + |b[from..]|] == b[from..]
  {
  }

  /** The converse of ExtractedInPlace: a header, an identifier of the length that
      it announces and octets that read as one ES256 key are extracted as they are. */
  lemma LaidOutIsExtracted(head: Bytes, id: Bytes, cose: Bytes, lib: Library)
    requires |head| == 55 && head[32] & ATTESTED_CREDENTIAL_DATA != 0
    requires 1 <= |id| <= 1024 && IdLength(head) == |id|
    requires cose != [] && PublicKeyOf(cose, lib).Some?
    ensures ExtractAttestedCredential(head + id + cose, lib) == Success(AttestedCredential(id, cose))
  {
    LaidOut(head, id, cose);
    Prefix(head + id + cose, 55 + |id|);
    FoundAt(head + id + cose, 55 + |id|, cose, lib);
  }

  lemma FoundAt(authData: Bytes, coseOffset: nat, cose: Bytes, lib: Library)
    requires 55 <= coseOffset <= |authData| && cose != [] && PublicKeyOf(cose, lib).Some?
    requires authData[coseOffset..] == cose && authData[coseOffset..coseOffset + |cose|] == cose
    ensures CredentialAt(authData, coseOffset, lib) == Success(AttestedCredential(authData[55..coseOffset], cose))
  {
    assert lib.cborLoad(cose).read == |cose|;
  }

  // ----- Assertions -----

  datatype AssertionItem = AssertionItem(credentialId: string, authenticatorData: string, signature: string)

  datatype Assertion = Assertion(clientData: string, items: seq<AssertionItem>)

  /** FidoVerifier.cpp, the counter test of VerifyAssertion. */
  predicate CounterAccepted(stored: Counter, received: Counter) {
    !(stored != 0 && (received == 0 || received <= stored))
  }

  /** Section 7.2: accepted exactly when both are zero or the new one is larger. */
  lemma CounterRule(stored: Counter, received: Counter)
    ensures CounterAccepted(stored, received) <==> (stored == 0 && received == 0) || received > stored
  {
  }

  /** FidoVerifier.cpp, VerifyAssertion: yields the new signature counter. */
  function VerifyAssertion(credential: CredentialRecord, challenge: string, rpId: string, origin: string,
                           response: Assertion, lib: Library): Result<Counter, Refusal> {
    if credential.algorithm != ES256_ALGORITHM then Failure(UnsupportedAlgorithm)
    else if |response.items| != 1 then Failure(NotOneAssertion)
    else
      var item := response.items[0];
      if item.credentialId != credential.credentialId then Failure(ForeignCredential)
      else if UrlDecode(item.credentialId) == [] then Failure(BadEncoding)
      else
        VerifySigned(credential.signCount, challenge, rpId, origin, UrlDecode(response.clientData),
                     UrlDecode(item.authenticatorData), UrlDecode(item.signature), UrlDecode(credential.cosePublicKey),
                       lib)
  }

  /** The second half of VerifyAssertion, on the decoded texts. */
  function VerifySigned(stored: Counter, challenge: string, rpId: string, origin: string, clientData: Bytes,
                        authData: Bytes, signature: Bytes, cose: Bytes, lib: Library): Result<Counter, Refusal> {
    if clientData == [] || authData == [] || signature == [] || cose == [] || PublicKeyOf(cose, lib).None? then
      Failure(BadEncoding)
    else if !VerifyClientData(lib.clientData(clientData), "webauthn.get", challenge, origin) then
      Failure(ClientDataMismatch)
    else
      var counter := VerifyAuthenticatorData(authData, rpId, lib);
      if counter.Failure? then Failure(counter.error)
      else if !CounterAccepted(stored, counter.value) then Failure(CounterDidNotIncrease)
      else if !lib.signatureOk(clientData, rpId, authData, signature, PublicKeyOf(cose, lib).value) then
        Failure(BadSignature)
      else counter
  }

  /** What an accepted assertion proves: its one item names the credential, the
      counter obeys the rule, the user was present and verified for this relying
      party, and the signature covers challenge and origin. */
  lemma AcceptedAssertion(credential: CredentialRecord, challenge: string, rpId: string, origin: string,
                          response: Assertion, lib: Library)
    requires VerifyAssertion(credential, challenge, rpId, origin, response, lib).Success?
    ensures |response.items| == 1 && response.items[0].credentialId == credential.credentialId
    ensures
      var counter := VerifyAssertion(credential, challenge, rpId, origin, response, lib).value;
      var clientData, authData := UrlDecode(response.clientData), UrlDecode(response.items[0].authenticatorData);
      && ((credential.signCount == 0 && counter == 0) || counter > credential.signCount)
      && |authData| >= 37 && counter == Counter32(authData, 33)
      && lib.sha256(rpId) == Some(authData[..32])
      && authData[32] & 0x05 == 0x05
      && lib.clientData(clientData) == Some(ClientData("webauthn.get", challenge, origin, false))
      && PublicKeyOf(UrlDecode(credential.cosePublicKey), lib).Some?
      && lib.signatureOk(clientData, rpId, authData, UrlDecode(response.items[0].signature),
                         PublicKeyOf(UrlDecode(credential.cosePublicKey), lib).value)
  {
    FlagsTogether(UrlDecode(response.items[0].authenticatorData)[32]);
  }

  /** Section 7.2, over the library and the octets: the response has one item for
      the credential, its texts decode, the client data answers the challenge, the
      data hashes the relying party with both user flags set, the counter obeys the
      rule, and the signature is right. */
  predicate AssertionHolds(c: CredentialRecord, challenge: string, rpId: string, origin: string, response: Assertion,
                           lib: Library, counter: Counter) {
    && c.algorithm == -7 && |response.items| == 1 && response.items[0].credentialId == c.credentialId
    && UrlDecode(c.credentialId) != []
    && SignatureHolds(c.signCount, challenge, rpId, origin, UrlDecode(response.clientData),
                      UrlDecode(response.items[0].authenticatorData), UrlDecode(response.items[0].signature),
                      UrlDecode(c.cosePublicKey), lib, counter)
  }

  predicate SignatureHolds(stored: Counter, challenge: string, rpId: string, origin: string, clientData: Bytes,
                           data: Bytes, signature: Bytes, key: Bytes, lib: Library, counter: Counter) {
    && clientData != [] && signature != [] && key != []
    && lib.clientData(clientData) == Some(ClientData("webauthn.get", challenge, origin, false))
    && |data| >= 37 && lib.sha256(rpId) == Some(data[..32]) && data[32] & 0x05 == 0x05
    && counter == data[33] as int * 0x100_0000 + data[34] as int * 0x1_0000 + data[35] as int * 0x100 + data[36] as int
    && ((stored == 0 && counter == 0) || counter > stored)
    && PublicKeyOf(key, lib).Some?
    && lib.signatureOk(clientData, rpId, data, signature, PublicKeyOf(key, lib).value)
  }

  lemma SignatureIff(stored: Counter, challenge: string, rpId: string, origin: string, clientData: Bytes, data: Bytes,
                     signature: Bytes, key: Bytes, lib: Library, counter: Counter)
    ensures VerifySigned(stored, challenge, rpId, origin, clientData, data, signature, key, lib) == Success(counter)
      <==> SignatureHolds(stored, challenge, rpId, origin, clientData, data, signature, key, lib, counter)
  {
    if |data| >= 37 { FlagsTogetherIff(data[32]); }
  }

  /** The verifier accepts exactly these assertions. */
  lemma AssertionIff(c: CredentialRecord, challenge: string, rpId: string, origin: string, response: Assertion,
                     lib: Library, counter: Counter)
    ensures VerifyAssertion(c, challenge, rpId, origin, response, lib) == Success(counter)
      <==> AssertionHolds(c, challenge, rpId, origin, response, lib, counter)
  {
    if |response.items| == 1 {
      SignatureIff(c.signCount, challenge, rpId, origin, UrlDecode(response.clientData),
                   UrlDecode(response.items[0].authenticatorData), UrlDecode(response.items[0].signature),
                   UrlDecode(c.cosePublicKey), lib, counter);
    }
  }

  lemma FlagsTogether(flags: bv8)
    requires flags & USER_PRESENT != 0 && flags & USER_VERIFIED != 0
    ensures flags & 0x05 == 0x05
  {
  }

  lemma FlagsTogetherIff(flags: bv8)
    ensures flags & USER_PRESENT != 0 && flags & USER_VERIFIED != 0 <==> flags & 0x05 == 0x05
  {
  }

  // ----- Registrations -----

  datatype RegistrationResult = RegistrationResult(
    credentialId: string,
    cosePublicKey: string,
    aaguid: string,
    algorithm: int,
    signCount: Counter)

  /** FidoVerifier.cpp, VerifyRegistration. */
  function VerifyRegistration(challenge: string, rpId: string, origin: string, attestationObject: string,
                              clientDataJson: string, lib: Library): Result<RegistrationResult, Refusal> {
    VerifyDecoded(challenge, rpId, origin, UrlDecode(attestationObject), UrlDecode(clientDataJson), lib)
  }

  function VerifyDecoded(challenge: string, rpId: string, origin: string, attested: Bytes, clientData: Bytes,
                         lib: Library): Result<RegistrationResult, Refusal> {
    if attested == [] || clientData == [] then Failure(BadEncoding)
    else if !VerifyClientData(lib.clientData(clientData), "webauthn.create", challenge, origin)
    then Failure(ClientDataMismatch)
    else
      var parsed := lib.attestation(attested, rpId, clientData);
      if parsed.None? then Failure(BadAttestation)
      else if parsed.value.format != "none" && parsed.value.format != "packed" then Failure(UnsupportedFormat)
      else if parsed.value.format == "packed" && !parsed.value.verified then Failure(BadAttestation)
      else RegistrationFrom(parsed.value.authData, parsed.value.credentialId, rpId, lib)
  }

  /** The second half of VerifyRegistration: the authenticator data. */
  function RegistrationFrom(authData: Bytes, parsedId: Bytes, rpId: string,
                            lib: Library): Result<RegistrationResult, Refusal> {
    if authData == [] then Failure(NoAuthData)
    else
      var counter := VerifyAuthenticatorData(authData, rpId, lib);
      if counter.Failure? then Failure(counter.error)
      else
        var extracted := ExtractAttestedCredential(authData, lib);
        if extracted.Failure? then Failure(extracted.error)
        else if parsedId == [] || parsedId != extracted.value.id then Failure(CredentialIdMismatch)
        else Success(ResultOf(authData, extracted.value, counter.value))
  }

  function ResultOf(authData: Bytes, c: AttestedCredential, counter: Counter): RegistrationResult
    requires |authData| >= 55
  {
    RegistrationResult(
      UrlEncode(c.id, false), UrlEncode(c.cose, false), UrlEncode(authData[37..53], false), ES256_ALGORITHM, counter)
  }

  /** The encoded fields of a result decode to the material that was extracted. */
  lemma ResultDecodes(authData: Bytes, c: AttestedCredential, counter: Counter)
    requires |authData| >= 55
    ensures
      var r := ResultOf(authData, c, counter);
      && UrlDecode(r.credentialId) == c.id
      && UrlDecode(r.cosePublicKey) == c.cose
      && UrlDecode(r.aaguid) == authData[37..53] && |UrlDecode(r.aaguid)| == 16
  {
    UrlDecodeInvertsUrlEncode(c.id);
    UrlDecodeInvertsUrlEncode(c.cose);
    UrlDecodeInvertsUrlEncode(authData[37..53]);
  }

  /** A result with encoded identifier, key and AAGUID that the vault can hold,
      except that nothing bounds the size of the public key. */
  predicate Storable(r: RegistrationResult) {
    && r.algorithm == ES256_ALGORITHM
    && 1 <= |UrlDecode(r.credentialId)| <= 1024
    && 1 <= |UrlDecode(r.cosePublicKey)|
    && |UrlDecode(r.aaguid)| == 16
  }

  lemma AcceptedRegistration(challenge: string, rpId: string, origin: string, attestationObject: string,
                             clientDataJson: string, lib: Library)
    requires VerifyRegistration(challenge, rpId, origin, attestationObject, clientDataJson, lib).Success?
    ensures Storable(VerifyRegistration(challenge, rpId, origin, attestationObject, clientDataJson, lib).value)
    ensures lib.clientData(UrlDecode(clientDataJson)) == Some(ClientData("webauthn.create", challenge, origin, false))
  {
    AcceptedDecoded(challenge, rpId, origin, UrlDecode(attestationObject), UrlDecode(clientDataJson), lib);
  }

  lemma AcceptedDecoded(challenge: string, rpId: string, origin: string, attested: Bytes, clientData: Bytes,
                        lib: Library)
    requires VerifyDecoded(challenge, rpId, origin, attested, clientData, lib).Success?
    ensures Storable(VerifyDecoded(challenge, rpId, origin, attested, clientData, lib).value)
    ensures lib.clientData(clientData) == Some(ClientData("webauthn.create", challenge, origin, false))
  {
    var parsed := lib.attestation(attested, rpId, clientData).value;
    AcceptedAuthData(parsed.authData, parsed.credentialId, rpId, lib);
  }

  lemma AcceptedAuthData(authData: Bytes, parsedId: Bytes, rpId: string, lib: Library)
    requires RegistrationFrom(authData, parsedId, rpId, lib).Success?
    ensures Storable(RegistrationFrom(authData, parsedId, rpId, lib).value)
    ensures UrlDecode(RegistrationFrom(authData, parsedId, rpId, lib).value.credentialId) == parsedId
  {
    var c := ExtractAttestedCredential(authData, lib).value;
    var counter := VerifyAuthenticatorData(authData, rpId, lib).value;
    ExtractedInPlace(authData, lib);
    StorableResult(authData, c, counter);
    ResultDecodes(authData, c, counter);
  }

  lemma StorableResult(authData: Bytes, c: AttestedCredential, counter: Counter)
    requires |authData| >= 55 && 1 <= |c.id| <= 1024 && c.cose != []
    ensures Storable(ResultOf(authData, c, counter))
  {
    ResultDecodes(authData, c, counter);
  }

  /** Section 7.1, over the library and the octets: both texts decode, the client
      data answers the challenge, the attestation is of format "none", or "packed"
      and verified, and its authenticator data hashes the relying party, has the
      flags for a user who is present and verified and for attested data, and holds
      the identifier of the attestation and an ES256 key one behind the other after
      55 octets. */
  ghost predicate RegistrationHolds(challenge: string, rpId: string, origin: string, attestationObject: string,
                                    clientDataJson: string, lib: Library, r: RegistrationResult) {
    CeremonyHolds(challenge, rpId, origin, UrlDecode(attestationObject), UrlDecode(clientDataJson), lib, r)
  }

  ghost predicate CeremonyHolds(challenge: string, rpId: string, origin: string, attested: Bytes, clientData: Bytes,
                                lib: Library, r: RegistrationResult) {
    && attested != [] && clientData != []
    && lib.clientData(clientData) == Some(ClientData("webauthn.create", challenge, origin, false))
    && lib.attestation(attested, rpId, clientData).Some?
    && var parsed := lib.attestation(attested, rpId, clientData).value;
       && (parsed.format == "none" || (parsed.format == "packed" && parsed.verified))
       && DataHolds(parsed.authData, parsed.credentialId, rpId, lib, r)
  }

  ghost predicate DataHolds(data: Bytes, id: Bytes, rpId: string, lib: Library, r: RegistrationResult) {
    && |data| >= 55 && lib.sha256(rpId) == Some(data[..32]) && data[32] & 0x45 == 0x45
    && exists cose :: KeyBehind(data, id, cose, lib)
         && r == RegistrationResult(UrlEncode(id, false), UrlEncode(cose, false), UrlEncode(data[37..53], false), -7,
                                    Counter32(data, 33))
  }

  /** The length, the identifier and the octets of one key, in their places. */
  ghost predicate KeyBehind(data: Bytes, id: Bytes, cose: Bytes, lib: Library)
    requires |data| >= 55
  {
    && 1 <= |id| <= 1024 && data[53] as nat * 0x100 + data[54] as nat == |id| && 55 + |id| < |data|
    && KeyAt(data, 55 + |id|, id, cose, lib)
  }

  ghost predicate KeyAt(data: Bytes, at: nat, id: Bytes, cose: Bytes, lib: Library)
    requires 55 <= at <= |data|
  {
    var loaded := lib.cborLoad(data[at..]);
    && data[55..at] == id && cose != []
    && loaded.Loaded? && loaded.item.Map? && loaded.read == |cose|
    && data[at..at + |cose|] == cose && PublicKeyOf(cose, lib).Some?
  }

  lemma AllFlagsTogether(flags: bv8)
    ensures flags & USER_PRESENT != 0 && flags & USER_VERIFIED != 0 && flags & ATTESTED_CREDENTIAL_DATA != 0
      <==> flags & 0x45 == 0x45
  {
  }

  lemma FoundIff(data: Bytes, at: nat, c: AttestedCredential, lib: Library)
    requires 55 <= at <= |data|
    ensures CredentialAt(data, at, lib) == Success(c) <==> KeyAt(data, at, c.id, c.cose, lib)
  {
  }

  lemma ExtractedAt(data: Bytes, c: AttestedCredential, lib: Library)
    requires |data| >= 55
    ensures ExtractAttestedCredential(data, lib) == Success(c)
      <==> && data[32] & ATTESTED_CREDENTIAL_DATA != 0
           && 1 <= IdLength(data) <= 1024 && 55 + IdLength(data) < |data|
           && CredentialAt(data, 55 + IdLength(data), lib) == Success(c)
  {
  }

  lemma ExtractedIff(data: Bytes, c: AttestedCredential, lib: Library)
    requires |data| >= 55
    ensures ExtractAttestedCredential(data, lib) == Success(c)
      <==> data[32] & ATTESTED_CREDENTIAL_DATA != 0 && KeyBehind(data, c.id, c.cose, lib)
  {
    ExtractedAt(data, c, lib);
    if 55 + IdLength(data) < |data| {
      FoundIff(data, 55 + IdLength(data), c, lib);
    }
  }

  lemma DataIff(data: Bytes, id: Bytes, rpId: string, lib: Library, r: RegistrationResult)
    ensures RegistrationFrom(data, id, rpId, lib) == Success(r) <==> DataHolds(data, id, rpId, lib, r)
  {
    if |data| >= 55 {
      AllFlagsTogether(data[32]);
      if RegistrationFrom(data, id, rpId, lib).Success? {
        var c := ExtractAttestedCredential(data, lib).value;
        ExtractedIff(data, c, lib);
      }
      if DataHolds(data, id, rpId, lib, r) {
        var cose :| KeyBehind(data, id, cose, lib)
          && r == RegistrationResult(UrlEncode(id, false), UrlEncode(cose, false), UrlEncode(data[37..53], false), -7,
                                     Counter32(data, 33));
        ExtractedIff(data, AttestedCredential(id, cose), lib);
      }
    }
  }

  lemma CeremonyIff(challenge: string, rpId: string, origin: string, attested: Bytes, clientData: Bytes, lib: Library,
                    r: RegistrationResult)
    ensures VerifyDecoded(challenge, rpId, origin, attested, clientData, lib) == Success(r)
      <==> CeremonyHolds(challenge, rpId, origin, attested, clientData, lib, r)
  {
    var parsed := lib.attestation(attested, rpId, clientData);
    if parsed.Some? { DataIff(parsed.value.authData, parsed.value.credentialId, rpId, lib, r); }
  }

  /** The verifier accepts exactly these registrations, with this result. */
  lemma RegistrationIff(challenge: string, rpId: string, origin: string, attestationObject: string,
                        clientDataJson: string, lib: Library, r: RegistrationResult)
    ensures VerifyRegistration(challenge, rpId, origin, attestationObject, clientDataJson, lib) == Success(r)
      <==> RegistrationHolds(challenge, rpId, origin, attestationObject, clientDataJson, lib, r)
  {
    CeremonyIff(challenge, rpId, origin, UrlDecode(attestationObject), UrlDecode(clientDataJson), lib, r);
  }
}
