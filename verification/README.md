# Windows FIDO Logon: a verified model of the policy and credential state machine

Windows FIDO Logon adds a security key to the Windows logon of local accounts.
A privileged Broker keeps a vault of registered keys and of the accounts that
must use one; a credential provider asks the Broker for a challenge, lets the
key sign it, and only then hands the user name and password to the LSA.

This project models that machinery in Dafny and proves what it promises. Code
that works step by step in the program is imperative here too: classes with
fields, methods and loops, each proved against a specification function; the
lemmas then say what the specification means, for every input, every crash and
every run.

| module | models |
|---|---|
| `Basics` | options, results, SIDs, comparison ignoring case |
| `Base64` | strict Base64 and Base64URL, sections 3.2, 3.5, 4 and 5 of RFC 4648 |
| `MultiString` | the registry list of enforced SIDs: its printer and its parser |
| `Vaults` | vault, accounts, credentials, `IsVaultValid` |
| `CredentialStore` | the vault store: four files and two registry values as fields of `Machine`, every step of which may fail or be the last before a crash |
| `SignInPolicy` | what each disk state means for a sign-in, as `begin_auth` decides it |
| `CoseKey`, `FidoVerifier` | ES256 keys in CBOR maps, authenticator data, attested credentials, signature counters: section 7.1 of RFC 9052, section 7.1.1 of RFC 9053, sections 6.1, 6.5.1 and 7.2 of W3C Web Authentication Level 2 |
| `Sessions`, `Broker`, `BrokerProcess` | the Broker: its session table, its operations as functions, and the process (`BrokerService`) that carries them out over a `Machine` |
| `VaultChanges`, `BrokerSteps`, `BrokerRuns`, `BrokerInvariants` | what one request and whole runs of the Broker can do |
| `BrokerDecisions` | exactly which requests are granted when no step of the store fails |
| `KeptCounter`, `OversizedKey` | concrete runs and requests for what the code does not do |
| `CredentialTile`, `TileRuns` | the logon tile `CCredential`, and every sequence of LogonUI callbacks |
| `EndToEnd` | a tile and the Broker together: what stands behind a logon |
| `LogonPacking` | the packed logon and change-password structures |
| `TouchSelection` | choosing one of several keys by touch |

## How the pieces fit

* **Crashes.** A primitive step of the store reports on a ghost trace the states
  it passes through. A file being written may hold anything; a rename and the
  write of one registry value are atomic. `Save` is proved about every state of
  its trace, so about every crash.
* **Refinement.** `BrokerProcess.BrokerService.Handle` ends where the function
  `Broker.Handled` says, for some *fates* of its saves (done; failed and undone;
  failed with the new vault in place). Every disk state it passes through is the
  end of a crashed request: an event of its own, which nobody is answered and which
  forgets the sessions. `Run` shows that a process is a run in the sense of
  `BrokerRuns`, and every disk state of it the end of a run that crashes.
* **Failures.** `Machine.faults` counts the steps of the store that fail. `Save`
  succeeds exactly when none does, and then the fates of a request are those of
  saves that are done; `BrokerDecisions` says for each operation exactly when it is
  then granted, in terms of the caller, the vault, the sessions and the world.
* **Runs.** A run starts from any disk and any clock, and consists of any
  requests by any callers, answered or cut short by a crash, with any answers of
  the operating system, and of restarts. Theorems over runs speak of `RecordOf`,
  the credential stored for an account and identifier, and of `Held`, the policy
  and credentials of an account.
* **End to end.** `EndToEnd.Wired` says of a tile and a Broker only that what a
  Connect is told, the Broker did answer, among requests of any other clients.
  `LogonIsSigned` then traces every logon to a begin_auth for its account: the vault
  left the account unenforced, or a key of the account signed that challenge, and
  the key was in the first vault or was registered with the account's password.
* **Who is who.** An account is named by its SID ignoring case. `Unmaps` says that
  the operating system no longer knows a stored account, so that the refresh at
  the start of a request deletes it.

## What the code does not do

* A stored signature counter is not always that of the last *accepted* assertion.
  When no account is enforced, the save of a counter can fail after the vault was
  replaced, and its undo can fail too: the request is refused, the new counter
  stays. And whatever is enforced, a crash right after the vault was replaced
  leaves the new counter before anybody is answered. `UntrackedIff` says that for a
  request that is about to verify with a new counter these are all the ways: it can
  happen exactly when no account is enforced or the process may crash.
  `UnansweredCounterIsKept` gives a run for each way, from a valid vault, and
  `KeptHasDiskStates` and `CrashHasDiskStates` the steps of the disk.
* A verified registration is not always storable: nothing checks the size of the
  public key before the save. `AcceptedRegistrationIsStorable` says exactly when;
  `OversizedKeyIsRefused` gives a run in which a registration verifies with a key of
  1025 octets and is then refused.
* A COSE key may use labels and values that are only congruent to the standard ones
  modulo 2^32, because both are cast to `int`. `ReadsTheNarrowedMap` says what is
  accepted, `TruncationIsHarmlessIff` exactly when that is what sections 7.1 of
  RFC 9052 and 7.1.1 of RFC 9053 accept. `AliasedLabelsAccepted` has none of the
  standard labels, `AliasedValuesAccepted` none of the standard numbers under the
  standard labels, and `AliasedDuplicateRefused` is a proper key that is refused.
* A Connect that is refused, or that asks for a PIN, does not always clear an MFA
  completed earlier, and the next serialization still hands over a logon: the
  earlier authorization outlives a policy that has changed since. `StaleMfaIff` and
  `StaleLogonIff` say exactly when, in every state of every run;
  `FailedConnectKeepsMfaIff` is the part where the Connect fails.
  `StaleAfterRefusalExample` is a waiver followed by a refusal,
  `StaleBehindPromptExample` a waiver followed by a challenge that nobody answers,
  and `FailedConnectExample` an erased password. The comment at CCredential.cpp:383-385
  promises that nothing is handed over behind a prompt; `PromptHoldsBackIff` says
  that the code keeps this exactly when MFA was not complete before. In all of them the authorization
  stays with its account. In `LogonIsSigned` the vault may thus have left the
  account unenforced at an earlier begin_auth than the last one.
* A report of general failure leaves the authorization of a password change set
  outside its mode. `ReportLeavesFlagIff`, `FlagIsLeftIff` and `LeftoverIff` say
  exactly when it is left by a report, after a callback, and in a state of a run;
  `LeftoverExample` gives a run. It is of no use: `LeftoverIsUseless`.

## Model

| member | source | states |
|---|---|---|
| Base64.DecodeInvertsEncode | CppClient/CppClient/Convert.cpp:121-145 | decoding an encoding returns the octets, for every octet string, with and without padding |
| Base64.EncodeInvertsDecode | CppClient/CppClient/Convert.cpp:28-67 | every text with a non-empty decoding is the encoding of it, padded exactly when the text is, so the decoder is injective there |
| Base64.UrlDecodeInvertsUrlEncode | CppClient/CppClient/Convert.cpp:101-158 | unpadded Base64URL: decoding inverts encoding, and n octets give (4n+2)/3 letters |
| Base64.UrlEncodeInvertsUrlDecode | CppClient/CppClient/Convert.cpp:101-119 | canonicity: a text with a non-empty decoding is exactly the unpadded encoding of it |
| Base64.UrlTextsAreCanonicalNames | BrokerService/BrokerService.cpp:546-548 | comparing identifiers as strings is comparing their octets |
| Base64.OctetsCarryTheSextetBits | CppClient/CppClient/Convert.cpp:44-66 | an octet string decoded group by group has bit i set exactly when bit i of the string of sextets is set: an unbounded bit-string reference |
| Base64.SextetsCarryTheOctetBits | CppClient/CppClient/Convert.cpp:121-140 | the sextets of an encoding carry exactly the bits of the octets, followed by zeros |
| Base64.DecodeBase64Strict | CppClient/CppClient/Convert.cpp:28-43 | the padding tests and the loop together compute the specified decoding, rejections included |
| Base64.DecodeUnpadded | CppClient/CppClient/Convert.cpp:44-66 | the loop with the 32-bit accumulator, which overflows, computes the same octets as the unbounded specification |
| Base64.Base64Encode | CppClient/CppClient/Convert.cpp:121-140 | the block encoder computes the specified text |
| Base64.Base64UrlDecode | CppClient/CppClient/Convert.cpp:101-119 | the character replacement loop and the strict decoder compute the specified Base64URL decoding |
| Base64.Base64UrlEncode | CppClient/CppClient/Convert.cpp:147-158 | the encoder with replaced characters computes the specified Base64URL text |
| MultiString.GetMultiSZ | CppClient/CppClient/RegistryReader.cpp:62-82 | the cursor walk returns the specified items of the stored characters, or none |
| MultiString.ParseInvertsPrint | CppClient/CppClient/LocalCredentialStore.cpp:535-567 | a printed list of non-empty NUL-free strings parses back to itself, the empty list included |
| MultiString.PrintIsTerminated | CppClient/CppClient/LocalCredentialStore.cpp:546-557 | a printed list is the items with their terminators and ends in two, the empty list included |
| MultiString.ItemsAreInPlace | CppClient/CppClient/RegistryReader.cpp:79-81 | in any buffer that ends in two terminators the items found stand at its beginning, none of them empty, and another terminator ends them |
| Vaults.IsVaultValid | CppClient/CppClient/LocalCredentialStore.cpp:108-143 | the loops that fill sets accept exactly the valid vaults: header, SIDs unique ignoring case, identifiers unique per account, all bounds |
| Vaults.IsCredentialValid | CppClient/CppClient/LocalCredentialStore.cpp:129-140 | a credential is accepted exactly when its three texts decode to the right lengths and its algorithm, label and date fit |
| Vaults.ValidInNumbers | CppClient/CppClient/LocalCredentialStore.cpp:108-143 | the validity test in numbers: a vault passes exactly within these limits, bounds, names and uniqueness conditions |
| Vaults.ListedIffEnforced | CppClient/CppClient/LocalCredentialStore.cpp:546-552 | the SIDs published are those of the enforced accounts, no more and no fewer |
| CredentialStore.Machine.Load | CppClient/CppClient/LocalCredentialStore.cpp:284-318 | the primary if it is valid, else the backup, else the error of the primary |
| CredentialStore.Machine.Save | CppClient/CppClient/LocalCredentialStore.cpp:320-414 | in every state it passes, failures, torn files and undo steps included, the vault that loads is the old or the new one, and the backup decodes to the old one from the moment it is remembered; success publishes the new vault and both registry values; a failure whose undo works restores both; a valid vault is saved exactly when no step fails; an enforcing vault is never in force before its policy, and a failed save of one changes nothing that loads; a successful save moves from old to new without turning back |
| CredentialStore.Machine.RememberPrevious | CppClient/CppClient/LocalCredentialStore.cpp:337-371 | whatever happens to the copy, what loads stays the same; on success the backup decodes to the previous vault |
| CredentialStore.Machine.ReplaceEnforcing | CppClient/CppClient/LocalCredentialStore.cpp:381-401 | the policy is published before the file is replaced; on failure the files are as before and the policy is the previous one unless its undo failed |
| CredentialStore.Machine.ReplaceRelaxing | CppClient/CppClient/LocalCredentialStore.cpp:395-413 | the policy is removed after the file is replaced; on failure file and policy are the previous ones unless an undo step failed |
| CredentialStore.Machine.SynchronizeEnforcedRegistry | CppClient/CppClient/LocalCredentialStore.cpp:535-567 | list first, then flag; the exact states after a failure in between |
| CredentialStore.LoadIsDecidedByFiles | CppClient/CppClient/LocalCredentialStore.cpp:312-317 | on the contents of the files: which vault loads, and for which contents the store may be started afresh |
| CredentialStore.FreshIsValidIff | CppClient/CppClient/LocalCredentialStore.cpp:425-433 | a fresh vault has no accounts, and is valid exactly for an identifier of 32 hexadecimal digits |
| CredentialStore.Machine.LoadOrCreate | CppClient/CppClient/LocalCredentialStore.cpp:416-434 | a fresh, empty vault is saved only when no file holds a valid vault and the primary is missing, or fails without an error beside a missing backup; otherwise nothing is touched; without failing steps it succeeds exactly when there is such a vault |
| CredentialStore.Machine.RefreshLocalAccounts | CppClient/CppClient/LocalCredentialStore.cpp:493-521 | from any disk state, success leaves the refreshed vault loading and the registry in step with it; without failing steps it succeeds exactly when the vault worked on and the refreshed one are valid |
| CredentialStore.RefreshAccounts | CppClient/CppClient/LocalCredentialStore.cpp:498-519 | the loop that erases and renames in place computes the specified accounts and reports whether it changed any |
| CredentialStore.PrintEnforced | CppClient/CppClient/LocalCredentialStore.cpp:546-555 | the loop prints exactly the enforced SIDs and counts whether there are any |
| CredentialStore.Machine.IsSidEnforced | CppClient/CppClient/LocalCredentialStore.cpp:529-533 | true exactly when the parsed list holds the SID ignoring case |
| CredentialStore.Machine.UpsertAccount | CppClient/CppClient/LocalCredentialStore.cpp:445-452 | on success the vault with the account loads; in every state before, the old or the changed vault |
| CredentialStore.Machine.RemoveCredential | CppClient/CppClient/LocalCredentialStore.cpp:454-477 | the same for a removal, which never takes the last credential of an enforced account |
| CredentialStore.Machine.SetEnforced | CppClient/CppClient/LocalCredentialStore.cpp:479-491 | the same for a policy change, which never enforces an account without credentials |
| SignInPolicy.PublishedListIsExact | CppClient/CppClient/LocalCredentialStore.cpp:529-557 | reading back the published list finds exactly the accounts the vault enforces |
| SignInPolicy.InStepIsDecided | BrokerService/BrokerService.cpp:441-453 | a disk in step with its vault demands MFA of the enforced accounts and lets all others sign in with the password |
| SignInPolicy.LoadedIsDecided | CppClient/CppClient/LocalCredentialStore.cpp:493-557 | the same for every vault that passes the validity test: the registry lists exactly the accounts it enforces, nobody is blocked, and the filter flag is 1 exactly when some account is enforced and 0 exactly when none is |
| SignInPolicy.Restart | BrokerService/BrokerService.cpp:246-250 | from any disk, once the refresh at the start of the Broker succeeds, the vault in force is the refreshed one, and the registry test finds exactly the accounts it enforces |
| SignInPolicy.DecisionMovesOneWay | CppClient/CppClient/LocalCredentialStore.cpp:381-413 | along a trace that does not turn back the decision for every account only tightens or only loosens |
| SignInPolicy.Change | CppClient/CppClient/LocalCredentialStore.cpp:320-414 | a save of any vault, which succeeds when it is valid and no step fails, over a disk in step: on success each decision only tightens or only loosens, from that of the old vault to that of the new; whatever fails, the password alone suffices in no state unless one of the two leaves the account unenforced |
| SignInPolicy.PasswordOnlyIsLicensed | CppClient/CppClient/LocalCredentialStore.cpp:381-413 | with any failures, the password alone suffices only for an account that the old or the new vault leaves unenforced |
| SignInPolicy.EnforcementIsGuarded | CppClient/CppClient/LocalCredentialStore.cpp:381-394 | wherever a new enforcing vault shows, the filter is on and the registry lists exactly its enforced accounts |
| SignInPolicy.RefreshKeepsSurvivors | CppClient/CppClient/LocalCredentialStore.cpp:498-519 | the accounts after a refresh are the mapped ones in their order, with credentials and policy unchanged and their current name |
| SignInPolicy.SurvivorsAreTheMapped | CppClient/CppClient/LocalCredentialStore.cpp:500-511 | the surviving indexes increase, and an account is missing exactly when it is not mapped |
| CoseKey.CoseEs256Coordinates | CppClient/CppClient/FidoVerifier.cpp:94-156 | the loop over the pairs accepts exactly the maps of at most 32 pairs that supply each of the five slots once with the required value, and returns x followed by y |
| CoseKey.OrderDoesNotMatter | CppClient/CppClient/FidoVerifier.cpp:115-148 | reordering the pairs of a map changes neither the verdict nor the coordinates |
| CoseKey.TruncationOnlyAliases | CppClient/CppClient/FidoVerifier.cpp:118-120 | the cast of a label changes what a pair counts for exactly when the pair counts for something and its label does not fit 32 bits |
| CoseKey.ReadsTheNarrowedMap | CppClient/CppClient/FidoVerifier.cpp:115-156 | the key and coordinates are exactly those that the standards read in the map with its labels and values cut to 32 bits |
| CoseKey.TruncationIsHarmlessIff | CppClient/CppClient/FidoVerifier.cpp:117-138 | for every map that is a key to the program or to the standards: both read it alike exactly when no pair that counts has a wide label or value; any other map is a key to neither |
| CoseKey.AliasedLabelsAccepted | CppClient/CppClient/FidoVerifier.cpp:117-138 | a concrete map without any standard label that is accepted |
| CoseKey.AliasedValuesAccepted | CppClient/CppClient/FidoVerifier.cpp:125-137 | a concrete map with the standard labels but other values of kty, alg and crv that is accepted |
| CoseKey.AliasedDuplicateRefused | CppClient/CppClient/FidoVerifier.cpp:121-138 | a concrete map that is a key by the standards and is refused for an ignorable pair |
| FidoVerifier.ExtractedInPlace | CppClient/CppClient/FidoVerifier.cpp:158-194 | accepted authenticator data holds an identifier of 1 to 1024 octets and an ES256 key, one behind the other after 55 octets, within bounds |
| FidoVerifier.LaidOutIsExtracted | CppClient/CppClient/FidoVerifier.cpp:158-194 | the converse: a header, an identifier of the announced length and an ES256 key are extracted as they are |
| FidoVerifier.CounterRule | CppClient/CppClient/FidoVerifier.cpp:229-233 | the counter test accepts exactly when both counters are zero or the new one is larger |
| FidoVerifier.AcceptedAssertion | CppClient/CppClient/FidoVerifier.cpp:200-261 | an accepted assertion has one item, names the credential, hashes the relying party, has both user flags, obeys the counter rule and carries a signature over challenge and origin |
| FidoVerifier.AssertionIff | CppClient/CppClient/FidoVerifier.cpp:200-261 | an assertion is accepted with a counter exactly when, on the decoded octets, credential, client data, hash, both user flags, counter rule, key and signature are right |
| FidoVerifier.AcceptedRegistration | CppClient/CppClient/FidoVerifier.cpp:263-333 | an accepted registration answers the challenge, and its encoded identifier, key and AAGUID decode to lengths the vault accepts, except that the key may be too long |
| FidoVerifier.RegistrationIff | CppClient/CppClient/FidoVerifier.cpp:263-333 | a registration is accepted with a result exactly when the client data answers the challenge, the attestation is of format none, or packed and verified, its data has the hash and all three flags, and identifier, key, AAGUID and counter of the result stand in their places |
| FidoVerifier.ResultDecodes | CppClient/CppClient/FidoVerifier.cpp:321-330 | the encoded fields of a registration decode to the extracted material |
| Sessions.RandomIdIsIdentifier | BrokerService/BrokerService.cpp:34-39 | 24 random octets give an identifier of 32 characters, which passes the length check |
| Sessions.PutSucceedsIff | BrokerService/BrokerService.cpp:341-361 | a session is stored exactly when it is complete, there is room among the living ones and one of four draws is unused; expired sessions are dropped |
| Sessions.PutKeepsLimits | BrokerService/BrokerService.cpp:341-361 | never more than 256 sessions nor 32 of one caller ignoring case; the new session lives 120 s and every other one is unchanged |
| Sessions.PutKeepsTheLiving | BrokerService/BrokerService.cpp:346-349 | no session that is still alive is dropped |
| Sessions.TakeConsumes | BrokerService/BrokerService.cpp:363-375 | a take succeeds exactly for a known, unexpired session of the right kind taken by its owner or SYSTEM, and removes that session and no other whether or not it succeeds |
| BrokerProcess.BrokerService.PutSession | BrokerService/BrokerService.cpp:341-361 | the pruning, counting and drawing loops compute the specified table and identifier |
| BrokerProcess.BrokerService.TakeSession | BrokerService/BrokerService.cpp:363-375 | removal before validation computes the specified table and verdict |
| BrokerProcess.BrokerService.VerifySessionAssertion | BrokerService/BrokerService.cpp:399-414 | the vault that loads afterwards and the verdict are the specified ones, for some fate of the save |
| BrokerProcess.BrokerService.BeginAuth | BrokerService/BrokerService.cpp:441-466 | table and reply are the specified ones, and the store is left alone |
| BrokerProcess.BrokerService.CommitRegistration | BrokerService/BrokerService.cpp:534-575 | vault, table and reply are the specified ones, for some fate of the save |
| BrokerProcess.BrokerService.FinishRemove | BrokerService/BrokerService.cpp:641-650 | both saves, the counter and the removal, end as specified |
| BrokerProcess.BrokerService.SetEnforcement | BrokerService/BrokerService.cpp:652-684 | vault and reply are the specified ones, all checks in their order |
| BrokerProcess.BrokerService.Handle | BrokerService/BrokerService.cpp:416-687 | every request refreshes first and then ends in the specified state with the specified reply; when no step of the store fails its saves are done; a crash in any disk state on the way is a crash event of the runs |
| BrokerProcess.BrokerService.Run | BrokerService/BrokerService.cpp:246-296 | what the process does on any stream of requests is a run, with one reply per request once the first refresh is done, and a crash anywhere on the way is the end of a run |
| BrokerProcess.CrashIsAFate | CppClient/CppClient/LocalCredentialStore.cpp:320-414 | every state that a change of the vault passes through loads the vault before it or the one that its success leaves |
| VaultChanges.AccountAfterUpsert | CppClient/CppClient/LocalCredentialStore.cpp:445-452 | an upsert changes the account it names and no other |
| VaultChanges.AccountAfterRefresh | CppClient/CppClient/LocalCredentialStore.cpp:498-519 | for every SID, a refresh keeps a mapped account under its current name and deletes an unmapped one |
| BrokerSteps.IsVaultValidIsTrusted | CppClient/CppClient/LocalCredentialStore.cpp:108-143 | the validity test is one for which the theorems about requests and runs hold |
| BrokerSteps.AuthenticatedIff | BrokerService/BrokerService.cpp:498-513 | the caller passes exactly when it has the SID of the account, the name resolves to that SID, and the password is right for the resolved name |
| BrokerSteps.HeldAfterAssertion | BrokerService/BrokerService.cpp:399-414 | verifying an assertion changes one counter, of the verified credential, exactly when it is saved, and succeeds exactly when the save is done |
| BrokerSteps.RemovalEffect | CppClient/CppClient/LocalCredentialStore.cpp:454-477 | a removal takes away the named credential of the named account and nothing else |
| BrokerSteps.ServedRecord | BrokerService/BrokerService.cpp:468-684 | how any request can make a credential appear, disappear or change |
| BrokerSteps.ServedPolicy | BrokerService/BrokerService.cpp:652-684 | the policy of an account changes only by its own elevated, password-checked request |
| BrokerSteps.DoneRemoveWithPassword | BrokerService/BrokerService.cpp:612-639 | an answered removal has removed the named credential, which was there |
| BrokerSteps.DoneFinishRemove | BrokerService/BrokerService.cpp:641-650 | an answered removal by key has removed the credential named by its session, which was there, on an assertion that verifies for a credential of the account |
| BrokerSteps.DoneSetsPolicy | BrokerService/BrokerService.cpp:652-684 | an answered policy change has set the flag of the account and nothing else of it |
| BrokerSteps.RegisteredAppends | BrokerService/BrokerService.cpp:534-575 | an answered registration has appended one credential with every field of the accepted ceremony, its counter included, and label and date of session and request; it keeps the policy, takes the resolved name, and reports the count, at most 64 |
| BrokerSteps.ChallengeIsOutstanding | BrokerService/BrokerService.cpp:377-397 | a challenge handed out is that of the session in the table and names all credentials of its account |
| BrokerSteps.OfferedIsChecked | BrokerService/BrokerService.cpp:441-610 | no session for a registration or removal exists without its own caller's password check, none for an authentication without the caller's right |
| BrokerSteps.ServedSessions | BrokerService/BrokerService.cpp:416-684 | a request touches the session table by at most one put or one take |
| BrokerRuns.LimitsAlwaysHold | BrokerService/BrokerService.cpp:341-361 | in every state of every run: at most 256 sessions, at most 32 of one caller, identifiers of 32 characters |
| BrokerRuns.UsedSession | BrokerService/BrokerService.cpp:363-375 | a used session was opened by one earlier step and has been there since; it is used within 120 s, for its own kind, by its creator or SYSTEM, and is gone afterwards |
| BrokerRuns.UsedAtMostOnce | BrokerService/BrokerService.cpp:363-375 | no session is used by two steps |
| BrokerRuns.RefusedUseConsumes | BrokerService/BrokerService.cpp:370-374 | a use that is refused consumes the session as well |
| BrokerRuns.AdditionIsAuthorized | BrokerService/BrokerService.cpp:498-575 | every credential that appears comes from a registration request by its own account with a valid password, less than 120 s earlier, and has the fields that an accepted ceremony over that request's challenge yields |
| BrokerRuns.KeyHasOrigin | BrokerService/BrokerService.cpp:498-575 | every credential held in a run was in its first vault or was registered like that, and its key has been the same since |
| BrokerRuns.OneRegistrationPerPassword | BrokerService/BrokerService.cpp:498-575 | no password check stands behind two registrations |
| BrokerRuns.RemovalIsAuthorized | BrokerService/BrokerService.cpp:577-650 | every credential that disappears does so by a password-checked request of its account that names it, directly or with a verified assertion of a credential of the account, unless the account is unmapped; then the whole account is gone before the request is served |
| BrokerRuns.PolicyIsAuthorized | BrokerService/BrokerService.cpp:652-684 | every change of an account's policy is its own elevated, password-checked request, unless the account is unmapped |
| BrokerRuns.EnforcedKeepsCredential | CppClient/CppClient/LocalCredentialStore.cpp:469-473 | in every state an enforced account has a credential, however many removals were under way |
| BrokerRuns.CountersNeverGoBack | CppClient/CppClient/FidoVerifier.cpp:228-233 | while a credential stays registered its counter is the last one stored and never decreases |
| BrokerRuns.StoredCountersIncrease | CppClient/CppClient/FidoVerifier.cpp:228-233 | counters stored by two steps increase strictly unless both are zero |
| BrokerRuns.TracksAcceptance | BrokerService/BrokerService.cpp:410-413 | which steps leave the stored counter at the last accepted one: those that do not store a new counter unanswered |
| BrokerRuns.StoredIsLastAccepted | BrokerService/BrokerService.cpp:399-414 | over any interval in which no counter is stored unanswered, the stored counter is that of the last accepted assertion |
| BrokerRuns.AuthenticationIsBacked | BrokerService/BrokerService.cpp:441-496 | an answered finish_auth goes back to a begin_auth or begin_test for that account, less than 120 s before, and to an assertion over its challenge that verifies for a credential of the account |
| BrokerDecisions.StatusIff | BrokerService/BrokerService.cpp:422-434 | status shows an account exactly to SYSTEM, elevated administrators and the account itself |
| BrokerDecisions.BeginAuthIff | BrokerService/BrokerService.cpp:441-466 | begin_auth waives or hands out a challenge exactly by caller, policy and room for a session |
| BrokerDecisions.BeginTestIff | BrokerService/BrokerService.cpp:478-496 | begin_test hands out a challenge exactly by caller, credentials and room |
| BrokerDecisions.CheckedLabelIff | BrokerService/BrokerService.cpp:80-87 | a label is taken exactly when it has at most 128 characters, none of them a control character, and an empty one stands for the default |
| BrokerDecisions.BeginRegistrationIff | BrokerService/BrokerService.cpp:498-532 | begin_registration hands out a challenge exactly for a right password, a fitting label, fewer than 64 credentials, room and a user handle |
| BrokerDecisions.BeginRemoveIff | BrokerService/BrokerService.cpp:577-610 | begin_remove hands out a challenge exactly for a right password, a credential that may go, and room |
| BrokerDecisions.RemoveWithPasswordIff | BrokerService/BrokerService.cpp:612-639 | remove_with_password is done exactly for a right password and a credential that may go |
| BrokerDecisions.SetEnforcementIff | BrokerService/BrokerService.cpp:652-684 | set_enforcement is done exactly for an elevated caller with the right password, an existing account, and, to enforce, a credential and no objection of the filter test |
| BrokerDecisions.FinishAuthIff | BrokerService/BrokerService.cpp:468-476 | finish_auth is done exactly for the caller's living session of this kind and an assertion that holds for a credential of the account |
| BrokerDecisions.FinishRemoveIff | BrokerService/BrokerService.cpp:641-650 | the same for finish_remove, when the credential named by the session may go |
| BrokerDecisions.CommitRegistrationIff | BrokerService/BrokerService.cpp:534-575 | commit_registration is done exactly for the caller's living session, a ceremony that holds, an unused identifier, fewer than 64 credentials and a key of at most 1024 octets, when the rest of the session fits |
| BrokerDecisions.FaultlessReply | BrokerService/BrokerService.cpp:416-430 | a request gets past its refresh exactly when every SID resolves and the refreshed vault is valid, and is then answered as above |
| BrokerInvariants.VaultInvariant | BrokerService/BrokerService.cpp:544-548 | from a fresh disk, every vault that ever loads is valid and no two credentials of any accounts stand for the same octets |
| BrokerInvariants.RegistrationAddsOne | BrokerService/BrokerService.cpp:544-571 | a registration adds exactly one identifier to the vault, which no account held |
| BrokerInvariants.RemovalTakesOne | CppClient/CppClient/LocalCredentialStore.cpp:454-477 | a removal takes exactly one identifier out of the vault |
| BrokerInvariants.AcceptedRegistrationIsStorable | BrokerService/BrokerService.cpp:544-572 | when account, name, label and date fit, the vault built from a verified registration is valid exactly when the public key has at most 1024 octets |
| BrokerInvariants.CheckedLabelFits | BrokerService/BrokerService.cpp:80-87 | a checked label always fits the vault |
| BrokerInvariants.BeginAuthIsDecided | BrokerService/BrokerService.cpp:441-453 | after a refresh begin_auth is never refused as inconsistent, and waives MFA exactly for the accounts that are not enforced |
| BrokerInvariants.EnforcingVaultTracksAcceptance | CppClient/CppClient/LocalCredentialStore.cpp:384-402 | while some account is enforced, an answered request stores exactly the counter that it accepts |
| BrokerInvariants.UntrackedIff | CppClient/CppClient/LocalCredentialStore.cpp:381-413 | for a request about to verify with a new counter: its saves can end with a stored counter that was not accepted exactly when no account is enforced or the process may crash |
| BrokerInvariants.EnforcingRunTracksAcceptance | BrokerService/BrokerService.cpp:399-414 | over any interval without a crash in which every working vault enforces some account, the stored counter is that of the last accepted assertion |
| KeptCounter.UnansweredCounterIsKept | CppClient/CppClient/LocalCredentialStore.cpp:381-413 | two concrete runs from a valid vault that leave an unaccepted counter: a refused request whose save could not be undone, and a crash with an enforcing vault |
| KeptCounter.KeptHasDiskStates | CppClient/CppClient/LocalCredentialStore.cpp:395-413 | for every vault that enforces nobody, the disk states of that refused save: rename done, registry write, copy of the backup and second registry write failed |
| KeptCounter.CrashHasDiskStates | CppClient/CppClient/LocalCredentialStore.cpp:381-394 | the disk states of that crash: policy published, rename done, nothing after |
| OversizedKey.OversizedKeyIsRefused | BrokerService/BrokerService.cpp:498-575 | a concrete run: a registration opened with the password, whose ceremony verifies with a key of 1025 octets, is refused whatever the fate of the save |
| CredentialTile.CCredential.Connect | CredentialProvider/core/CCredential.cpp:287-424 | the callback, with all cancellation points and failures, ends in the specified state and outcome, and asks the Broker exactly what the specification says |
| CredentialTile.CCredential.SetStringValue | CredentialProvider/core/CCredential.cpp:192-214 | the callback ends in the specified state and outcome |
| CredentialTile.CCredential.GetSerialization | CredentialProvider/core/CCredential.cpp:426-510 | what is handed over is what the specification says |
| CredentialTile.CCredential.ReportResult | CredentialProvider/core/CCredential.cpp:512-553 | the three branches end in the specified states |
| CredentialTile.CCredential.Retire | CredentialProvider/core/CCredential.cpp:145-150 | a retired tile is reset and stays retired |
| TileRuns.ConnectIff | CredentialProvider/core/CCredential.cpp:287-424 | exactly when a Connect succeeds, and exactly when it completes MFA: Broker and registry need no key, or the chosen key signs with the PIN of the tile and the Broker accepts, with no cancellation at any of the points passed |
| TileRuns.LogonIsAuthorized | CredentialProvider/core/CCredential.cpp:287-510 | a logon is handed over only for the account, the bound one, of a Connect whose challenge for that account the Broker accepted or that was told by Broker and registry that none is needed, with no report, reset, cancellation or change of name since |
| TileRuns.ChangeIsAuthorized | CredentialProvider/core/CCredential.cpp:456-552 | a password change is handed over only in its mode, with equal new passwords that are not empty, when the last report demanded it and found MFA completed for the same account |
| TileRuns.SetStringSets | CredentialProvider/core/CCredential.cpp:192-214 | a string is refused exactly on a retired tile, as the name of a bound one, or for an unknown field; it sets its own field and no other, except that a new name empties them all |
| TileRuns.ReportIff | CredentialProvider/core/CCredential.cpp:512-553 | for every pair of statuses: success empties the tile, a demand for a new password in either one turns MFA into the authorization of the change and keeps the passwords, anything else empties the tile and goes back to the password |
| TileRuns.ResetIsComplete | CredentialProvider/core/CCredential.cpp:555-565 | a reset tile is as it was initialized, with the name and without the password |
| TileRuns.PasswordHasOrigin | CredentialProvider/core/CCredential.cpp:192-214 | in every run a password that is not empty is the one set last, or the initial one, with nothing since that empties it |
| TileRuns.LastSetIsThere | CredentialProvider/core/CCredential.cpp:192-214 | conversely, what was set last and not emptied since is there |
| TileRuns.ChangeIsConfirmed | CredentialProvider/core/CCredential.cpp:456-478 | a change that is handed over carries the new password set last in the first field, which is also the one set last in the second, both since passwords were last emptied |
| TileRuns.ChangeIff | CredentialProvider/core/CCredential.cpp:456-478 | a change to a password is handed over exactly when the structure can be packed, the change is authorized in its mode, and both fields were last set to that password |
| TileRuns.PasswordIsLastSet | CredentialProvider/core/CCredential.cpp:426-510 | the password in a logon or a change is the last one set, or the initial one |
| TileRuns.MfaHasOrigin | CredentialProvider/core/CCredential.cpp:261-269 | completed MFA has one Connect behind it, for the same account, and nothing since that ends it |
| TileRuns.RetiredNeverFinishes | CredentialProvider/core/CCredential.cpp:145-150 | nothing is ever handed over after retirement |
| TileRuns.Play | CredentialProvider/core/CCredential.cpp:145-553 | a tile that is initialized and called back in any order goes through a run, and hands over what the run says |
| TileRuns.CancelledLeavesNothing | CredentialProvider/core/CCredential.cpp:290-298 | a Connect cancelled at any point leaves no authorization, challenge or password |
| TileRuns.ReportLeavesFlagIff | CredentialProvider/core/CCredential.cpp:512-553 | a report leaves the authorization of a change set outside its mode exactly when it is neither a success nor a demand and finds it set |
| TileRuns.FlagIsLeftIff | CredentialProvider/core/CCredential.cpp:145-553 | after any callback it is left exactly when a report leaves it, or it was left and the callback is none of the resets, cancellations and reports that take it back |
| TileRuns.LeftoverIff | CredentialProvider/core/CCredential.cpp:145-553 | in every state of every run it is left exactly when some report left it and no callback since has taken it back |
| TileRuns.LeftoverExample | CredentialProvider/core/CCredential.cpp:529-552 | a concrete run: a waived Connect, a demand, and a report of a wrong password |
| TileRuns.LeftoverIsUseless | CredentialProvider/core/CCredential.cpp:529-552 | over every run: outside its mode the flag hands over no change, and whenever a change may be handed over later, a report since then demanded it and found MFA complete for the same account |
| TileRuns.FailedConnectKeepsMfaIff | CredentialProvider/core/CCredential.cpp:300-346 | in every state of every run with MFA complete: a Connect fails and leaves it so exactly when it is not cancelled at first and a name or password is missing, or no challenge waits and the Broker cannot be asked or waives what the registry demands |
| TileRuns.FailedConnectKeepsAccount | CredentialProvider/core/CCredential.cpp:300-346 | MFA then stays complete for the same account |
| TileRuns.FailedConnectExample | CredentialProvider/core/CCredential.cpp:302-306 | a concrete run: a waived Connect, an erased password, and a Connect that fails |
| TileRuns.StaleMfaIff | CredentialProvider/core/CCredential.cpp:287-424 | for every Connect in every run: MFA is complete afterwards without this Connect having completed it exactly when it was complete before and the Connect fails without a reset or prompts for a PIN, and then for the same account |
| TileRuns.StaleLogonIff | CredentialProvider/core/CCredential.cpp:426-510 | the same for the logon that is handed over after the Connect |
| TileRuns.PromptHoldsBackIff | CredentialProvider/core/CCredential.cpp:379-387 | after a Connect that prompts for a PIN nothing is handed over exactly when MFA was not complete before |
| TileRuns.StaleAfterRefusalExample | CredentialProvider/core/CCredential.cpp:338-344 | a concrete run: a waived Connect, a refused one, and a logon |
| TileRuns.StaleBehindPromptExample | CredentialProvider/core/CCredential.cpp:379-387 | a concrete run: a waived Connect, one that prompts for a PIN, and a logon while the challenge waits |
| EndToEnd.LogonIsSigned | CredentialProvider/core/CCredential.cpp:287-510 | every logon goes back to a begin_auth for its account, the bound one: the vault left the account unenforced then, or a finish_auth less than 120 s later was answered for a signature over that challenge, with the user present and verified, by a key of the account that was in the first vault or was registered with the account's password |
| EndToEnd.EnforcedLogonIsSigned | BrokerService/BrokerService.cpp:441-496 | while every vault that a begin_auth for the account meets enforces it, every logon has such a signature |
| LogonPacking.PackedLogonTiles | CredentialProvider/helpers.cpp:275-335 | for accepted strings the size fits 32 bits, the three regions are disjoint, fill the buffer behind the header and hold the strings |
| LogonPacking.UnpackInvertsPack | CredentialProvider/helpers.cpp:683-711 | unpacking a packed structure passes the range check and gives back the three strings at their addresses |
| LogonPacking.UnpackIff | CredentialProvider/helpers.cpp:683-711 | for any structure: all three strings are moved, null ones excepted, when every one ends within the size in 64-bit sums, and otherwise nothing is |
| LogonPacking.OctetsAreLittleEndian | CredentialProvider/helpers.cpp:275-335 | every code unit of a packed string stands with its low octet first |
| LogonPacking.KerbInteractiveUnlockLogonPack | CredentialProvider/helpers.cpp:275-335 | the structure and buffer are filled as specified |
| LogonPacking.LogonBlock.KerbInteractiveUnlockLogonUnpackInPlace | CredentialProvider/helpers.cpp:683-711 | the offsets are rewritten in place as specified, or nothing is |
| LogonPacking.KerbChangePasswordPack | CredentialProvider/helpers.cpp:337-384 | the four strings and their descriptions are filled in as specified; Impersonating is not |
| LogonPacking.PackedChangeTiles | CredentialProvider/helpers.cpp:337-384 | the size fits 32 bits and the four regions are adjacent and fill the buffer |
| LogonPacking.PackedChangeReadsBack | CredentialProvider/helpers.cpp:357-372 | each offset of the request leads back to its string |
| TouchSelection.SelectByTouch | CppClient/CppClient/FIDODevice.cpp:118-200 | every return leaves nothing pending, every request that was started has ended exactly once, and the result is the one that the answers of devices, user and clock decide: the first touch in order of rounds and devices, a cancellation, the deadline, the error of the last device to fail, or of the last one tried when no request starts |
| TouchSelection.PollRound | CppClient/CppClient/FIDODevice.cpp:178-198 | one round of polling yields the first device that touches, or the last one to fail when none stays pending, or goes on with exactly the devices that still answer |
| TouchSelection.WaitForTouch | CppClient/CppClient/FIDODevice.cpp:169-200 | after quiet rounds only, the round in which the loop ends decides the result |
| TouchSelection.ResultIsUnique | CppClient/CppClient/FIDODevice.cpp:169-200 | no two results are possible for the same answers |
| TouchSelection.SelectedIsTouched | CppClient/CppClient/FIDODevice.cpp:189-198 | success names a device of the list that was opened, accepted the request and reported a touch in that round |

## Left out

Assumptions of the model:

- SIDs are strings without NUL, and case is folded as in the "C" locale; ConvertStringSidToSid and LookupAccountSid are parameters.
- Strings are sequences of code units: a label is its UTF-8 octets, names and passwords are UTF-16 units; conversions between the two are left out.
- Reading a file is a function of its content: a transient read error, which could make an older backup the previous vault, is not modelled.
- DPAPI, the JSON text of a vault and the 4 MiB bound on a file: a sealed vault decodes to itself.
- Completed writes are durable; a rename and the write of one registry value are atomic.
- Win32 error codes are kept where the code branches on them (loading); `Save` and the operations on the vault only tell success from failure.
- Account resolution in the tile is one fixed function that is idempotent on its canonical names.
- Hashing, signatures, attestation statements, CBOR and JSON decoding are a library passed as a parameter; a CBOR byte string is its octets, so indefinite-length strings are not told apart.
- One reading of the clock serves a whole request, and the clock may jump between requests in any way.
- A tile and the Broker are joined by the assumption that the random identifiers of sessions do not repeat within a run (`EndToEnd.NoIdTwice`).
- The random generator is a parameter; the identifier of a fresh machine, the challenge and the user handle are whatever it returns.

Not modelled:

- The pipe, overlapped I/O, message framing and the client side of the Broker protocol: a request is a parsed value with an authenticated caller.
- JSON errors before anything happened: a request with a missing or mistyped leading field is an unsupported one, as both are refused without effect.
- The texts of error messages and of prompts, field states, bitmaps and the strings that LogonUI displays.
- Zeroing of memory: secrets are modelled up to "the field is empty".
- The credential provider filter, provider enumeration, COM reference counting, the manager, the installer.
- Header octets of the packed structures: their fields are fields of a class, and only the string area is octets.
- The 32-bit variant of the unpacker and the packing through CredPackAuthenticationBuffer.
- BrokerProcess.BrokerService.Run: does not model the stop event or transport failures, because they only end or skip a request.
- EndToEnd.Wired: does not say which client sent a request, because the theorems hold whoever else does.
- BrokerRuns.IsRun: does not exclude requests after a failed start, because a run that has none of them is a run as well.
- TouchSelection.SelectByTouch: does not model waiting times inside a poll, because only the time between rounds decides termination.
