# ggid: a verified model of the identity platform's cores

The repository is an identity and access platform: Go services and libraries under `pkg/` and `sdk/go`, and a
TypeScript console. This project models the parts of it whose correctness cannot be read off one function body and
proves what they promise, for every input and every run:

- **SAML enveloped signatures** (`Search`, `SamlSignature`, `SamlVerifier`, `SamlRestoration`, `SamlMarshalling`,
  `SamlTexts`, `SamlPlacement`, `SamlDocuments`, `SamlAcceptance`, `SamlBinding`, `SamlSoundness`): the identity provider
  splices a Signature into an assertion by substring search; the service provider finds it again by substring search,
  cuts it out, re-hashes the rest and re-reads the signed bytes.
- **Concurrent protocols as step relations over all interleavings**: the refresh single-flight of the Go SDK
  (`RefreshSingleFlight`), the batching SIEM forwarder (`SiemForwarder`, `SiemLaws`), the LDAP connection pool
  (`LdapPool`, `LdapPoolLaws`).
- **The schema migration engine** (`Migrations`, `MigrationNames`, `MigrationRuns`, `MigrationLaws`) with a failure
  possible at any point.
- **Printers and parsers that must invert each other**: Argon2id hash strings (`Password`, `PasswordLaws`), base64url
  and PKCE (`Base64`, `Pkce`), envelope encryption (`Envelope`, `EnvelopeLaws`), record encryption (`Records`,
  `RecordLaws`), SQL literals (`SqlNumber`, `SqlLiteral`).
- **Authorization** (`Permissions`, `Routes`, `ConsolePermissions`, `LdapRoles`): the scope order, the permission check
  in Go and its second implementation in the console, the first-match route table, the built-in roles.
- **Device posture** (`Versions`, `Posture`), **the expiring token blocklist** against one that never forgets
  (`JtiBlocklist`), and **right-to-left splicing** against simultaneous substitution (`Splice`).

`dafny verify dfyconfig.toml` checks everything.

## How the model is built

Code that computes a value from expressions is a function; code with loops or fields is a method or a class whose
postcondition ties it to such a function, and the laws are lemmas about the function. Concurrent components are state
machines: a step is one critical section or one outside event, a run is any sequence of enabled steps, and the critical
sections themselves are also written as methods of a class.

Cryptography, JSON and XML decoding, the database, Redis, LDAP, HTTP, clocks and random sources are parameters:
function values, or a choice of outcome for each call. What is assumed of them is written out in the predicates
`SamlVerifier.KeyPair` (what the private key signed the public key accepts, and no signature is empty),
`SamlBinding.CollisionFree` and `SamlBinding.SignsOnly` (no two texts share a digest; only signatures over an issued
assertion's SignedInfo verify), `Password.Sound` (Argon2 yields as many
bytes as asked), `PasswordLaws.NoCollision` (HMAC and Argon2 keep the two passwords in question apart), `Envelope.Gcm.Sound` (opening inverts sealing, and a sealed text is 16 bytes longer),
`Envelope.Primitives.Sound` (also: SHA-256 yields 32 bytes; JSON decoding inverts encoding of an envelope and the
encoding is at least as long as the ciphertext field) and `Records.Provider.Sound`, which `RecordLaws.EnvelopeIsSound`
proves of the envelope provider. Go strings are sequences of characters or of bytes; `int` wraps at 64 bits where that
can show (`Int64`).

## Where the expected property fails

The code was modelled as it is. In these places a natural reading of the promise is false; each has a concrete witness
and the exact condition under which the promise holds.

| what one would expect | witness | when it holds |
|---|---|---|
| accepted content is the content that was signed | `SamlBinding.BareInfoPasses`, `SamlBinding.BareInfoStatesOther` | `SamlBinding.AcceptedWasSignedIff`: iff the decoded digest is the one that the SignedInfo found in the text states (for the SHA-256 method that the issuer writes) |
| VerifyPassword accepts what HashPassword printed | `Password.WideParallelismIsRefused` | `Password.HashVerifies`, `Password.ConfiguredHashVerifies`: iff parallelism is at most 255 |
| MigrateDown(n) removes the n largest recorded versions | `MigrationLaws.MissingDownScriptIsSkipped` | `MigrationLaws.DownRemovesLargestIff`: iff nothing is recorded, or the greatest recorded version is not zero and the recorded versions are the newest of those with a down script |
| DecryptRecord undoes EncryptRecord | `RecordLaws.DoubleRegistrationBreaks` | `RecordLaws.RestoredIff`: when no key of the record and no registered column begins with the marker prefix, iff every encrypted field is a text in a column registered once |
| every route rule can decide a request | `Routes.ExportRuleNeverDecides` | `Routes.DeadRuleIff`: a rule decides nothing iff one earlier rule of its method covers it |
| the console and the server agree on permissions | `ConsolePermissions.InheritedNameDiffers`, `ConsolePermissions.WitnessDiffers` | `ConsolePermissions.AgreeAtIff`: exactly when, for each permission and requirement; `ConsolePermissions.AgreeIff`: on all requirements without an inherited name as scope iff the permission is regular |
| a device that passes everything scores 100 | `Posture.HugeWeightScoresZero` | `Posture.FullMarksIff`: iff a hundred times the (positive) total weight fits in 64 bits |
| a revoked token is reported until it expires | `JtiBlocklist.EarlierExpiryForgetsEarly` | `JtiBlocklist.ReportedIff`: iff its name is not empty, the expiry recorded last is positive, and no sweep at or after that expiry has followed the record |
| an exported value can be read back | `SqlLiteral.TimeIsNoLiteral`, `SqlLiteral.BytesAreNoLiteral` | `SqlLiteral.LiteralRoundTrip`: iff it is a null, text, boolean, integer or finite floating-point number, or what `%v` prints for it is a literal |

Where comments and code disagree the model follows the code: CheckRoutePermission's comment says a request without a
rule is allowed by default, the code refuses it (pkg/rbac/route_permissions.go:131-142); CleanupExpired's comment says
it removes scores below the current time, the range it passes includes the current time
(pkg/auth/jti_blocklist.go:106-113); canonicalize's comment says it trims whitespace, it returns its input
(pkg/saml/idp.go:324-330).

## Model

| member | source | states |
|---|---|---|
| `Search.IndexOf` | pkg/saml/idp.go:390-397 | the least offset where the pattern stands, -1 exactly when it stands nowhere |
| `Search.IndexOfFrom` | pkg/saml/idp.go:399-406 | the least such offset not below the given one |
| `Search.LastIndexOf` | pkg/saml/idp.go:408-415 | the greatest offset where the pattern stands, -1 exactly when it stands nowhere |
| `SamlSignature.InjectionIsRecoverable` | pkg/saml/idp.go:349-365 | the injected assertion ends at the last closing Response tag of the result whatever it contains, so assertion and response can both be read back |
| `SamlTexts.NothingInjected` | pkg/saml/idp.go:349-365 | a response without a closing tag, in either spelling, is left as it is |
| `SamlSignature.InsertionPointMeaning` | pkg/saml/idp.go:368-388 | the splice point is the end of the last closing Issuer tag, the prefixed spelling first, else the end of the first tag; there is none iff there is no tag |
| `SamlSignature.EndOfInfo` | pkg/saml/idp.go:247-255 | the first closing SignedInfo tag in the emitted text is the last one, unless the ID holds one: no match straddles template, ID and digest |
| `SamlSignature.EndOfElement` | pkg/saml/idp.go:271-275 | the same for the closing Signature tag in the whole element, among its look-alikes |
| `SamlTexts.SignedInfoText` | pkg/saml/idp.go:247-255 | the emitted SignedInfo is the fixed text, line by line, with the ID and the digest in their places |
| `SamlTexts.SignatureText` | pkg/saml/idp.go:271-275 | the emitted Signature element is the fixed text around SignedInfo, signature and certificate |
| `SamlTexts.SignedText` | pkg/saml/idp.go:240-280 | signing yields the assertion with, after a line break at the splice point, that element around the signed SignedInfo, whose digest is the hash of the assertion; the assertion itself if it has no splice point |
| `SamlTexts.SigningFailsIff` | pkg/saml/idp.go:258-263 | signing fails iff the key does not sign the hash of that SignedInfo |
| `SamlTexts.IDMeaning` | pkg/saml/idp.go:333-346 | the ID is what stands between the first `ID="` and the next quote, empty without either |
| `SamlTexts.StripMeaning` | pkg/saml/signed_assertion.go:236-267 | the prefixed spelling is cut from its first opening tag, if a delimiter follows it, to the next closing one, with one line break before it; else the plain spelling; else nothing |
| `SamlTexts.ExtractMeaning` | pkg/saml/signed_assertion.go:177-196 | SignedInfo is read from its first opening tag to the next closing one, the prefixed spelling first at either end; nothing is read without either |
| `SamlVerifier.StripRestores` | pkg/saml/signed_assertion.go:236-267 | for every assertion whose text before the splice point opens no Signature, cutting the emitted signature gives the original back byte for byte, if and only if the ID does not hold the closing tag |
| `SamlVerifier.ExtractsSignedBytes` | pkg/saml/signed_assertion.go:177-196 | the re-extracted SignedInfo is exactly the bytes that were signed, if and only if the ID does not hold its closing tag |
| `SamlVerifier.VerifierAccepts` | pkg/saml/signed_assertion.go:272-315 | reference, digest and signature checks all accept what signAssertion emitted, for every clean assertion and every key pair |
| `SamlAcceptance.SignedIsAccepted` | pkg/saml/signed_assertion.go:382-429 | all steps together accept a clean signed assertion exactly when the time check does, whatever decoder reads the emitted texts back and finds the Signature among the root's children; what a pass means is `SamlSoundness.PassIff` |
| `SamlMarshalling.MarshalledIsRestored` | pkg/saml/idp.go:168-224 | for every assertion the identity provider marshals, with any values, further attributes and later fields: the cut restores it byte for byte and the signed bytes are read again |
| `SamlMarshalling.IDIsRead` | pkg/saml/idp.go:333-346 | the ID found in a marshalled assertion is its escaped ID |
| `SamlMarshalling.ValueReadsBack` | pkg/saml/idp.go:213-217 | a reader that replaces references gets every marshalled value back, with the replacement character for what XML does not allow |
| `SamlMarshalling.SplicedAfterIssuer` | pkg/saml/idp.go:368-388 | the splice point of a marshalled assertion is the end of its Issuer element |
| `SamlAcceptance.MarshalledIsAccepted` | pkg/saml/signed_assertion.go:382-429 | all steps accept every marshalled and signed assertion exactly when the time check does, with no hypothesis on its text; what a pass means is `SamlSoundness.PassIff` |
| `SamlSoundness.PassIff` | pkg/saml/signed_assertion.go:382-429 | on every document, a pass says exactly: a certificate, a text that decodes, a Signature with a value whose reference is empty or names the assertion, whose decoded digest is that of the content and whose decoded signature verifies over the SignedInfo in the text, the first Signature one level below the first Assertion, and the time conditions |
| `SamlSoundness.PassEstablishes` | pkg/saml/signed_assertion.go:382-429 | the same, without the placement, for every token stream |
| `SamlSoundness.PassWasIssued` | pkg/saml/signed_assertion.go:382-429 | with a collision-free hash and a key that signs for the issuer only, a text that passes contains the SignedInfo of an issued assertion, and is that assertion without its signature iff the decoded digest is the one stated there |
| `SamlSoundness.StepsIff` | pkg/saml/signed_assertion.go:407-421 | reference, digest and signature steps accept iff the reference is empty or `#` and the ID, the digest by the named algorithm is that of the content, and the key verifies the signature by the named method |
| `SamlSoundness.DigestNames` | pkg/saml/signed_assertion.go:199-210 | the three digest algorithms and no others, each by its literal name |
| `SamlSoundness.MethodNames` | pkg/saml/signed_assertion.go:213-229 | the six signature methods and no others, each by its literal name |
| `SamlSoundness.RsaMethodIff` | pkg/saml/signed_assertion.go:296-306 | with an RSA key exactly the three methods of the RSA family are left |
| `SamlBinding.AcceptedWasSignedIff` | pkg/saml/signed_assertion.go:272-315 | every accepted text contains the SignedInfo of an assertion that was issued, and its content without the signature is that assertion iff the decoded digest is the one this SignedInfo states |
| `SamlBinding.StatedInInfo` | pkg/saml/idp.go:247-255 | the digest that an emitted SignedInfo states is the one it was made with, whatever the ID |
| `SamlBinding.EmittedStatesDigest` | pkg/saml/idp.go:241-280 | what the identity provider emits meets that condition |
| `SamlBinding.BareInfoPasses` | pkg/saml/signed_assertion.go:177-196 | the SignedInfo of a signed assertion, taken as a text by itself, passes the digest and signature steps |
| `SamlBinding.BareInfoStatesOther` | pkg/saml/signed_assertion.go:272-283 | that text is not the assertion, and the digest compared for it is not the stated one |
| `SamlRestoration.RestoredIff` | pkg/saml/signed_assertion.go:236-267 | for every assertion with a tag to splice behind that is not directly followed by a Signature: restored byte for byte iff no Signature opens before the splice point and the ID does not hold the closing tag |
| `SamlRestoration.TaglessIsUnchanged` | pkg/saml/idp.go:379-387 | a text without a tag gets no signature and comes back unchanged |
| `SamlVerifier.EarlierSignatureBreaks` | pkg/saml/signed_assertion.go:242-264 | a text that opens a Signature element before its closing Issuer tag is never restored, whatever follows that tag; the only caller of signAssertion passes marshalled text, which never does |
| `SamlVerifier.HostileIdBreaks` | pkg/saml/idp.go:333-346 | an unescaped text whose ID holds a closing Signature tag is not restored; the only caller of signAssertion passes marshalled text, whose ID is escaped |
| `SamlPlacement.ValidateSignaturePlacement` | pkg/saml/signed_assertion.go:321-350 | the depth-counting loop computes the verdict that the laws below are about, for every token stream, nested or not |
| `SamlPlacement.AcceptsExactlyDirectChildren` | pkg/saml/signed_assertion.go:321-350 | on every tree rooted at an Assertion: accepted iff the first Signature in document order is a child of the root; a deeper one and none at all are told apart |
| `SamlDocuments.AcceptedByOrder` | pkg/saml/signed_assertion.go:321-350 | on every document, whatever its root: accepted iff the first Assertion opens before the first Signature and exactly one level above it |
| `SamlDocuments.EveryDocument` | pkg/saml/signed_assertion.go:321-350 | the exact verdict on every document by where the first Signature stands: before, inside or after the first Assertion |
| `SamlDocuments.AcceptedChildIff` | pkg/saml/signed_assertion.go:317-343 | on every accepted document the first Signature is a child of the first Assertion iff that Assertion holds a Signature |
| `SamlPlacement.CousinIsAccepted` | pkg/saml/signed_assertion.go:336-343 | an accepted document whose Assertion holds none; its root is not an Assertion, so the only caller, which has unmarshalled one by then, never passes it |
| `ConstantTime.ConstantTimeEqual` | pkg/crypto/crypto.go:234-243 | or-ing up xors answers true exactly on equal byte strings |
| `RefreshSingleFlight.Client.TryLead` | sdk/go/client.go:488-509 | leads exactly when no refresh is in flight; result and error fields untouched |
| `RefreshSingleFlight.Client.Finish` | sdk/go/client.go:519-546 | clears the flag and records the outcome; a failure keeps the old tokens beside the new error |
| `RefreshSingleFlight.Client.Poll` | sdk/go/client.go:495-504 | nothing while in flight, else the recorded outcome, error first |
| `RefreshSingleFlight.Await` | sdk/go/client.go:493-506 | the outcome at the first of a hundred polls that finds no refresh in flight, a timeout if none does |
| `RefreshSingleFlight.AtMostOneInFlight` | sdk/go/client.go:488-547 | in every interleaving at most one call is between taking and clearing the flag |
| `RefreshSingleFlight.WaitersReturnLatest` | sdk/go/client.go:488-547 | a waiter that does not time out returns the outcome completed last before its return, and that completed after it entered; never an old success after a later failure; when it times out is the next row |
| `RefreshSingleFlight.JoinedReturnsAwaited` | sdk/go/client.go:489-507 | in every interleaving a waiter times out iff it made exactly a hundred polls and each found a refresh in flight; otherwise it returns what `Await` returns on the states it saw |
| `RefreshSingleFlight.PollReturnsLast` | sdk/go/client.go:495-504 | in every reachable state a poll that finds no refresh in flight returns the outcome completed last, as `Client.Poll` does; any other poll is only counted |
| `RefreshSingleFlight.EntersAsLeaderIff` | sdk/go/client.go:489-509 | in every reachable state a call that enters leads iff no other call does |
| `RefreshSingleFlight.LeadersReturnTheirs` | sdk/go/client.go:519-547 | in every run a leader returns the outcome of its own request |
| `RefreshSingleFlight.NoNilTokens` | sdk/go/client.go:497-503 | nobody gets a missing token set without an error |
| `SiemForwarder.Forwarder.constructor` | pkg/audit/siem_forwarder.go:68-89 | an empty buffer; batch size and retries are at least one, 100 and 3 by default |
| `SiemForwarder.Forwarder.Append` | pkg/audit/siem_forwarder.go:107-136 | the event goes last; a flush is due exactly when the buffer has reached the batch size |
| `SiemForwarder.Forwarder.TakeBatch` | pkg/audit/siem_forwarder.go:194-202 | batch and new buffer together are the old buffer, and the new buffer is empty |
| `SiemForwarder.Forwarder.Deliver` | pkg/audit/siem_forwarder.go:204-223 | sent at the first successful attempt, dropped iff formatting or every one of MaxRetries attempts fails |
| `SiemForwarder.NothingLost` | pkg/audit/siem_forwarder.go:107-223 | in every run of Forward, timer, triggered and final flushes, the batches in order and then the buffer are the forwarded events in order |
| `SiemForwarder.OneTriggeredFlush` | pkg/audit/siem_forwarder.go:116-136 | at most one flush started by a full buffer is past the semaphore |
| `SiemForwarder.AttemptsBounded` | pkg/audit/siem_forwarder.go:204-223 | no batch is tried more than MaxRetries times; a dropped one was unformattable or used them all; what its status says of its attempts is `SiemLaws.StatusIff` |
| `SiemLaws.StatusIff` | pkg/audit/siem_forwarder.go:204-223 | in every run a batch is sent at attempt n iff n - 1 attempts failed and then one succeeded, dropped at once iff it could not be formatted, dropped after MaxRetries attempts iff all of them failed, and still being sent otherwise |
| `SiemLaws.SettledAsDelivered` | pkg/audit/siem_forwarder.go:204-223 | a settled batch has the status that `Deliver` returns on what the run gave it |
| `SiemForwarder.DeliveredUnique` | pkg/audit/siem_forwarder.go:204-223 | what `Deliver` promises determines the status |
| `SiemLaws.ForwardTriggers` | pkg/audit/siem_forwarder.go:107-118 | Forward starts a flush iff the buffer has reached the batch size |
| `SiemLaws.AdmittedIff` | pkg/audit/siem_forwarder.go:127-133 | in every reachable state a triggered flush is admitted iff no other one is past the semaphore, and ends otherwise |
| `SiemLaws.FlushTakesAll` | pkg/audit/siem_forwarder.go:194-202 | a flush takes the whole buffer as one batch, nothing of an empty one |
| `SiemLaws.LastTickIsLast` | pkg/audit/siem_forwarder.go:167-178 | after its final flush the timer loop never flushes again |
| `SiemLaws.LoopAfterTick` | pkg/audit/siem_forwarder.go:167-178 | the loop ends after the final flush and after no other |
| `SiemLaws.SettlingFreesSemaphore` | pkg/audit/siem_forwarder.go:119-126 | a triggered flush that is done frees the semaphore |
| `SiemForwarder.FinalStays` | pkg/audit/siem_forwarder.go:194-223 | a batch keeps its events for ever, and once sent or dropped stays so |
| `SiemForwarder.AllSettled` | pkg/audit/siem_forwarder.go:163-191 | with the buffer empty and no flush running, every forwarded event is in a sent or dropped batch |
| `LdapPool.Provider.constructor` | pkg/authprovider/ldap.go:61-84 | the pool starts empty with a positive size, five by default |
| `LdapPool.Provider.DialConn` | pkg/authprovider/ldap.go:218-241 | a connection whose StartTLS fails is closed, never returned |
| `LdapPool.Provider.GetConn` | pkg/authprovider/ldap.go:191-202 | one pooled connection is taken; a closing one is closed and replaced by a dial |
| `LdapPool.Provider.PutConn` | pkg/authprovider/ldap.go:205-215 | pooled iff healthy, not closing and there is room; closed otherwise |
| `LdapPool.Provider.Close` | pkg/authprovider/ldap.go:264-275 | the pool ends empty, and exactly what was in it is closed |
| `LdapPool.ExactlyOnePlace` | pkg/authprovider/ldap.go:93-215 | in every run of concurrent Authenticate and Close calls, on all error paths, each dialled connection is pooled once, held by one call, or closed, and the pool keeps to its size |
| `LdapPoolLaws.DoomedIff` | pkg/authprovider/ldap.go:93-275 | in every run a connection is closed or about to be iff TLS failed on it, it was found closing, its bind or search failed, the pool had no room for it, or Close took it out; such a one is not in the pool |
| `LdapPoolLaws.SettledIff` | pkg/authprovider/ldap.go:93-275 | once every call has returned, closed iff one of these happened, and pooled iff dialled and none did |
| `LdapPoolLaws.BrokenIsClosed` | pkg/authprovider/ldap.go:104-114 | a connection whose service bind or search failed is never pooled again, and closed once its call has returned |
| `LdapPoolLaws.GetRuns` | pkg/authprovider/ldap.go:191-202 | the steps of getting a connection that nothing interrupts have the effect of the method GetConn |
| `LdapPoolLaws.ReleaseRuns` | pkg/authprovider/ldap.go:205-215 | a release step has the effect of the method PutConn |
| `LdapPoolLaws.AfterServing` | pkg/authprovider/ldap.go:110-124 | a second connection is asked for iff a user was found; otherwise the call only releases what it holds |
| `LdapPoolLaws.AfterBinding` | pkg/authprovider/ldap.go:122-138 | the user's bind takes place iff the second dial connected, and afterwards both connections are released |
| `LdapPool.CloseLeavesNothingOpen` | pkg/authprovider/ldap.go:264-275 | in every run, when a Close call returns and every other call has returned, every connection ever dialled is closed |
| `LdapPool.CloseRuns` | pkg/authprovider/ldap.go:264-275 | the steps of a Close call that nothing interrupts have the effect of the method Close |
| `LdapRoles.MapGroupsToRoles` | pkg/authprovider/ldap.go:372-395 | the roles of the mappings that are first to apply for their role, in the mappings' order |
| `LdapRoles.RolesMeaning` | pkg/authprovider/ldap.go:384-394 | a role is given iff some mapping for it matches some group, and then once |
| `LdapRoles.OneIsAList` | pkg/authprovider/ldap.go:374-382 | a single group counts as a list of one, a missing attribute as none |
| `LdapRoles.MemberHasRole` | pkg/authprovider/ldap.go:372-395 | a member of one group has exactly the roles of the mappings that fold with it, and keeps them among other groups |
| `Migrations.LoadMigrations` | pkg/db/migrate.go:68-126 | strictly increasing versions, and exactly the migrations of the grouped files, whatever order the table is walked in |
| `Migrations.ParseNamed` | pkg/db/migrate.go:76-103 | a file named `0001_name.up.sql` or `.down.sql` is read as its number, name and direction, for every number below 2^63 with or without zeros in front |
| `MigrationNames.CountsIff` | pkg/db/migrate.go:76-103 | an entry counts iff it is a file with one of the two suffixes and an underscore before it |
| `MigrationNames.ParseFile` | pkg/db/migrate.go:84-100 | the part before the first underscore is read as the version, the rest up to the suffix is the name |
| `MigrationNames.VersionOfText` | pkg/db/migrate.go:91-91 | the version is the number after spaces and a sign up to the first other character; zero when there is none or it does not fit in 64 bits |
| `MigrationNames.NameIsOfFirst` | pkg/db/migrate.go:105-109 | a version has the name of the first file that names it |
| `Migrations.GroupMeaning` | pkg/db/migrate.go:74-115 | a version is loaded iff some file names it, with the last file of each direction or none |
| `Migrations.LoadedUnique` | pkg/db/migrate.go:117-125 | map iteration order does not show in the result |
| `MigrationRuns.Current` | pkg/db/migrate.go:57-64 | the greatest recorded version, zero when there is none |
| `MigrationRuns.Database.ApplyOne` | pkg/db/migrate.go:154-172 | a version is recorded iff reading, script and insert all succeed; the script has run even when only the insert fails |
| `MigrationRuns.Database.RevertOne` | pkg/db/migrate.go:216-231 | the same for removing a record |
| `MigrationRuns.Database.MigrateUp` | pkg/db/migrate.go:130-177 | wherever it fails, the newly recorded versions are a prefix of the pending ones and the scripts run exceed them by at most one |
| `MigrationRuns.Database.MigrateDown` | pkg/db/migrate.go:181-236 | the same downwards from the newest, over at most the given number of versions |
| `MigrationRuns.UpMoves` | pkg/db/migrate.go:145-174 | every turn of the loop keeps currentVersion equal to the greatest recorded version |
| `MigrationLaws.PendingIncreases` | pkg/db/migrate.go:145-152 | pending migrations run in increasing order |
| `MigrationLaws.UpRecords` | pkg/db/migrate.go:130-177 | a success records every loaded version above the current one that has an up script, and nothing else |
| `MigrationLaws.UpIsIdempotent` | pkg/db/migrate.go:130-177 | after a success the same files leave nothing pending |
| `MigrationLaws.DownRemoves` | pkg/db/migrate.go:181-236 | which records a failure-free MigrateDown removes, for any recorded set and any number of steps |
| `MigrationLaws.DownRemovesLargestIff` | pkg/db/migrate.go:181-236 | for any recorded set, MigrateDown(n) removes the n largest versions for every n iff it is empty, or its greatest version is not zero and its versions are the newest ones that can be rolled back |
| `MigrationLaws.MissingDownScriptIsSkipped` | pkg/db/migrate.go:212-214 | with 1 and 2 recorded and no down file for 2, one step down removes version 1 |
| `MigrationLaws.TrackedDown` | pkg/db/migrate.go:181-236 | when exactly the loaded versions up to the current one are recorded, n > 0 removes the n largest and 0 removes all, iff there are none or the greatest is not zero |
| `MigrationLaws.DownThenUp` | pkg/db/migrate.go:130-236 | rolling back any number of steps and migrating up again records every loaded version, except that from an emptied table only versions above zero come back |
| `MigrationLaws.FailedThenClean` | pkg/db/migrate.go:130-177 | a run that failed anywhere and then a clean one leave the table of one clean run, and execute its scripts in its order with at most one of them twice |
| `MigrationLaws.ZeroStays` | pkg/db/migrate.go:186-192 | a table whose greatest version is zero is never touched |
| `Password.SplitLastLoop` | pkg/crypto/crypto.go:245-252 | the downward loop computes the split that the next row is about |
| `Password.SplitLastMeaning` | pkg/crypto/crypto.go:245-252 | two parts around the separator, none in the second; the whole string iff there is no separator |
| `Password.ScanOfPrinted` | pkg/crypto/crypto.go:107-145 | the scanner reads the printed iterations, memory, parallelism and word back, and fails iff the parallelism exceeds a byte |
| `Password.VerifyOfPrinted` | pkg/crypto/crypto.go:129-170 | for any password and pepper, the answer is whether the two derived keys are equal; what they are derived from is `PasswordLaws.ComparesKeys` |
| `Password.HashVerifies` | pkg/crypto/crypto.go:107-170 | the password that was hashed is accepted iff the parallelism is at most 255; otherwise the hash counts as malformed; other passwords are `PasswordLaws.AcceptedIffSame` |
| `PasswordLaws.HashText` | pkg/crypto/crypto.go:107-126 | the stored text is the parameters, the salt and 32 bytes of Argon2id over the password, or over its HMAC if there is a pepper |
| `PasswordLaws.HashSucceedsIff` | pkg/crypto/crypto.go:107-126 | hashing succeeds iff there is a salt and Argon2id has an iteration and a lane to run; it fails iff there is no salt |
| `PasswordLaws.ComparesKeys` | pkg/crypto/crypto.go:89-170 | for any two passwords, verification compares their Argon2id keys, taken over their HMACs under a pepper and over themselves without one |
| `PasswordLaws.AcceptedIffSame` | pkg/crypto/crypto.go:89-170 | a password is accepted iff it is the one that was hashed, unless HMAC or Argon2id maps the two to the same bytes |
| `PasswordLaws.BcryptCompares` | pkg/crypto/crypto.go:133-136 | a text that begins with `$2a$`, `$2b$` or `$2y$` is compared by bcrypt with the peppered password, without an error |
| `PasswordLaws.BcryptOnlyThere` | pkg/crypto/crypto.go:133-136 | on no other text does bcrypt matter |
| `PasswordLaws.ForeignIsRefused` | pkg/crypto/crypto.go:142-146 | any other text that does not begin with `argon2id$` is refused |
| `PasswordLaws.BadWordIsRefused` | pkg/crypto/crypto.go:148-164 | so is one whose last field has no dot, or no base64 on either side of the last one |
| `PasswordLaws.ConfiguredParams` | pkg/crypto/crypto.go:39-57 | an environment value of at least the minimum is taken, any other leaves 2 iterations, 19456 KiB or one lane |
| `Password.WideParallelismIsRefused` | pkg/crypto/crypto.go:107-170 | with parallelism 257 a hash is printed and then refused |
| `Password.ConfiguredHashVerifies` | pkg/crypto/crypto.go:39-57 | the same for every setting of the three environment variables, after their wrap to 32 bits |
| `Base64.RoundTrip` | console/src/lib/oauth-pkce.ts:6-19 | a decoder of section 5 of RFC 4648 inverts the encoding on every byte sequence |
| `Base64.Injective` | console/src/lib/oauth-pkce.ts:6-19 | different bytes have different encodings |
| `Base64.Shape` | console/src/lib/oauth-pkce.ts:6-19 | n bytes give floor((4n+2)/3) characters, all of the alphabet |
| `Base64.CharIsInAlphabet` | console/src/lib/oauth-pkce.ts:7-7 | the character of each six-bit value is the one at its place in the 64-character table |
| `Base64.GoRoundTrip` | pkg/crypto/crypto.go:107-170 | what Go's padded and raw standard encodings write, their decoders read back |
| `Base64.RawDecodesIff` | pkg/crypto/crypto.go:156-164 | unpadded text is accepted iff, line breaks aside, its characters are the alphabet's and none is left over alone |
| `Base64.PaddedDecodesIff` | pkg/saml/signed_assertion.go:155-163 | padded text is accepted iff, line breaks aside, it is whole groups of four: characters of the alphabet, then at most two pads |
| `Base64.BreaksDoNotCount` | pkg/saml/signed_assertion.go:155-163 | a line break anywhere changes nothing |
| `Pkce.Base64UrlEncode` | console/src/lib/oauth-pkce.ts:6-19 | the three-byte loop with trailing pads cut computes unpadded base64url |
| `Pkce.GenerateCodeVerifier` | console/src/lib/oauth-pkce.ts:22-26 | 43 unreserved characters of section 4.1 of RFC 7636, from which the 32 random bytes can be recovered |
| `Envelope.OpenSeal` | pkg/crypto/crypto.go:173-217 | decryption splits nonce from ciphertext where encryption joined them |
| `Envelope.DataRoundTrip` | pkg/crypto/sm4.go:15-68 | for AES and SM4 alike, decryption under the same cipher name and key inverts encryption |
| `Envelope.FieldRoundTrip` | pkg/crypto/data_key_provider.go:100-176 | EncryptField succeeds iff its three random reads do, and DecryptField, which looks at no cipher setting, gives the plaintext back |
| `EnvelopeLaws.AesFieldLayout` | pkg/crypto/data_key_provider.go:100-136 | with any cipher name but SM4's: nonce and AES under the hash of the data key; the data key behind its nonce under the hash of the key-encryption key; both in base64 in one encoded envelope with name and time |
| `EnvelopeLaws.Sm4FieldLayout` | pkg/crypto/sm4.go:15-68 | with SM4: the same, under the data key itself if it has sixteen bytes, else under the first sixteen of its hash |
| `EnvelopeLaws.WrongKekIsRefused` | pkg/crypto/data_key_provider.go:139-176 | another key-encryption key, under which AES does not open the data key, does not decrypt the field |
| `EnvelopeLaws.OpensByName` | pkg/crypto/data_key_provider.go:160-176 | the cipher that opens a field is the one its envelope names |
| `EnvelopeLaws.MalformedIsRefused` | pkg/crypto/data_key_provider.go:139-176 | what is no base64, no envelope or too short for a nonce is refused |
| `Envelope.Wipe` | pkg/crypto/data_key_provider.go:119-122 | the working key is all zero afterwards |
| `Envelope.EnvelopeEncryptionProvider.constructor` | pkg/crypto/data_key_provider.go:53-58 | the key-encryption key is the hash of the material, the cipher AES |
| `Envelope.EnvelopeEncryptionProvider.WithSM4` | pkg/crypto/data_key_provider.go:61-64 | switches the cipher of this provider and nothing else |
| `Envelope.EnvelopeEncryptionProvider.GenerateDataKey` | pkg/crypto/data_key_provider.go:67-88 | the wrapped key unwraps to the key that was drawn |
| `Envelope.EnvelopeEncryptionProvider.EncryptField` | pkg/crypto/data_key_provider.go:100-136 | the field as specified; the data key is wiped on success and still in memory after an error |
| `Envelope.EnvelopeEncryptionProvider.DecryptField` | pkg/crypto/data_key_provider.go:139-176 | the field as specified; the data key is wiped on every path |
| `Records.FieldEncryptionService.constructor` | pkg/crypto/field_encryption.go:29-34 | no tenant has a registered column |
| `Records.FieldEncryptionService.RegisterField` | pkg/crypto/field_encryption.go:37-44 | appended for its tenant, ignored without one; other tenants unchanged |
| `Records.FieldEncryptionService.RemoveField` | pkg/crypto/field_encryption.go:57-67 | the first configuration with this id goes, the others and their order stay |
| `Records.FieldEncryptionService.ShouldEncrypt` | pkg/crypto/field_encryption.go:70-79 | true iff the column is registered for the table |
| `Records.RemoveUndoesRegister` | pkg/crypto/field_encryption.go:37-67 | removing a field registered under a new id restores the registry |
| `Records.FieldEncryptionService.EncryptRecord` | pkg/crypto/field_encryption.go:83-119 | the record and error of the specified pass, also when a provider call fails part-way; a no-op without a provider; what the pass encrypts is stated by the `RecordLaws` rows |
| `Records.FieldEncryptionService.DecryptRecord` | pkg/crypto/field_encryption.go:122-146 | the record of the specified pass for whatever order the map is visited in |
| `RecordLaws.DecryptTakesOffLastLayer` | pkg/crypto/field_encryption.go:83-146 | for every registry, visiting order and stopping point, decryption takes off exactly the last layer of each column |
| `RecordLaws.RecordRoundTrip` | pkg/crypto/field_encryption.go:83-146 | with no column registered twice, string and nil records come back exactly and other values as their JSON text, also after an encryption that stopped with an error |
| `RecordLaws.RestoredIff` | pkg/crypto/field_encryption.go:83-146 | when no key and no registered column begins with the marker prefix, then after an encryption without error the record comes back iff every field that was encrypted is a text in a column registered once |
| `RecordLaws.UnregisteredUntouched` | pkg/crypto/field_encryption.go:89-96 | a column that ShouldEncrypt denies is never changed |
| `RecordLaws.RegisteredIsMarked` | pkg/crypto/field_encryption.go:111-117 | after an encryption without error every registered text, boolean and marshalled value is marked as encrypted, under the literal prefix |
| `RecordLaws.RegisteredIsEncrypted` | pkg/crypto/field_encryption.go:97-117 | registered once, it holds what the provider made for this tenant of the text, of `true` or `false`, or of the marshalled value, and so decrypts to that |
| `RecordLaws.LeftOutIsKept` | pkg/crypto/field_encryption.go:89-110 | a nil, a value that cannot be marshalled and an unregistered column are neither changed nor marked |
| `RecordLaws.ErrorIsProviders` | pkg/crypto/field_encryption.go:111-114 | an error is one that the provider reported for this tenant |
| `RecordLaws.DecryptByField` | pkg/crypto/field_encryption.go:122-146 | on any record whose markers mark no markers, in any order: a marked text that can be decrypted is replaced and loses its marker, every other field and marker stays |
| `RecordLaws.EnvelopeIsSound` | pkg/crypto/data_key_provider.go:100-176 | the envelope provider meets the assumptions of these laws, even if its cipher changes between calls |
| `RecordLaws.DoubleRegistrationBreaks` | pkg/crypto/field_encryption.go:43-43 | a column registered twice is not restored |
| `Permissions.ScopeCoversIsTotalPreorder` | pkg/rbac/permissions.go:41-55 | covering is reflexive, total and transitive on all scopes, known or not |
| `Permissions.ScopeChain` | pkg/rbac/permissions.go:41-55 | all, tenant, department, own and any unknown scope cover each other strictly in this order |
| `Permissions.CheckPermission` | pkg/rbac/permissions.go:59-83 | the early-exit loop answers whether some permission of the list grants the requirement |
| `Permissions.HasPermissionIsMonotone` | pkg/rbac/permissions.go:59-83 | added keys, another order and a narrower required scope never lose a permission |
| `Permissions.KeyGrants` | pkg/rbac/permissions.go:67-80 | a key of three parts grants exactly its resource and action, at its scope and what that covers |
| `Permissions.ShortKeyGrants` | pkg/rbac/permissions.go:72-77 | a key of two parts counts as tenant-wide, one without a colon grants nothing |
| `Permissions.AdminHasAll` | pkg/rbac/permissions.go:61-66 | `platform:admin` grants everything |
| `Permissions.DefaultRolePermissionKeys` | pkg/rbac/permissions.go:292-316 | for any permission table, the map holds exactly the four roles' keys, in table order, and no entry for a role without any |
| `Permissions.RoleEntries` | pkg/rbac/permissions.go:292-316 | which keys stand under `platform:admin`, `tenant:admin`, `tenant:auditor` and `user:self`, by the level, action and scope of the table |
| `Permissions.RoleHierarchy` | pkg/rbac/permissions.go:292-316 | auditor keys are a subsequence of the tenant administrator's, these of the platform administrator's |
| `Routes.CheckMeaning` | pkg/rbac/route_permissions.go:132-143 | matched iff some rule is the first to match; allowed iff that rule's permission is held |
| `Routes.MatchIff` | pkg/rbac/route_permissions.go:19-34 | pattern and path match iff they have as many segments, each the same as the other's or in braces |
| `Routes.SlashesDoNotCount` | pkg/rbac/route_permissions.go:19-34 | slashes at either end of a pattern or a path change nothing |
| `Routes.CheckIsMonotone` | pkg/rbac/route_permissions.go:132-143 | more permissions match the same rule and never lose access |
| `Routes.HigherRolesMayMore` | pkg/rbac/route_permissions.go:132-143 | for every permission and route table, what a lower role may request the higher ones may |
| `Routes.CoversIff` | pkg/rbac/route_permissions.go:19-34 | one pattern matches every path another matches iff it does so segment by segment |
| `Routes.DeadRuleIff` | pkg/rbac/route_permissions.go:132-143 | a rule decides no request at all iff a single earlier rule of its method covers it |
| `Routes.ExportRuleNeverDecides` | pkg/rbac/route_permissions.go:40-48 | the rule for exporting users stands behind the one for a single user and is never reached |
| `ConsolePermissions.ConsoleByPermission` | console/src/lib/api.ts:398-415 | the console's chain of tests is a test of each permission by itself, with the names its scope table inherits from the object prototype |
| `ConsolePermissions.ConsoleIff` | console/src/lib/api.ts:398-415 | an administrator of either kind may do everything, anyone else what some permission grants |
| `ConsolePermissions.AgreeAtIff` | console/src/lib/api.ts:398-415 | for every permission and every well-formed requirement, exactly when console and server answer alike, by their parts |
| `ConsolePermissions.AgreeIff` | console/src/lib/api.ts:398-415 | for one permission, console and server agree on every requirement whose scope is no inherited name iff it is regular |
| `ConsolePermissions.AgreeEverywhereIff` | console/src/lib/api.ts:407-411 | on all requirements they agree only for `platform:admin` and for keys without a colon |
| `ConsolePermissions.InheritedNameDiffers` | console/src/lib/api.ts:407-411 | with `users:read:all` the server allows the scope `constructor` and the console refuses it |
| `ConsolePermissions.WitnessDiffers` | console/src/lib/api.ts:400-412 | for every other permission, a requirement on which exactly one of them says yes |
| `ConsolePermissions.ConsoleMatchesServer` | console/src/lib/api.ts:398-415 | a user without an administrator role and with regular permissions gets the same answer from both for every scope that is no inherited name |
| `Versions.ParseVersionParts` | pkg/posture/engine.go:257-270 | one number per dot-separated field, the value of its digits kept in 64 bits |
| `Versions.VersionMeaning` | pkg/posture/engine.go:257-270 | each field counts as the number its digits spell, every other character in it is passed over |
| `Versions.PrintedVersionRoundTrip` | pkg/posture/engine.go:257-270 | decimal numbers printed between dots are parsed back into the same numbers |
| `Versions.Compare` | pkg/posture/engine.go:231-255 | the loop computes the comparison that the laws below are about |
| `Versions.CompareMeaning` | pkg/posture/engine.go:239-254 | the sign of the first difference, missing parts counting as zero |
| `Versions.CompareAntisymmetric` | pkg/posture/engine.go:231-255 | swapping the versions changes the sign |
| `Versions.CompareTransitive` | pkg/posture/engine.go:231-255 | transitive, and strict iff one of the two steps is |
| `Versions.CompareZeroIff` | pkg/posture/engine.go:231-255 | zero iff the parsed parts agree up to trailing zeros |
| `Posture.Engine.constructor` | pkg/posture/engine.go:82-87 | every tenant starts with the default policy |
| `Posture.Engine.SetPolicy` | pkg/posture/engine.go:116-121 | sets the tenant's policy, under the tenant's own id, and no other tenant's |
| `Posture.Engine.Evaluate` | pkg/posture/engine.go:134-180 | score, compliance, action and check results of the tenant's policy |
| `Posture.Tally` | pkg/posture/engine.go:141-160 | the loop's wrapped sums are the wrapped total and earned weight, and the required checks are all met or not |
| `Posture.ScoreIsPercentage` | pkg/posture/engine.go:162-167 | with weights that are not negative and small enough, the score is the integer percentage earned |
| `Posture.ScoreIsMonotone` | pkg/posture/engine.go:134-180 | then it lies between 0 and 100 and a device at least as good on everything has no lower one |
| `Posture.ComplianceIsMonotone` | pkg/posture/engine.go:169-170 | nor does such a device lose compliance |
| `Posture.BetterPasses` | pkg/posture/engine.go:183-228 | every single check that a device passes a better one passes |
| `Posture.CheckMeaning` | pkg/posture/engine.go:183-228 | what each named check asks for, and that a check of any other name asks for nothing |
| `Posture.DefaultIsReasonable` | pkg/posture/engine.go:58-72 | the default policy is one the laws hold for; its weights sum to 100 |
| `Posture.DefaultScore` | pkg/posture/engine.go:58-72 | under the default policy the score is 15, 25, 30, 10, 10 and 10 for version 13.0, encryption, no jailbreak, screen lock, enrolment and certificate |
| `Posture.DefaultCompliantIff` | pkg/posture/engine.go:58-72 | under it a device is compliant iff it is encrypted, not jailbroken and has a valid certificate, and meets at least one of the other three checks; any other is blocked |
| `Posture.FullMarksIff` | pkg/posture/engine.go:162-167 | a device that passes everything scores 100 iff a hundred times the positive total weight fits in 64 bits |
| `Posture.HugeWeightScoresZero` | pkg/posture/engine.go:164-164 | a passing device scored zero for a weight of 2^62 |
| `JtiBlocklist.JTIBlocklist.constructor` | pkg/auth/jti_blocklist.go:27-33 | nothing is recorded |
| `JtiBlocklist.JTIBlocklist.Revoke` | pkg/auth/jti_blocklist.go:58-67 | one record more in the history if the command took effect; an error iff the reply is missing |
| `JtiBlocklist.JTIBlocklist.RevokeAll` | pkg/auth/jti_blocklist.go:70-83 | the records of those commands of the pipeline that took effect, in order |
| `JtiBlocklist.JTIBlocklist.IsRevoked` | pkg/auth/jti_blocklist.go:89-104 | revoked when Redis does not answer; else what the history says |
| `JtiBlocklist.JTIBlocklist.CleanupExpired` | pkg/auth/jti_blocklist.go:108-114 | one sweep more in the history if the command took effect |
| `JtiBlocklist.ReplayMeaning` | pkg/auth/jti_blocklist.go:58-114 | after any history the set holds exactly the tokens not swept since their last record, with that record's expiry |
| `JtiBlocklist.ReportedIff` | pkg/auth/jti_blocklist.go:58-114 | reported iff the name is not empty, the expiry recorded last is positive, and no sweep at or after it followed the record |
| `JtiBlocklist.AgreesIff` | pkg/auth/jti_blocklist.go:58-114 | same answer as a list that never deletes, unless that one reports a token that a sweep at or after its last recorded expiry has forgotten |
| `JtiBlocklist.AgreesUntilExpiry` | pkg/auth/jti_blocklist.go:58-114 | same answer for every token whose last recorded expiry is in the future of a clock that never ran back |
| `JtiBlocklist.NeverFalselyReported` | pkg/auth/jti_blocklist.go:89-104 | a token never revoked is never reported |
| `JtiBlocklist.EarlierExpiryForgetsEarly` | pkg/auth/jti_blocklist.go:62-63 | revoking again with an earlier expiry makes the list forget the token before its first expiry |
| `Splice.Rewrite` | apply_i18n_big1.js:217-220 | the loop's text is the simultaneous substitution of all edits, for edits that neither overlap nor start together |
| `Splice.SpliceAllIsSubstitution` | apply_i18n_big1.js:217-220 | the same for the specified sequence of splices |
| `Splice.NonemptyDisjoint` | apply_i18n_big1.js:159-215 | ranges of syntax nodes, which are not empty, meet that condition as soon as they do not overlap |
| `Splice.SpliceIff` | apply_i18n_big1.js:217-220 | for given ranges, splicing is substituting for every choice of texts iff no two ranges overlap or start together |
| `Splice.OrderDoesNotMatter` | apply_i18n_big1.js:159-215 | the order in which the edits were collected does not show |
| `Splice.SortIsStable` | apply_i18n_big1.js:217-217 | edits that start together are spliced in the order they were collected |
| `Splice.ClashShows` | apply_i18n_big1.js:217-220 | otherwise, with texts longer than what they replace, the spliced text is always longer than the substituted one |
| `SqlNumber.ReadsPrinted` | pkg/db/backup.go:254-255 | a floating-point number, printed with or without fraction and exponent, reads back as the same number |
| `SqlLiteral.LiteralRoundTrip` | pkg/db/backup.go:243-257 | for every value, a reader of standard SQL gets back from its literal exactly what it means: itself for nulls, texts, booleans, integers and finite floating-point numbers, for others what the printed text means if it is a literal |
| `SqlLiteral.TimeIsNoLiteral` | pkg/db/backup.go:254-255 | a value printed as digits and a dash, as times are, has no literal |
| `SqlLiteral.BytesAreNoLiteral` | pkg/db/backup.go:254-255 | nor has one printed in brackets, as byte slices are |
| `SqlLiteral.ListRoundTrip` | pkg/db/backup.go:222-223 | the VALUES list reads back as what the row's values mean, in order, even if a text holds the separator or a parenthesis |
| `SqlLiteral.ListInjective` | pkg/db/backup.go:222-223 | rows that mean something different have different VALUES lists |
| `SqlLiteral.RowLists` | pkg/db/backup.go:215-223 | the n-th literal reads back as the n-th column's value, in whatever order the row is visited |
| `SqlLiteral.MakePlaceholders` | pkg/db/backup.go:231-240 | one placeholder per column; with none, a panic unless the driver is PostgreSQL's |

## Left out

- Real cryptography, XML and JSON decoding, PostgreSQL, Redis, LDAP, NATS and HTTP: parameters or nondeterministic outcomes, see above.
- The token list of a document is what XML decoding yields; stream errors of the decoder are one kind of token. That a decoder finds the emitted Signature among the children of the root is a hypothesis of `SamlAcceptance.SignedIsAccepted` and `SamlAcceptance.MarshalledIsAccepted`.
- SamlVerifier.EarlierSignatureBreaks: asks for a delimiter after the earlier tag name; `SamlRestoration.RestoredIff` does not.
- SamlRestoration.RestoredIff: leaves out texts whose splice point is directly followed by a line break and `<ds:Signature`; there the outcome depends on whether that text equals the emitted element, and so on the hash. Marshalled assertions are covered by `SamlMarshalling.MarshalledIsRestored`.
- SamlSoundness.PassEstablishes: says nothing of the placement; for the token streams of documents `SamlSoundness.PassIff` does, and a decoder yields no other.
- SamlBinding.AcceptedWasSignedIff: says when the content is what was signed only for the SHA-256 digest method, the one the issuer writes; for the others it says that the signed SignedInfo was issued. It assumes ideal cryptography.
- ExtractAssertionFromResponse, metadata and the remaining SAML bindings: not inverses of what is modelled, or independent field checks.
- LdapPool: the mutex that Close takes is not modelled, since no other operation takes it; each receive from and send to the pool channel is one step.
- SiemForwarder: a panicking flush and its recovery, back-off times between attempts.
- RefreshSingleFlight: the request that the leader sends; its outcome is chosen by the environment.
- MigrationRuns: errors before the loop (creating the table, reading the version, listing the directory), after which nothing has run or been recorded.
- Password: white space outside ASCII in Sscanf, bcrypt's own comparison (a parameter), and the test-only fast parameters.
- Envelope: Go's in-place reuse of the nonce buffer as destination of the seal.
- Records: RemoveField shifts the slice in place, so a slice obtained earlier from ListFields changes under its holder; the model has values. CreatedAt and Classification are not modelled.
- Permissions: the built-in permission and route tables are parameters, apart from the two rules that `Routes.ExportRuleNeverDecides` is about; names and descriptions are left out, as is the synchronisation to the database.
- ConsolePermissions: where the console gets its permissions and roles from; how two inherited properties compare is a parameter, since it depends on the engine's source text of built-in functions.
- Posture: the detail texts of check results, storing of results and GetLatestScore.
- Posture.ScoreIsMonotone: asks for weights that are not negative and whose sum, times a hundred, fits in 64 bits; a negative weight rewards a failed check.
- JtiBlocklist: scores as floating-point numbers (exact for times below 2^53 seconds) and the ticker that starts the sweeps.
- Splice: how edits are found in the syntax tree.
- SqlLiteral: which digits the shortest form of a floating-point number has (any digits are allowed); how `%v` prints the remaining kinds of value (any text is allowed); MySQL's backslash escapes; identifiers and the surrounding statement.
- User interface, service worker, social connectors, key-management and hardware providers, TLS loaders, device-management adapters, system configuration, trust store and SCEP: input and output, thin wrappers, or easy members.
