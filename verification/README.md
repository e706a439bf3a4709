# Verified model of the Orion secure-SSO protocols

This project models the cryptographic protocols of a privacy-preserving single sign-on system and proves
properties of them. The parties are an identity provider (IdP), relying parties (RP), a broker that
relays between them, and the browser-side trusted agent (TCA).

| area | files | main results |
|---|---|---|
| token-refresh double ratchet | `RatchetKeys`, `IdPRefresh`, `RPRefresh`, `BrokerRefresh`, `RatchetRuns`, `RefreshSystem` | `MessageKeysNeverRepeat`, `MessageKeysAreNotState`, `ExactLoss`, `Lockstep`, `NewHeaderHeals`, `UnheardEpochIsFinal`, `EveryTokenArrives`, `PersistedOnlyGrows`, `MatchedIffDurable`, `RefusedIffExhausted` |
| anonymous credentials | `Field`, `MultiExp`, `PSSig`, `NIZK`, `AnonCred`, `Registration` | `RandomizedIffOriginal`, `BindsIff`, `BrowserAgreesWithServer`, `ProofVerifiesIffOpening`, `BlindIssuanceRoundTrip`, `RegisterToIdP`, `TwoShowingsYieldCredential`, `TranscriptFitsEveryOpening` |
| login | `LoginProof`, `SessionKey` | `ProofPassesIffCredentials`, `TwoProofsYieldWitness`, `SessionKeysAgree`, `PseudonymIsStable`, `PseudonymsSeparateUsers` |
| consent state machine of the IdP | `Consent` | `ConsentBehindRecord`, `OneRecordPerConsent`, `RedemptionSucceedsIff`, `SessionKeyKept`, `RecordsWereAdded`, `RecordsBalance` |
| arithmetic and hashing engine of the browser | `ScalarMul`, `Inversion`, `HashMD`, `Hkdf` | `WNAF`, `Multiply`, `GenInvertBatch`, `Invert`, `HashInPieces`, `EqualStatesCollide`, `Expand`, `OkmNext`, `Derive` |
| PIN-bound authorization record | `AuthRecord` | `KeyIgnoresBlinding`, `RequestFitsEveryPin`, `RecordRoundTrip`, `RecordCrossesSessions` |

`dafny verify dfyconfig.toml` checks everything.

## How the system is modelled

**Ratchet keys** are terms of a free algebra: a root key, a chain key and a message key are constructor
applications, Diffie-Hellman commutes, and a ciphertext holds its key, payload and associated data. Two
derived keys are therefore equal only if they are derived alike. The chain-key KDF's fallback to an all-zero
key is in the model as a constructor of its own, and is proved never to be entered by the IdP. Fresh key
pairs, the outcome of validating a refresh token and minting an access token, and how far a reply travels
are inputs of each step. Runs are arbitrary sequences of such steps, for one RP and one process lifetime.

**Group elements** of G1, G2, Gt and ristretto255 are exponents modulo `Field.Q`, an arbitrary prime; the
pairing is multiplication. Every check of the code is then an equation modulo a prime, and the loops over
attribute vectors are loops here too. The hash functions of the proofs are constants without a definition, so
the results hold for every choice of them. Random values are arguments.

**The engine** runs on byte arrays with a compression function left open, and on points of any abelian
group.

**Objects** whose methods change fields in the source are classes; each method is proved against a
specification function, and the properties of whole runs are proved about that function.

## What the code does where its text suggests otherwise

- `SetSecretX` leaves the public key's `Xhat` alone although `SetSecretY` updates its half: a matched key pair
  stays matched iff `x` does not change (`PSSecretKey.SetSecretX`).
- The RP only logs a failure to persist its refresh keys. The pool's documentation promises keys that stay
  consistent with what the broker stored; that holds for the next start iff no key was drawn or saving worked
  (`MatchedIffDurable`, with a failing start in `UnsavedPoolIsLost`).
- The scalar check accepts the group order itself, although its message says "< CURVE.r"
  (`ProjectivePoint.ValidateScalar`).
- The browser's `PSVerify` throws on zero scalars and points at infinity where the server answers; the exact
  set is `PSSig.BrowserThrows`.
- A multi-exponent proof made for a commitment that does not open as claimed is accepted when the challenge
  happens to be zero, and only then (`ProofVerifiesIffOpening`).
- The pair of identity points satisfies the signature equation on every attribute vector, and no check excludes
  it (`IdentityPairPasses`). A signature binds its attribute exactly when sigma1 and y are not zero (`BindsIff`,
  `OneDomainPerSignature`).
- A signature on the wire that is shorter than one point, or an empty one to be unblinded, makes the RP panic
  instead of returning an error (`RPServer.GetCredential`).
- An authorization record returns its fields only when they are nonempty, without colons and ASCII: it is
  written as UTF-8 and read with a one-byte decoding (`RecordRoundTrip`).
- The blinding scalar is drawn from a range that includes zero; K_m is then independent of the PIN's point
  (`BlindingCancels`).

## Model

| member | source | states |
|---|---|---|
| `RatchetKeys.DHCommutes` | lib/utils.go:43-52 | both ends of a DH step compute the same shared key from their own secret and the other's public key |
| `RatchetKeys.DHSeparates` | lib/utils.go:43-52 | a shared key is that of one pair of key pairs only |
| `RatchetKeys.RootStepSeparates` | IdP/refresh.go:146-151 | both keys of a DH step depend on the old root key and the shared key, and no root key is a chain key |
| `RatchetKeys.SymmetricStepSeparates` | IdP/refresh.go:155-167 | both keys of a symmetric step depend on the chain key, and the message key is neither a chain key nor a root key |
| `RatchetKeys.OpensIff` | RP/refresh.go:123-128 | a ciphertext opens to a payload iff that payload was sealed under this key and associated data |
| `RatchetKeys.AdvanceInjective` | IdP/refresh.go:146-167 | chain keys that are the same number of steps from the same root are the only equal ones |
| `IdPRefresh.RefreshTokenHelper.constructor` | IdP/refresh.go:49-56 | a new helper is unseeded, has no keys and a fresh DH pair |
| `IdPRefresh.RefreshTokenHelper.HandleBrokerRequest` | IdP/refresh.go:60-132 | new state and reply for every request: the error order, seeding once, the DH step exactly on a new header, the symmetric step before the token is validated, the reply sealed under the message key with header and sequence number as associated data |
| `IdPRefresh.OneCall` | IdP/refresh.go:77-98 | every call keeps the key schedule well formed; it moves forward exactly when the request is well formed, and the KDF is never entered without a chain key |
| `IdPRefresh.RunsAreWellFormed` | IdP/refresh.go:60-132 | every state a run of arbitrary calls reaches has a well-formed key schedule |
| `IdPRefresh.EveryCallKeepsSchedule` | IdP/refresh.go:77-98 | in every run every call finds a well-formed schedule, moves it forward iff it gets as far as the ratchet, and then enters the KDF with a chain key |
| `IdPRefresh.ScheduleMovesForward` | IdP/refresh.go:87-98 | after a call that ratchets, the schedule never returns to an earlier position |
| `IdPRefresh.MessageKeysNeverRepeat` | IdP/refresh.go:60-132 | over every run, no two replies are sealed under the same key and none under the zero-key fallback |
| `IdPRefresh.MessageKeysAreNotState` | IdP/refresh.go:97-98 | over every run no reply is sealed under a key the IdP holds as chain key or root key at any time, or was seeded with |
| `IdPRefresh.ReplyWrittenOut` | IdP/refresh.go:77-131 | when a reply is made and what is in it: the IdP's present header, the minted token with its lifetime, the message key of the chain key just left behind, header and sequence number as associated data; how root key, chain key and DH pair move |
| `RPRefresh.KeyStorage.LoadRefreshKeys` | RP/persist.go:212-230 | the persisted keys in order, or none at all if some entry does not decode |
| `RPRefresh.KeyStorage.SaveRefreshKeys` | RP/persist.go:193-209 | overwrites the persisted keys, unless the list is empty or saving fails |
| `RPRefresh.RefreshTokenHelper.constructor` | RP/refresh.go:46-76 | the pool is the persisted prefix topped up with fresh keys to exactly the pool size, also when storage does not decode; storage afterwards |
| `RPRefresh.PoolWrittenOut` | RP/refresh.go:46-70 | the pool's size, 64 by default, and each of its keys |
| `RPRefresh.RefreshTokenHelper.PublicKeys` | RP/refresh.go:79-87 | the public keys of the pool, in order |
| `RPRefresh.RefreshTokenHelper.DecryptResponse` | RP/refresh.go:91-138 | new state and result for every response: error order, the DH step exactly on a new header, the state moved on before decryption is attempted |
| `RPRefresh.RecoveredIff` | RP/refresh.go:91-138 | a token is recovered iff it is sealed, not empty, under the message key of the chain key just left behind and bound to the RP's own prekey; how the keys move |
| `RPRefresh.PersistedOnlyGrows` | RP/refresh.go:46-76 | across any restarts with any pool sizes the persisted list only grows by a suffix |
| `RPRefresh.StoredPrekeysStayMatched` | RP/persist.go:193-230 | each public key the broker stored matches the RP's key at that index in every later run of the RP, if no key was drawn or saving worked |
| `RPRefresh.MatchedIffDurable` | RP/refresh.go:58-74 | the next pool agrees whatever its size and draws iff this start drew no key or could save |
| `RPRefresh.UnsavedPoolIsLost` | RP/refresh.go:58-74 | a start for which it fails: one key is drawn, saving fails, and the next start holds another key at that index |
| `BrokerRefresh.RefreshTokenHelper.InitForRP` | Broker/refresh.go:37-47 | registration resets this RP's position to 0 with the given prekeys, and no other RP's |
| `BrokerRefresh.RefreshTokenHelper.EnsureState` | Broker/refresh.go:51-63 | creates a position from the prekeys only when there is none |
| `BrokerRefresh.RefreshTokenHelper.RefreshWithIdP` | Broker/refresh.go:67-109 | what is sent to the IdP, if anything, and the position, which moves only on an answer; a registration that arrives during the request wins over the answer |
| `BrokerRefresh.RefreshWrittenOut` | Broker/refresh.go:77-106 | when a refresh is sent, with which prekey, and the whole state an answer leaves, the IdP's header included |
| `BrokerRefresh.OneRefresh` | Broker/refresh.go:87-106 | one refresh moves the position by one iff it is relayed and answered |
| `BrokerRefresh.PositionCountsSuccesses` | Broker/refresh.go:51-109 | after any calls the position is the number of successes and never passes the number of prekeys |
| `BrokerRefresh.RefusedIffExhausted` | Broker/refresh.go:87-89 | after N successes every call is refused before the IdP is contacted; before that none is, and the next prekey is sent |
| `RatchetRuns.AgreementAfterReply` | RP/refresh.go:111-118 | after a delivered reply: header agreement, root keys equal iff every epoch was heard, chain keys equal iff besides nothing of this epoch was lost |
| `RatchetRuns.RunTracks` | IdP/refresh.go:87-103 | over every lossy run, both key schedules as functions of the counts of epochs, steps and receipts |
| `RatchetRuns.ExactLoss` | RP/refresh.go:91-138 | root keys agree after a delivered reply iff the RP received at least one reply of every IdP epoch so far; the minted token is recovered iff besides no earlier step of its epoch was lost; otherwise an error is reported, never another token |
| `RatchetRuns.Lockstep` | IdP/refresh.go:60-132 | if all replies so far were received, root key, chain key and header agree and the RP recovers exactly the minted token, for any sequence of headers |
| `RatchetRuns.NewHeaderHeals` | RP/refresh.go:111-118 | losses inside earlier epochs do not matter to the reply that opens a new one |
| `RatchetRuns.UnheardEpochIsFinal` | RP/refresh.go:111-128 | once a reply is delivered while some epoch went unheard, root keys differ after every later delivered reply and no token is recovered again |
| `RefreshSystem.BrokerSends` | Broker/refresh.go:87-97 | the broker sends the prekey at its position and refuses once they are used up |
| `RefreshSystem.RelayedStep` | Broker/refresh.go:67-109 | a relayed refresh of the three parties is one event of the ratchet, with that event's outcome |
| `RefreshSystem.RunsAreRatchetRuns` | Broker/refresh.go:37-109 | every run of RP, broker and IdP, with re-registrations at any time, is a run of the ratchet |
| `RefreshSystem.PositionSinceRegistration` | Broker/refresh.go:37-47 | without losses the position counts the refreshes since the last registration |
| `RefreshSystem.EveryTokenArrives` | Broker/refresh.go:67-109 | without losses every refresh yields exactly the token minted for it until the prekeys registered last are used up, and is refused from then on |
| `Field.InvWorks` | RP/aaka.go:100-113 | the scalar inverse the unblinding uses is a multiplicative inverse of every nonzero scalar |
| `MultiExp.HonestResponsesAccepted` | lib/NIZK.go:105-146 | completeness of the response equation for any number of bases and any challenge |
| `MultiExp.ExtractedOpens` | lib/NIZK.go:149-173 | two accepting responses to different challenges open the commitment, for any number of bases |
| `MultiExp.ExtractionRecoversWitness` | lib/NIZK.go:128-141 | from honest responses the extraction returns exactly the prover's witness |
| `MultiExp.OneMaskPerResponse` | lib/NIZK.go:128-141 | whatever the witness, every tuple of responses comes from exactly one randomness |
| `MultiExp.TranscriptFitsEveryOpening` | lib/NIZK.go:105-146 | of two openings of one commitment each yields every transcript of the other, from exactly one randomness of its own |
| `PSSig.PSSecretKey.SetSecretX` | lib/PSSig.go:39-45 | x and X are replaced; a matched pair stays matched iff x is unchanged |
| `PSSig.PSSecretKey.SetSecretY` | lib/PSSig.go:49-67 | the y's and both public vectors are replaced, which matches the pair again |
| `PSSig.PSKeyGen` | lib/PSSig.go:83-113 | the generated pair is matched, for any number of attributes |
| `PSSig.PSSign` | lib/PSSig.go:116-136 | the signature is (r g, r (x + sum A_i y_i) g) for the drawn r |
| `PSSig.PSVerify` | lib/PSSig.go:139-158 | accepts iff a signature and a long enough key are given and the pairing equation holds for the key plus the attributes' combination |
| `PSSig.SignedVerifies` | lib/PSSig.go:116-158 | signatures under a key are exactly what its public half verifies |
| `PSSig.RandomizeSig` | lib/PSSig.go:162-192 | the randomized pair (k sigma1, k (sigma2 + t sigma1)), or the error for a missing signature |
| `PSSig.VerifyRandomizedSig` | lib/PSSig.go:196-215 | accepts iff the pairing equation holds with t added to the key |
| `PSSig.RandomizedIffOriginal` | lib/PSSig.go:162-215 | for nonzero k the randomized signature passes with its t iff the original verifies |
| `PSSig.RandomizedVerifies` | lib/PSSig.go:162-215 | a valid signature passes after randomization by any k and t |
| `PSSig.ValidOnBoth` | lib/PSSig.go:139-158 | a signature valid on A is valid on another vector iff both have the same combination of the y, or sigma1 is the identity |
| `PSSig.BindsIff` | lib/PSSig.go:139-158 | a signature is valid on one attribute only iff neither sigma1 nor y is zero |
| `PSSig.BrowserAgreesWithServer` | tca/cryptolib.js:148-160 | the browser's check throws exactly when a text does not decode or on the listed inputs, and otherwise accepts iff the server's randomized check does |
| `NIZK.ProveMultiExp` | lib/NIZK.go:105-146 | the proof values for the given randomness, and both error cases |
| `NIZK.ProofWrittenOut` | lib/NIZK.go:117-141 | announcement, challenge and every response of a proof: all random values enter, and bases, commitment and announcement are hashed |
| `NIZK.VerifyMultiExp` | lib/NIZK.go:149-173 | accepts iff the responses open announcement plus challenge times commitment; both error cases |
| `NIZK.VerifiesIff` | lib/NIZK.go:156-172 | acceptance as one equation under the hash of bases, commitment and announcement |
| `NIZK.ProofVerifiesIffOpening` | lib/NIZK.go:105-173 | a proof passes iff the commitment is alpha g + sum beta_i Y_i, or the challenge is zero |
| `NIZK.TwoTranscriptsOpen` | lib/NIZK.go:149-173 | two accepting transcripts with equal C1, R1 and different challenges determine alpha and betas with C1 = alpha g + sum beta_i Y_i |
| `AnonCred.PrepareBlindSign` | lib/anonyCred.go:15-43 | a commitment to the hidden attributes under the blinding factor, with its proof; both error cases |
| `AnonCred.RequestWrittenOut` | lib/anonyCred.go:15-43 | the commitment is blinded by d, and every value of its proof by the proof's randomness |
| `AnonCred.CommitmentFitsEveryAttributes` | lib/anonyCred.go:28-35 | the commitment fits every other tuple of hidden attributes, with exactly one blinding factor |
| `AnonCred.BlindSign` | lib/anonyCred.go:47-85 | signs exactly the requests whose proof verifies; the signature is r g and r times key, commitment and public attributes, for the drawn r; the error order |
| `AnonCred.Unblind` | lib/anonyCred.go:89-103 | sigma1 stays, d sigma1 is taken out of sigma2; missing inputs are reported |
| `AnonCred.SplitAttributes` | lib/anonyCred.go:68-79 | public and hidden sums make up the sum over the whole attribute vector |
| `AnonCred.BlindIssuanceRoundTrip` | lib/anonyCred.go:15-103 | for any split of the attributes the issuer accepts every honest request, and the unblinded answer is the signature on public followed by hidden attributes for the r the issuer drew |
| `AnonCred.AnoyCredPresent` | lib/anonyCred.go:117-165 | commitment, announcement and responses of a presentation; the error case |
| `AnonCred.PresentationWrittenOut` | lib/anonyCred.go:125-164 | commitment, announcement, challenge and responses: every random value and the context enter |
| `AnonCred.VerifyAnoyCredPresent` | lib/anonyCred.go:168-205 | accepts iff the commitment proof and the pairing equation hold; the error order |
| `AnonCred.PresentationAcceptedIff` | lib/anonyCred.go:176-203 | both checks as equations, the first under the hash of key, commitment, announcement and context |
| `AnonCred.PresentationPassesIffSignature` | lib/anonyCred.go:117-205 | showing a signature passes iff it is valid on the hidden attributes randomized by t |
| `AnonCred.TwoShowingsYieldCredential` | lib/anonyCred.go:168-205 | two accepting showings under different challenges yield attributes for which the shown signature is valid |
| `Registration.GetRegisterRespToRP` | IdP/register.go:16-71 | the IdP answers iff the proof verifies, with a valid signature on the domain for the drawn r1 and the blind one on domain and hidden secret for the drawn r2; every error |
| `Registration.RPServer.GetRegisterRequestToIdP` | RP/register.go:124-141 | an honest request, blinded by d, for the identity secret, which never fails |
| `Registration.RPServer.GetCredential` | RP/register.go:145-175 | accepts iff both credentials verify once unblinded; result and stored fields for every wire form, the empty and the too short signature included |
| `Registration.RPServer.RegisterToIdP` | RP/register.go:23-45 | registration with an honest IdP always succeeds and leaves two valid credentials whose first elements are the scalars the IdP drew; an unreachable one changes nothing; any other answer is accepted iff its credentials verify |
| `LoginProof.GeneratePoK` | RP/aaka.go:211-346 | the whole proof for given credentials and randomness, and the error cases in order: missing, undecodable signature, undecodable scalar, no credential |
| `LoginProof.ProofWrittenOut` | RP/aaka.go:223-330 | both signatures, the commitments, announcements, challenge and responses of the proof, each with the random values drawn for it |
| `LoginProof.OneMaskPerResponses` | RP/aaka.go:304-323 | under any challenge every tuple of responses comes from exactly one choice of the five masks, whatever domain, secret and blinding are |
| `LoginProof.VerifyPoK` | IdP/aake.go:100-173 | the verdict: three response equations, then two signature equations, the first failure named |
| `LoginProof.AcceptedIff` | IdP/aake.go:100-173 | acceptance as five equations under the hash of keys, commitments and announcements |
| `LoginProof.HonestResponsesPass` | RP/aaka.go:255-330 | honest responses pass the three equations under any challenge |
| `LoginProof.FitsIffRandomized` | IdP/aake.go:156-170 | a pairing check against a commitment is the randomized-signature equation |
| `LoginProof.ProofPassesIffCredentials` | RP/aaka.go:211-346 | for nonzero randomization factors, an honest proof passes all five checks iff the first credential is valid on the domain and the second on domain and secret |
| `LoginProof.ValidCredentialsPass` | IdP/aake.go:100-173 | with valid credentials the proof passes for every randomization |
| `LoginProof.IdentityPairPasses` | IdP/aake.go:156-170 | no check excludes the identity pair: a proof over it passes for every domain and secret |
| `LoginProof.TwoProofsYieldWitness` | IdP/aake.go:118-170 | two accepting responses for one commitment yield t, t2, sk and a single D opening C1 and C2, and both signatures are valid for that D and (D, sk) |
| `LoginProof.OneDomainPerSignature` | IdP/aake.go:156-162 | the extracted domain is the only one the shown signature is valid for iff neither its sigma1 nor the key element is the identity |
| `SessionKey.SessionKeysAgree` | RP/aaka.go:350-390 | both ends derive the same K_S and the IdP's confirmation check passes |
| `SessionKey.SessionWrittenOut` | RP/aaka.go:350-390 | K_S is derived from the three shared points in order, and the confirmation seals both ephemeral keys, bound to both identities |
| `SessionKey.SessionAcceptedIff` | IdP/aake.go:277-301 | the IdP accepts with K_S iff the confirmation is exactly that for the same three points and keys |
| `SessionKey.ConfirmationBindsKeys` | IdP/aake.go:277-301 | whoever accepts the same confirmation does so from the same client for the same identity and ephemeral keys, and derives the same K_S |
| `SessionKey.PseudonymIsStable` | RP/aaka.go:100-113 | the unblinded pseudonym is u sigma1, whatever the session's k, iff k is nonzero or that point is the identity |
| `SessionKey.PseudonymsSeparateUsers` | IdP/aake.go:176-180 | under one credential pseudonyms of any two sessions are equal iff the user scalars are |
| `Consent.CodeStore.GetCode` | IdP/storage.go:85-101 | unknown, expired (and dropped) and used codes are refused, others returned |
| `Consent.CodeStore.SaveCode` | IdP/storage.go:104-127 | stores the consent under the generated code, or fails and stores nothing |
| `Consent.CodeStore.DeleteCode` | IdP/storage.go:130-138 | removes exactly that code |
| `Consent.AuthorizedMessages.Add` | IdP/storage.go:215-228 | appends the record to its user's list |
| `Consent.AuthorizedMessages.GetAll` | IdP/storage.go:231-249 | the user's records in order |
| `Consent.AuthorizedMessages.Delete` | IdP/storage.go:252-268 | removes the user's first record for the acid, and nothing else |
| `Consent.IdPServer.HandleAuthorizeCode` | IdP/ssso.go:127-153 | stores the whole consent of the session, with the account's e-mail and a five-minute lifetime, under the code it returns; nothing on an error |
| `Consent.IdPServer.HandleToken` | IdP/aake.go:22-95 | new state and answer of every redemption; on success the response carries the auid and the minted tokens, each in its place, the record with the consent's data is appended for its user, and the code is burned |
| `Consent.IdPServer.CheckRequest` | IdP/aake.go:33-57 | the checks succeed iff the proof is accepted, the consented acid is its signature and the key exchange works, with the key of that exchange |
| `Consent.IdPServer.HandleRevokeAuthorized` | IdP/ssso.go:111-123 | drops one record of the logged-in user |
| `Consent.CodesComeFromConsents` | IdP/storage.go:85-127 | every stored code was saved, as it is, by some consent of the run |
| `Consent.RedeemedCodesStayOut` | IdP/aake.go:83-85 | with fresh codes a redeemed code never returns to the store |
| `Consent.ConsentBehindRecord` | IdP/aake.go:22-95 | every record added repeats acid, uid, account, scope and D_enc of one saved, unexpired consent and carries the minted tokens; its acid is the text of the signature the verified proof used and its auid is H(uid) sigma1 of that acid |
| `Consent.SessionKeyKept` | IdP/aake.go:54-60 | over every run a successful redemption leaves the key of its own exchange in storage, and no event but a redemption that passed every check changes it |
| `Consent.OneRecordPerConsent` | IdP/aake.go:83-85 | each of two records has exactly one consent behind it, and the two consents are different ones |
| `Consent.CodeStays` | IdP/storage.go:85-138 | a saved code stays in the store, as it was saved, until it is redeemed or has expired |
| `Consent.RedemptionSucceedsIff` | IdP/aake.go:22-95 | over every run with fresh codes and a forward clock, a redemption succeeds iff its consent is at most five minutes old, no earlier request redeemed the code, proof, acid and key exchange check out, and tokens can be generated; failed attempts in between make no difference |
| `Consent.FailedRedemptionsAddNothing` | IdP/aake.go:22-78 | a failed redemption leaves the records alone and takes no code but an expired one |
| `Consent.AuidOfAcid` | IdP/aake.go:61-63 | under one acid, equal users have equal auids, and different user scalars different ones unless sigma1 is the identity |
| `Consent.RemovesOnlyFirst` | IdP/storage.go:262-267 | removal takes the first match and keeps the order of the rest |
| `Consent.RecordsWereAdded` | IdP/storage.go:215-268 | after any run the records held are ones added at different positions, in that order |
| `Consent.RecordsBalance` | IdP/storage.go:215-268 | for each user and acid, records held are records added less revocations that found one |
| `ScalarMul.ProjectivePoint.ValidateScalar` | tca/dvf.bundle.js:1402-1409 | accepts exactly the scalars from 1 to the group order |
| `ScalarMul.ProjectivePoint.MultiplyUnsafe` | tca/dvf.bundle.js:1410-1421 | n times the point on every accepted scalar, in any abelian group |
| `ScalarMul.ProjectivePoint.Multiply` | tca/dvf.bundle.js:1422-1439 | the same, over a fixed number of iterations with a decoy |
| `ScalarMul.ProjectivePoint.PrecomputeWindow` | tca/dvf.bundle.js:1443-1459 | the table of multiples for every window |
| `ScalarMul.ProjectivePoint.CalcMultiplyPrecomputes` | tca/dvf.bundle.js:1460-1464 | keeps the table unless there is one already |
| `ScalarMul.ProjectivePoint.ClearMultiplyPrecomputes` | tca/dvf.bundle.js:1465-1467 | forgets the table |
| `ScalarMul.TableAt` | tca/dvf.bundle.js:1443-1459 | entry i of a window is (i + 1) 2^(W window) times the point |
| `ScalarMul.ProjectivePoint.NextDigit` | tca/dvf.bundle.js:1484-1490 | splits the scalar into a signed digit of half the window size at most and the rest |
| `ScalarMul.ProjectivePoint.WNAF` | tca/dvf.bundle.js:1468-1499 | for every W, the result is n times the point for every n that fits the signed digits, and otherwise falls short by exactly the last carry's 2^(W windows) multiples |
| `ScalarMul.SmallScalarsFit` | tca/dvf.bundle.js:1468-1499 | in particular every n below 2^(W windows - 1) fits |
| `ScalarMul.AcceptedScalarsFit` | tca/dvf.bundle.js:1500-1502 | every accepted scalar fits, for every W |
| `ScalarMul.ProjectivePoint.MultiplyPrecomputed` | tca/dvf.bundle.js:1500-1502 | agrees with the other two multiplications on every scalar |
| `Inversion.ModIsEuclidean` | tca/dvf.bundle.js:647-650 | the remainder made nonnegative is the Euclidean one |
| `Inversion.Invert` | tca/dvf.bundle.js:691-711 | the extended Euclidean loop ends and returns an inverse, or reports that none exists and then there is none |
| `Inversion.GenInvertBatch` | tca/dvf.bundle.js:665-681 | over any field, prime or extension, the inverse at every nonzero index and nothing at zeros |
| `Inversion.InvertElement` | tca/dvf.bundle.js:691-711 | the prime field's inversion is the Euclidean one and cannot fail on a nonzero element |
| `Inversion.PrimeFieldIsField` | tca/dvf.bundle.js:647-711 | the prime field has the laws batch inversion needs |
| `HashMD.HashMD.Update` | tca/dvf.bundle.js:2665-2693 | state, remainder and length after absorbing any data; refused after finishing |
| `HashMD.HashMD.DigestInto` | tca/dvf.bundle.js:2694-2717 | the one-shot hash of everything absorbed, at the front of the output; the error order |
| `HashMD.HashMD.Digest` | tca/dvf.bundle.js:2718-2724 | the same in a fresh array, and the instance is destroyed |
| `HashMD.HashMD.CloneInto` | tca/dvf.bundle.js:2725-2734 | every field is taken over, from finished and destroyed instances too, the buffer only when in use; the clone of a live instance absorbs on as the original would |
| `HashMD.HashMD.SetU64` | tca/dvf.bundle.js:2540-2545 | the two 32-bit words are the eight bytes of the number in either byte order |
| `HashMD.ZeroCountIsLeast` | tca/dvf.bundle.js:2700-2705 | the padding has the least number of zeros that fills the last block, as section 5.1.2 of FIPS 180-4 asks |
| `HashMD.PaddedBlocks` | tca/dvf.bundle.js:2700-2707 | the one or two final blocks built in the buffer are the padded remainder |
| `HashMD.FoldResumes` | tca/dvf.bundle.js:2665-2693 | folding the compression function resumes from state and remainder at any cut |
| `HashMD.HashInPieces` | tca/dvf.bundle.js:2644-2738 | for every way of cutting a message into updates the digest is the hash of the whole |
| `HashMD.HashWrittenOut` | tca/dvf.bundle.js:2694-2717 | the digest is the state folded over message and padding, cut to the output length |
| `HashMD.PaddingWrittenOut` | tca/dvf.bundle.js:2700-2707 | the padding is the marker, zeros and the bit length at the end of the last block |
| `HashMD.OutputWords` | tca/dvf.bundle.js:2710-2716 | each state word stands in its own four bytes of the output |
| `HashMD.EqualStatesCollide` | tca/dvf.bundle.js:2644-2738 | two different messages reach one final state only through a collision of the compression function |
| `HashMD.EqualDigestsCollide` | tca/dvf.bundle.js:2644-2738 | the same for digests that are the whole state |
| `Hkdf.HMAC.constructor` | tca/dvf.bundle.js:2997-3016 | both hashes stand behind the padded key of section 2 of RFC 2104 |
| `Hkdf.HMAC.Update` | tca/dvf.bundle.js:3017-3021 | the message grows by the data; refused after finishing |
| `Hkdf.HMAC.DigestInto` | tca/dvf.bundle.js:3022-3031 | HMAC of the message as section 2 of RFC 2104 defines it |
| `Hkdf.HMAC.Digest` | tca/dvf.bundle.js:3032-3036 | the same in a fresh array |
| `Hkdf.HmacWrittenOut` | tca/dvf.bundle.js:3006-3031 | HMAC from the padded key, its two flipped forms, the message and the inner digest |
| `Hkdf.EqualHmacsCollide` | tca/dvf.bundle.js:2989-3058 | under one key, equal codes of different messages mean a collision of the compression function |
| `Hkdf.PadsFromKeyBlock` | tca/dvf.bundle.js:3006-3015 | flipping the inner pad in place gives the outer pad |
| `Hkdf.BlockFromMidstates` | tca/dvf.bundle.js:3090-3096 | one block T(n) from cloned midstates through a recycled worker |
| `Hkdf.LeadingBlocks` | tca/dvf.bundle.js:3089-3097 | all blocks but the last, in place |
| `Hkdf.LastBlock` | tca/dvf.bundle.js:3098-3103 | the last block, run on the midstates themselves |
| `Hkdf.BlockCountCovers` | tca/dvf.bundle.js:3070-3075 | the block count is at most 255 for every accepted length and covers it |
| `Hkdf.Expand` | tca/dvf.bundle.js:3066-3115 | for every length up to 255 hash lengths the first L octets of T(1), T(2), ... of section 2.3 of RFC 5869, with all buffers aliased as the code aliases them; a recycled key is wiped unless it is the result; the error cases |
| `Hkdf.OkmFirst` | tca/dvf.bundle.js:3089-3103 | the first block of output is the HMAC of info and the number one |
| `Hkdf.OkmNext` | tca/dvf.bundle.js:3089-3103 | each further block is the HMAC of the block before it, info and its number |
| `Hkdf.OkmPrefix` | tca/dvf.bundle.js:3107-3114 | a shorter output is the beginning of a longer one |
| `Hkdf.Deliver` | tca/dvf.bundle.js:3107-3114 | the output cut to length; T and a longer output buffer are wiped unless returned |
| `Hkdf.Derive` | tca/dvf.bundle.js:3116-3122 | the output is expanded from the HMAC of the input keying material under the salt, zeros of output length if there is none, with the extract HMAC recycled |
| `AuthRecord.Uint8ArrayToBase64` | tca/cryptolib.js:15-33 | chunked conversion encodes the whole byte string |
| `AuthRecord.Base64ToUint8Array` | tca/cryptolib.js:36-51 | the bytes a base64 string stands for, or an error |
| `AuthRecord.Base64RoundTrip` | tca/cryptolib.js:15-51 | decoding undoes encoding on every byte string |
| `AuthRecord.BlindingCancels` | tca/cryptolib.js:206-213 | blinding, evaluating and unblinding leave k P iff the blinding scalar is nonzero or k P is the identity |
| `AuthRecord.RequestWrittenOut` | tca/cryptolib.js:237-281 | the request is the point PIN and uid hash to, times the blinding scalar |
| `AuthRecord.RequestFitsEveryPin` | tca/cryptolib.js:164-200 | it is also the request for any other PIN and uid, with exactly one blinding scalar |
| `AuthRecord.InvalidElementsRefused` | tca/cryptolib.js:206-213 | bytes that are no group element are refused by server and client |
| `AuthRecord.KeyIgnoresBlinding` | tca/cryptolib.js:237-288 | for any nonzero blinding scalar K_m is HKDF-SHA512 of the hash of server key times the point PIN and uid hash to |
| `AuthRecord.SessionUnfolds` | lib/oprf/server.go:33-40 | every step of the exchange decodes what the other side encoded |
| `AuthRecord.RereadFacts` | tca/cryptolib.js:410 | exactly the ASCII texts survive encoding as UTF-8 and one-byte decoding; colons and emptiness are kept |
| `AuthRecord.Utf8CharDecodes` | tca/cryptolib.js:237-254 | UTF-8 keeps every character in as few bytes as its range says |
| `AuthRecord.ThreeFields` | tca/cryptolib.js:412 | splitting at colons recovers three nonempty colon-free fields |
| `AuthRecord.NonceFromDisplay` | tca/cryptolib.js:8-12 | the nonce is determined by the way it is shown |
| `AuthRecord.DecryptsToFields` | tca/cryptolib.js:363-419 | what decrypting a new record yields, for present and absent domain and acid and for any JSON members |
| `AuthRecord.RecordWrittenOut` | tca/cryptolib.js:363-382 | IV, then domain, acid members and nonce sealed under the key and that IV |
| `AuthRecord.DecryptsIff` | tca/cryptolib.js:387-419 | a record decrypts iff it has an IV and opens under the key and that IV, and both stored forms read alike |
| `AuthRecord.RecordRoundTrip` | tca/cryptolib.js:363-419 | a record decrypts to its nonce always, and to its domain, Sigma1 and Sigma2 iff all three are nonempty, without colons and ASCII |
| `AuthRecord.RecordCrossesSessions` | tca/cryptolib.js:164-213 | a record made in one session is read back in any later one with the same PIN, uid and server key |

## Left out

- HTTP, cookies, browser sessions, JSON and hex encoding, configuration and file access: requests arrive decoded, or as "does not decode"; storage is a value.
- JWT handling and re-signing of tokens: a token is an opaque value, and whether a refresh token is valid, and what is minted, is an input of the step.
- Several RPs sharing the IdP's one ratchet, a restart of only one ratchet party, and logins that change the stored K_S in mid-run: the ratchet runs are for one RP, equal seeds and one lifetime.
- Concurrency: handlers run one at a time, except for a registration during the broker's request.
- BrokerRefresh.PositionCountsSuccesses: one refresh in flight at a time, and prekey lists of fewer than 2^32 entries, because the position is a 32-bit counter.
- IdPRefresh.MessageKeysNeverRepeat: the stored session key is never empty, as loading falls back to a bootstrap value.
- RatchetKeys.AdvanceInjective: keys are terms, so hash collisions do not exist here.
- Secrecy, unlinkability and zero knowledge as games: stated are special soundness, that commitments, responses under a fixed challenge and blinded requests fit every secret, and that keys of different kinds differ.
- AES-GCM: an ideal authenticated cipher; IVs matter only in the authorization record.
- Curve formulas, the pairing's Miller loop and final exponentiation, hashing to curves and scalars, SHA compression rounds: abstract operations.
- Canonical byte encodings of points and scalars, except as a law of the ristretto255 codec; for BLS12-381 points only that distinct points have distinct texts.
- Nil pieces that make the Go code panic, as commitments or responses that do not decode in `toProof`: not among the inputs of `LoginProof.VerifyPoK`; `LoginProof.GeneratePoK` does not take the wire text "null", which the source passes on as an empty signature.
- HashMD.HashMD.Update: messages are below 2^50 bytes, beyond which the bit length is no longer an exact JavaScript number; little-endian hashes and the cleaning of round scratch memory are not modelled.
- ScalarMul.ProjectivePoint.WNAF: digits are integers, where the source uses JavaScript numbers that are exact for W up to 53; normalizing the table's coordinates does not change the points and is not modelled.
- ScalarMul.ProjectivePoint.MultiplyPrecomputed: the point's bit count is at least 381, which both curve classes satisfy.
- Hkdf.Expand: argument type checks and the shared one-byte counter array are not modelled.
- AuthRecord.DecryptsToFields: strings with lone surrogates are not modelled; a JSON member that is not a string is given by its rendering; nonce and IV are what the generator draws.
- The single-base Schnorr proof in lib/NIZK.go, code and key generation, the ephemeral-key pool, the broker's authorization codes and origin checks: only simple facts to state.
- The benchmark tree, `tca/dvf_authorize.bundle.js`, which repeats the engine, and the unused parts of the vendored ristretto bundle.
