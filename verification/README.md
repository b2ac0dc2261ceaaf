# Verified model of the authenticator firmware

A Dafny model of the stateful core of a CTAP 2.1 / OATH / Yubico OTP authenticator firmware written in C,
with proofs about every reachable state, whole runs of commands, and round trips of the byte formats.
`dafny verify dfyconfig.toml` checks all of it.

## How the model is built

Every core file has a specification as functions on values, lemmas about that specification, and - where
the C code works step by step on globals, files or buffers - a class or method with the same loops and
branches, proved equal to the specification.

- Sealed credentials (`Cbor`, `SealedCredential`, `SealedFields`): the CBOR printer and parser behind a credential id,
  the fields under their keys, and the authenticated encryption around them. Section 3 of RFC 8949, section 2.8 of RFC 8439.
- Resident credentials (`ResidentTables`, `ResidentTheorems`, `ResidentUsers`, `ResidentRuns`,
  `ResidentEnumeration`, `ResidentNames`; class `ResidentStore`): 256 credential files, 256 one-byte-counted RP files, store,
  delete, update-user and the two enumerations. Section 6.8 of CTAP 2.1.
- PIN, MKEK and token (`Kek`, `ClientPin`, `PinTheorems`, `PinPolicy`, `TokenAuthority`, `PinGates`; class
  `Authenticator`): one state that setPIN, changePIN, getPinUvAuthToken, setMinPINLength, makeCredential,
  getAssertion and power-up step. Sections 6.5 and 6.11 of CTAP 2.1.
- Assertions (`Assertion`, `AssertionClock`, `AssertionLimit`; class `AssertionEngine.Engine`): candidate scan,
  in-place filter, exchange sort, the getNextAssertion session, its 32-bit clock and its limit of 16. Sections 6.2 and 6.3 of CTAP 2.1.
- Large blobs (`LargeBlobs`, class `Writer`): the resumable upload and chunked reads. Section 6.10 of CTAP 2.1.
- Yubico OTP (`Crc16`, `OtpLink`, `OtpCounter`; classes `OtpKeyboard.Keyboard`, `OtpCounter.Button`): the CRC of
  RFC 1662 appendix C.2, the HID frames, and the usage and session counters.
- OATH (`OathRecord`, `OathStore`, `OathTheorems`; class `OathDevice.Oath`): the TLV records, the 255 files as a
  map by name, and HOTP. Sections 5.2 and 5.3 of RFC 4226. `Counting` is the induction that numbers the outputs
  of a run.

Hashes, ciphers and HMAC are function-valued fields of a datatype (`Vault`, `Suite`, `Hasher`) with a `Lawful`
predicate that states only what is needed: opening undoes sealing, decryption undoes encryption, lengths, and that
PINs with one verifier have one session key. Randomness, clocks, user presence, MAC outcomes and decrypted
parameters are arguments, so the theorems hold for all of them.

Integer widths are the code's own. Bytes that are only moved are `bytes` (integers below 256); where the code works
bit by bit they are `octets` (`bv8`).

## What the proofs found

These are facts of the code that its names or comments do not suggest; the model follows the code.

- User ids and credential ids are compared over the shorter length. Users 01 02, 01 03 and then 01 leave two
  credentials for comparable users (`ResidentRuns.MixedLengthsClash`); `ResidentUsers.StoreUsersApart` says exactly
  when a store keeps users apart.
- The sealed plaintext carries 16 trailing bytes, because its length is measured from the start of the credential id;
  the parser ignores them (`SealedCredential.LoadCreated`). The same 16 bytes are missing from the room that the printer
  leaves: a map of 977 to 992 bytes gives a credential id 1 to 16 bytes longer than the 1024-byte buffers of both
  callers. `SealedCredential.FitsExactly` is the exact condition, `SealedCredential.LongNameOverruns` a family of drafts.
- Update-user passes the stored sign-count option as a pointer to `bool`, so it comes out true
  (`ResidentUsers.UpdateRewritesInPlace`).
- The enumeration counters are one byte: 255 live RPs end with NO_CREDENTIALS instead of NOT_ALLOWED, 256 report a
  total of 0 (`ResidentEnumeration.RpEnumerationExact`, `ResidentEnumeration.CredEnumerationExact`). A credential that
  does not load, or has an unknown curve, ends the enumeration of its RP with a refusal (`ResidentEnumeration.CredWalk`).
  A full credential table is reported as 0 existing credentials.
- A minimum PIN length above 255 is stored modulo 256: setPIN, a configuration token and a request for 256 lower it
  from 4 to 0 (`PinPolicy.MinPinExact`, `PinPolicy.MinPinDrops`). The same command hands only the low byte of the
  protocol number to the MAC check, so 257 and 258 are accepted as 1 and 2 (`PinPolicy.MinPinDropsWide`).
- A request that leaves the minimum as it is and does not ask for a forced change clears one that was pending
  (`PinGates.PendingChangeCleared`).
- setPIN wraps the MKEK and zeroes the session key that would unwrap it (`PinTheorems.SetPinLeavesNoSession`), so until
  a right PIN the device key can be unavailable (`PinTheorems.SetPinLocks`, `PinTheorems.SetPinLocksRun`).
- The 30-second limit of getNextAssertion compares 32-bit clock readings: a stale session is served after the clock has
  wrapped, and a fresh one refused when only the deadline has (`AssertionClock.ExpiryExact`,
  `AssertionClock.StaleServed`, `AssertionClock.FreshRefusedExample`).
- Without an allow list the 17th and later credentials of an RP are never considered (`Assertion.HandedOutExactly`,
  `AssertionLimit.SeventeenthLost`).
- An OTP status query before the start-up work after power-up, or a restart at usage counter 0x7fff, makes OTPs repeat
  a pair (`OtpCounter.QueryFirstRepeats`, `OtpCounter.LastValueRepeats`); `OtpCounter.RisingExactly` is the exact
  condition.
- An OATH put pads a short HOTP counter over whatever follows it in the record. If that is the name, two records can
  end with one name (`OathTheorems.PaddingDuplicates`); `OathTheorems.PutKeepsBookExactly` is the exact condition on a
  request.
- The slot byte of an OTP frame is not covered by the frame's CRC: a changed one is taken for the other slot
  (`OtpLink.ChangedSlotTaken`, `OtpLink.ChangeFoundExactly`).
- An OATH list entry of a name of 127 bytes or more does not read back (`OathTheorems.EntryReadsExactly`).
- `crc32c` computes CRC-32 (`Kek.CheckValue`).
- All refusals of large-blob commands reach the platform as one code; a stored blob of exactly 17 bytes is not
  hash-checked.

## Model

| member | source | states |
|---|---|---|
| Cbor.NumberRoundTrip | src/credential.c:57-57 | A number printed in k big-endian bytes reads back as itself whenever it fits in k bytes. |
| Cbor.RoundTrip | src/credential.c:49-99 | Every encodable item parses back to itself from its encoding followed by any bytes, which are left unread. |
| Cbor.FieldsRoundTrip | src/credential.c:50-99 | Every indefinite-length map parses back field by field, up to its break byte and no further. |
| Cbor.NumberExamples | src/credential.c:49-99 | Numbers are printed as in the examples of appendix A of RFC 8949. |
| Cbor.StringExamples | src/credential.c:49-99 | So are strings and booleans. |
| Cbor.MapExample | src/credential.c:49-99 | So is a map of indefinite length. |
| SealedCredential.CreateCredential | src/credential.c:34-129 | What it makes fits the callers' buffer and loads again, under the RP of the draft, as the normal form of the draft, whenever the printed map has at most 976 bytes. |
| SealedCredential.LoadCredential | src/credential.c:131-225 | Loading gives the specified credential or error, for ids that do not open, for U2F key handles, and for sealed maps of indefinite length, the only ones that the printer writes. |
| SealedCredential.ExtensionsRoundTrip | src/credential.c:61-81 | Printed extensions read back normalised: a credBlob of 128 bytes or more and false largeBlobKey or thirdPartyPayment are absent. |
| SealedCredential.LoadCreated | src/credential.c:49-215 | Loading what create made within the buffer, under the same RP, gives the normalised fields of the draft: empty fields absent, ES256 and P-256 when omitted, and the 16 trailing plaintext bytes ignored. |
| SealedCredential.LoadsOnlyOwn | src/credential.c:138-144 | Whatever does not open under the hash of the RP loads only as a U2F key handle: 64 bytes that are the authenticator's own for that RP, with no field set. |
| SealedCredential.OtherRpRefused | src/credential.c:16-32 | A created id is refused under the hash of any other RP, unless the cipher opens its box there, or it is the authenticator's own U2F key handle. |
| SealedCredential.FitsExactly | src/credential.c:100-113 | Of the drafts that are printed, exactly those whose map has at most 976 bytes leave an id within the 1024 bytes of the callers. |
| SealedCredential.LongNameOverruns | src/cbor_make_credential.c:308-313 | A draft with a user name of 926 to 941 bytes is printed, and its id is 1 to 16 bytes too long. |
| SealedFields.CreatedHolds | src/credential.c:49-129 | A created id is the prefix F1 D0 02 01, the IV, and the box of a map sealed under the RP id hash, in which keys 1 to 11 and the extension names hold the fields of the draft that they stand for, with the rules for what is left out. |
| ResidentTables.NothingIndexes | src/credential.c:243-327 | Empty flash is indexed, and agrees under any keys. |
| ResidentTables.IndexMeaning | src/credential.c:288-323 | The index invariant spelt out: an RP has a record exactly when some stored credential carries its hash, never two records, and the count byte is the number of those credentials modulo 256. |
| ResidentTables.StoreAgrees | src/credential.c:243-327 | A successful store keeps the RP table an index of the credential table, for every RP at once, whether or not the stored credentials load under the current keys. |
| ResidentTheorems.DeleteAgrees | src/cbor_cred_mgmt.c:337-363 | Delete keeps the RP table an index, also from a count byte that has wrapped at 256 credentials. |
| ResidentTheorems.UpdateAgrees | src/cbor_cred_mgmt.c:379-407 | Update-user keeps the RP table an index, and an update that is refused changes neither table. |
| ResidentTheorems.DeleteExactly | src/cbor_cred_mgmt.c:324-365 | Delete succeeds if and only if a stored id is comparable to the one given; refused, it is NO_CREDENTIALS and changes nothing. |
| ResidentTheorems.UpdateExactly | src/cbor_cred_mgmt.c:366-409 | When update-user succeeds, and under which status it is refused without a change. |
| ResidentTheorems.EveryCredentialRecordedOnce | src/credential.c:288-323 | Conservation: the credentials of all recorded RPs add up to the number of stored credentials. |
| ResidentTheorems.RoomForRecord | src/credential.c:288-305 | Pigeonhole: while a credential file is free, an RP file is free too. |
| ResidentTheorems.StoreAllOrNothing | src/credential.c:253-305 | A refused store changes nothing, so the exit between the two writes is never taken; a loadable credential is refused if and only if all 256 files are used and none matches. |
| ResidentTheorems.CountBytesAddUp | src/cbor_cred_mgmt.c:116-126 | The count bytes sum to the number of credentials, less 256 for an RP that holds all 256; the reported total is that sum's low byte. |
| ResidentTheorems.MetadataExact | src/cbor_cred_mgmt.c:116-126 | The one-byte number of existing credentials is right if and only if some file is free. |
| ResidentTheorems.RunIndexes | src/cbor_cred_mgmt.c:324-409 | In every state that store, delete and update-user reach from empty flash, each under keys of its own, the RP table is an index of the credentials. |
| ResidentTheorems.RunAgrees | src/cbor_cred_mgmt.c:324-409 | Under the same keys throughout, every stored credential of such a state loads, too. |
| ResidentUsers.StoreUsersApart | src/credential.c:253-277 | A store keeps users apart if and only if at most one stored user id of that RP is comparable to the new one. |
| ResidentUsers.StoreRefinesUpdate | src/credential.c:253-285 | With user ids of one length, store is a map update on (RP hash, user id): the new id there, every other entry as before. |
| ResidentUsers.DeleteRefinesRemoval | src/cbor_cred_mgmt.c:337-363 | With user ids of one length, delete removes the one map entry it located and no other. |
| ResidentUsers.DeleteUndoesStore | src/cbor_cred_mgmt.c:337-363 | Deleting a newly stored credential restores both tables byte for byte, when nothing else stored is comparable. |
| ResidentUsers.UpdateRewritesInPlace | src/cbor_cred_mgmt.c:379-405 | Update-user rewrites just the file it located, keeps every RP record, and what it stored loads with the new names and the old fields, sign-count forced true. |
| ResidentRuns.RunUsersApart | src/credential.c:253-285 | Over every run of makeCredential, delete and update-user with user ids of one length, in which every id that is sealed fits its buffer, no two files hold one (RP, user). |
| ResidentRuns.MixedLengthsClash | src/credential.c:270-270 | A concrete run of three registrations with user ids of two lengths ends with two credentials for comparable users. |
| ResidentEnumeration.RpWalk | src/cbor_cred_mgmt.c:128-179 | From its Begin on, in any interleaving with Begin and Next of credential enumerations, an RP enumeration reports the total, then id and hash of live RP number k in slot order at its k-th command, then NOT_ALLOWED. |
| ResidentEnumeration.CredWalk | src/cbor_cred_mgmt.c:180-298 | The same for the credentials of one RP, up to the first that does not load or has an unknown curve, which is refused. |
| ResidentEnumeration.CurvesKnown | src/fido.c:81-100 | The curves that a reported credential may have. |
| ResidentEnumeration.CursorsIndependent | src/cbor_cred_mgmt.c:128-238 | No command of one enumeration, Begin included, moves the cursor of the other. |
| ResidentEnumeration.LiveRpsAreTheRps | src/cbor_cred_mgmt.c:146-161 | The RPs reported are those with 1 to 255 stored credentials. |
| ResidentEnumeration.LiveRpsOnce | src/cbor_cred_mgmt.c:146-161 | No RP is reported twice. |
| ResidentEnumeration.CredsOfCount | src/cbor_cred_mgmt.c:205-220 | The credentials enumerated for an RP are as many as the count of that RP. |
| ResidentEnumeration.RpEnumerationExact | src/cbor_cred_mgmt.c:128-165 | Begin and Next give every live RP once, the total with the first, and NOT_ALLOWED at the end, if and only if at most 254 RPs are live. |
| ResidentEnumeration.CredEnumerationExact | src/cbor_cred_mgmt.c:180-298 | Begin and Next give every credential of an RP once, the total with the first, and NOT_ALLOWED at the end, if and only if there are at most 254 and all of them load with a known curve. |
| ResidentNames.RunNames | src/credential.c:313-321 | In every state that runs of makeCredential, delete and update-user reach, each RP file holds the id of an RP that credentials were made for, and its SHA-256. |
| ResidentNames.RecordsName | src/credential.c:313-321 | As long as no two RP ids of the run have one hash, the id in an RP file is the RP id that every stored credential of that RP loads with, and there is one. |
| ResidentNames.RpWalkNames | src/cbor_cred_mgmt.c:128-179 | The enumeration of RPs reports each RP by that id and its hash, live RP number k with the command that comes after k replies. |
| ResidentStore.ResidentStore.StoreCredential | src/credential.c:243-327 | The two slot loops and file writes have the status and the tables of the specified store. |
| ResidentStore.ResidentStore.FindSlot | src/credential.c:253-280 | The scan finds the first comparable user's file, else the first free file, else none. |
| ResidentStore.ResidentStore.AddReference | src/credential.c:288-323 | Counts one more credential of an RP, in its own record or in the first free file. |
| ResidentStore.ResidentStore.DeleteCredential | src/cbor_cred_mgmt.c:324-365 | Delete's nested loops remove the first comparable credential and count its RP down, dropping the record at zero. |
| ResidentStore.ResidentStore.UpdateUserInformation | src/cbor_cred_mgmt.c:366-409 | The lookup, re-sealing and store of update-user, with every refusal. |
| ResidentStore.ResidentStore.Metadata | src/cbor_cred_mgmt.c:116-126 | Existing and remaining credentials as the one-byte counter has them. |
| ResidentStore.ResidentStore.EnumerateRps | src/cbor_cred_mgmt.c:128-179 | The skip-and-count loop over the RP files replies as the abstract cursor does. |
| ResidentStore.ResidentStore.EnumerateCredentials | src/cbor_cred_mgmt.c:180-298 | The same for the credentials of one RP, with the refusals for credentials that do not load. |
| Kek.Crc32c | src/kek.c:26-35 | The two nested loops compute the specified checksum. |
| Kek.CheckValue | src/kek.c:24-35 | The checksum of the digits 1 to 9 is CBF43926, the check value of CRC-32. |
| Kek.MkekMasked | src/kek.c:37-43 | Masks the 32 key bytes in place and leaves the IV and the checksum as they were. |
| Kek.MaskedTwice | src/kek.c:37-43 | Masking twice with one mask restores the key. |
| Kek.StoreMkek | src/kek.c:73-100 | Masking, checksum and encryption in the buffer write the specified MKEK file. |
| Kek.LoadMkek | src/kek.c:45-67 | Loading gives the specified result for every file and session key, the wrong-key error included. |
| Kek.UnwrapWrap | src/kek.c:45-100 | Loading what was stored under the same session key gives the original IV and key. |
| Kek.WrapHolds | src/kek.c:73-100 | A wrapped file is the IV in the clear; the rest decrypts under the session key to each key byte XORed with the one-time key, and the checksum of what that gives. |
| Kek.UnwrapExactly | src/kek.c:45-67 | Loading refuses a wrapped file if and only if the decrypted checksum is not that of the decrypted key, and otherwise takes the mask off each byte. |
| Kek.DeviceKeyFileHolds | src/fido.c:310-317 | The device key file decrypts under the MKEK to the device key, encrypted under the one-time key if there is one. |
| Kek.DeviceKeyLoads | src/fido.c:168-188 | With the original MKEK unlocked, `load_keydev` yields the originally generated device key. |
| PinTheorems.StepKeepsKey | src/cbor_client_pin.c:418-427 | Every command, refused or not, keeps the MKEK file either the original raw MKEK or that MKEK wrapped under the current PIN; after a right PIN it is unlocked, and which commands keep it so. |
| PinTheorems.RunKeepsKey | src/cbor_client_pin.c:501-551 | No run from the first scan on loses the original master key or the device key. |
| PinTheorems.RunUnlocks | src/cbor_client_pin.c:634-639 | After a right PIN since power-up, and always without a PIN, `load_keydev` gives the original device key. |
| PinTheorems.SetPinLeavesNoSession | src/cbor_client_pin.c:267-280 | A setPIN on a raw MKEK leaves it wrapped under the new PIN, with the session key zeroed. |
| PinTheorems.SetPinLocks | src/fido.c:168-188 | On a device that keeps every law of the model, each successful first setPIN makes `load_keydev` fail right after it. |
| PinTheorems.RunStaysLocked | src/cbor_client_pin.c:473-505 | On every device, with a PIN and no session key, no run without a right PIN, power cycles included, gives a session key or touches the MKEK and device key files. |
| PinTheorems.SetPinLocksRun | src/fido.c:168-188 | On the device of SetPinLocks `load_keydev` goes on failing over every later run without a right PIN. |
| PinGates.PowerCycleLocks | src/cbor_client_pin.c:473-505 | A power cycle forgets session key, token and mismatches and nothing else; from then on, over every run without a right PIN, there is neither a session key nor a token, and no command passes a token gate. |
| PinPolicy.StepCompliant | src/cbor_client_pin.c:647-656 | A token is issued only under a PIN of at least the minimum length with the force-change flag clear. |
| PinPolicy.RunCompliant | src/cbor_client_pin.c:514-562 | In every reachable state a PIN shorter than the minimum is flagged for change, and the flag means there is a PIN. |
| PinPolicy.MinPinExact | src/cbor_config.c:110-203 | The minimum PIN length drops if and only if the request passes the guards of the subcommand, the MAC under the low byte of the protocol number included, and its own low byte is below the minimum; requests up to 255 never lower it. |
| PinPolicy.MinPinDrops | src/cbor_config.c:196-196 | A run from the first scan - setPIN, a configuration token, a request for 256 - that lowers the minimum from 4 to 0. |
| PinPolicy.MinPinDropsTo | src/cbor_config.c:178-203 | Such a run for every request from 4 up whose low byte is below 4, under every protocol number with low byte 1 or 2: the minimum becomes the low byte. |
| PinPolicy.MinPinDropsWide | src/cbor_config.c:110-127 | The run for 256 under protocol number 257. |
| PinPolicy.StepRetries | src/cbor_client_pin.c:446-505 | An attempt is charged exactly when a PIN is tried, a right PIN restores 8 retries, and nothing else changes the PIN file but setPIN. |
| PinPolicy.RunRetries | src/cbor_client_pin.c:590-646 | Over every run the retry byte is 8 minus the attempts since the last right PIN or setPIN, never underflows, and bounds the mismatches. |
| PinPolicy.RunBlocked | src/cbor_client_pin.c:446-448 | With no retries left, no later command, power cycles included, changes the PIN file or issues a token. |
| PinGates.SetPinExactly | src/cbor_client_pin.c:365-433 | setPIN succeeds if and only if there is no PIN, the request is complete and authentic, and the new PIN is terminated and of the minimum length; the PIN file then has the hash of all its bytes, its length and 8 retries. |
| PinGates.ChangePinExactly | src/cbor_client_pin.c:434-566 | changePIN the same, with the right old PIN and, when a change is forced, another new one; the force flag and the permissions are then clear. |
| PinGates.GetTokenExactly | src/cbor_client_pin.c:567-669 | A token is issued if and only if the request is in order, there are retries, the hash is right and no change is forced; it has the low byte of the permissions asked for, or makeCredential and getAssertion in the older subcommand, and the RP asked for. |
| PinGates.WrongPinReported | src/cbor_client_pin.c:473-500 | A wrong PIN is PIN_BLOCKED on the last try, PIN_AUTH_BLOCKED from the third mismatch on, else PIN_INVALID; what does not decrypt is no mismatch. |
| PinGates.RunLastPin | src/cbor_client_pin.c:525-551 | In every reachable state the PIN file accepts exactly the PIN that was last set successfully, and there is none before the first. |
| PinGates.LastPinWorks | src/cbor_client_pin.c:611-639 | In every reachable state with retries left, a token request in order is right if and only if its hash has the verifier of the PIN last set, and else a wrong PIN. |
| PinGates.NewPinIssues | src/cbor_client_pin.c:525-562 | Right after any setPIN or changePIN a token request is issued a token if and only if its hash has the verifier of the new PIN. |
| PinGates.SetMinPinExactly | src/cbor_config.c:110-203 | setMinPINLength passes its gate on a matching MAC and the configuration permission; what it then stores as minimum and force flag, for every request. |
| PinGates.PendingChangeCleared | src/cbor_config.c:190-196 | A request that changes nothing else clears a pending forced change. |
| PinGates.MakeCredentialExactly | src/cbor_make_credential.c:224-297 | makeCredential passes its token gate if and only if nothing was refused before, the MAC matches under protocol 1 or 2, and a verified token in use has permission 0x01 and no other RP; it is then bound to the RP. When the command succeeds, with and without a token. |
| PinGates.GetAssertionExactly | src/cbor_get_assertion.c:196-252 | getAssertion the same with permission 0x02; with user presence it leaves the token with no user flag and permission 0x10 alone. |
| PinGates.GetAssertionSucceeds | src/cbor_get_assertion.c:196-361 | When getAssertion succeeds, with and without a token. |
| TokenAuthority.StepExhausted | src/cbor_get_assertion.c:238-252 | A token spent by a user-present assertion passes no gate and stays spent until the next issuance. |
| TokenAuthority.OneAssertionPerToken | src/cbor_get_assertion.c:342-361 | Between two issuances, after one user-present assertion no gated makeCredential, getAssertion or configuration passes. |
| TokenAuthority.OneRpPerToken | src/cbor_make_credential.c:246-265 | Between two issuances, everything that passes after the first gated makeCredential is for that RP. |
| TokenAuthority.RunTokenSane | src/cbor_client_pin.c:53-57 | In every reachable state a token that is not in use has no permissions and no verified user. |
| TokenAuthority.RunTokenUnlocked | src/cbor_client_pin.c:634-669 | In every reachable state a token in use means that the original MKEK is unlocked. |
| TokenAuthority.GatedHasKey | src/cbor_make_credential.c:246-265 | In every reachable state, a makeCredential or getAssertion that passes its token gate can load the originally generated device key. |
| Authenticator.StepKeepsAll | src/cbor_client_pin.c:284-675 | Every command keeps the original keys, the PIN policy and a sane token, in use only while the MKEK is unlocked, together, and a right PIN leaves the MKEK unlocked. |
| Authenticator.Authenticator.LoadKeydev | src/fido.c:168-188 | Gives the original device key whenever the MKEK is unlocked, and so always while there is no PIN. |
| Authenticator.Authenticator.SetPinCommand | src/cbor_client_pin.c:365-433 | setPIN on the fields and files has the status and state of the specified step, and keeps keys, policy and token. |
| Authenticator.Authenticator.ChangePinCommand | src/cbor_client_pin.c:434-566 | changePIN the same: charge, compare, restore, policy, re-wrap, flag, token; after a right PIN the MKEK is unlocked. |
| Authenticator.Authenticator.TryPinHash | src/cbor_client_pin.c:473-500 | The attempt is charged in flash before it is looked at; the three refusals by retries and mismatches. |
| Authenticator.Authenticator.GetTokenCommand | src/cbor_client_pin.c:567-669 | getPinUvAuthToken, both subcommands, has the status, state and token of the specified step; after a right PIN the MKEK is unlocked. |
| Authenticator.Authenticator.SetMinPinCommand | src/cbor_config.c:177-205 | The minimum PIN file is rewritten as specified, one byte of the request included. |
| Authenticator.Authenticator.MakeCredentialCommand | src/cbor_make_credential.c:224-297 | The token gate and RP binding of makeCredential, in the code's order of refusals. |
| Authenticator.Authenticator.GetAssertionCommand | src/cbor_get_assertion.c:196-361 | The token gate of getAssertion and the clearing of the token after user presence. |
| Authenticator.Authenticator.CheckMkek | src/cbor_client_pin.c:267-280 | A raw MKEK is wrapped under the PIN and the session key is zeroed; a wrapped one is left alone. |
| Authenticator.MeasurePin | src/cbor_client_pin.c:406-409 | The PIN length is the position of the first zero byte. |
| Assertion.EligibleExact | src/cbor_get_assertion.c:303-326 | The filter keeps each candidate as often as it was there if it has no extensions, the user is verified, its level is neither 2 nor 3, or it is level 2 and was named in the allow list; and no other. |
| Assertion.ResidentsExact | src/cbor_get_assertion.c:287-301 | Without an allow list the candidates are exactly the RP's stored credentials, in slot order. |
| Assertion.AllowedExact | src/cbor_get_assertion.c:269-284 | An allow list is refused if and only if an entry lacks a part; otherwise its candidates are the credentials that entries of type "public-key" name and that load, in list order. |
| Assertion.AllowedOnly | src/cbor_get_assertion.c:269-284 | A credential is a candidate if and only if some such entry loads as it. |
| Assertion.FilterInPlace | src/cbor_get_assertion.c:303-327 | Freeing and compacting in the one array leaves the eligible credentials at its front, in order and not freed. |
| Assertion.SortInPlace | src/cbor_get_assertion.c:332-340 | The exchange sort in the array is the specified sequence of passes. |
| Assertion.RankedInOrder | src/cbor_get_assertion.c:332-340 | The result is a permutation of the input in non-increasing creation order. |
| Assertion.AssertionsInOrder | src/cbor_get_assertion.c:29-63 | getAssertion and timely getNextAssertion calls hand out every eligible credential once in non-increasing creation order, the number n with the first; exactly n-1 next calls succeed and every further one is NOT_ALLOWED. |
| Assertion.AnswersExactly | src/cbor_get_assertion.c:303-393 | getAssertion answers if and only if the level of some candidate permits it, the user is present if asked for, and nothing else fails: with a newest permitted candidate, and their number if there are several. Which refusal it is otherwise, and when no session is set up. |
| Assertion.StoredAreHandedOut | src/cbor_get_assertion.c:286-326 | The candidates are the RP's first 16 stored credentials, each at the place that the slots before it give; handed out is exactly what its credProtect level permits of them. |
| Assertion.HandedOutExactly | src/cbor_get_assertion.c:287-326 | With no two equal files, a stored credential is handed out if and only if fewer than 16 of the RP's come before it and its level permits it. |
| AssertionLimit.SeventeenthLost | src/cbor_get_assertion.c:287-287 | After 17 registrations at one RP the last credential is eligible and is never handed out. |
| AssertionClock.ExpiryExact | src/cbor_get_assertion.c:36-38 | Over every elapsed time, the exact cases in which the test of the clock readings is the 30-second limit. |
| AssertionClock.StaleServed | src/cbor_get_assertion.c:36-38 | Once the clock has wrapped past a deadline that did not, a session older than 30 seconds is still served. |
| AssertionClock.TimelyExact | src/cbor_get_assertion.c:36-41 | The code's test passes at every call of a session if and only if every gap in real milliseconds is in time. |
| AssertionClock.NoWrapInTime | src/cbor_get_assertion.c:36-41 | While the clock stays clear of wrapping, in time means that every gap is at most 30 seconds. |
| AssertionClock.AssertionsInRealTime | src/cbor_get_assertion.c:29-63 | The hand-out in order, for calls separated by gaps in real milliseconds. |
| AssertionClock.LateEndsSession | src/cbor_get_assertion.c:36-59 | A call that is not in time is refused, and so is every later one. |
| AssertionClock.FailureEndsSession | src/cbor_get_assertion.c:40-63 | A call whose response fails is refused for that, and every later one is NOT_ALLOWED. |
| AssertionEngine.Engine.CollectAllowed | src/cbor_get_assertion.c:269-284 | The allow-list loop loads what it names, passes over what does not load, and stops at a missing part. |
| AssertionEngine.Engine.CollectResidents | src/cbor_get_assertion.c:286-301 | The scan of the files collects the RP's first 16 credentials that load. |
| AssertionEngine.Engine.GetAssertion | src/cbor_get_assertion.c:266-393 | Scan, filter, sort, presence and session set-up have the reply and session of the specification; an older session is left when none is set up. |
| AssertionEngine.Engine.GetNextAssertion | src/cbor_get_assertion.c:29-63 | The cursor has the specified reply and session, clears the session at its end or on any refusal, and never answers with a freed credential. |
| LargeBlobs.StoredOnlyWhenComplete | src/cbor_large_blobs.c:96-140 | Every write keeps nextOffset <= expectedLength <= 2048, and changes the stored blob only when it completes the announced length with a matching truncated hash. |
| LargeBlobs.WriteExactly | src/cbor_large_blobs.c:82-142 | A fragment is received if and only if it is authorized, of at most 960 bytes, next in order and within the announced 17 to 2048; the upload, the stored blob and the status after it, and what a refusal leaves. |
| LargeBlobs.ReadExactly | src/cbor_large_blobs.c:67-81 | A read is refused if and only if it has a length or starts beyond the end; it gives the bytes there, as many as asked for or as there are. |
| LargeBlobs.RunStorable | src/fido.c:388-391 | From the initial blob on, the stored blob always has 17 to 2048 bytes and a matching truncated hash when longer than 17. |
| LargeBlobs.UploadStores | src/cbor_large_blobs.c:96-140 | 17 to 2048 bytes sent in order in any fragments are stored exactly as sent if they are intact, and otherwise leave what was stored. |
| LargeBlobs.ReadAllReassembles | src/cbor_large_blobs.c:67-81 | Reads in chunks of any size, each where the last ended, reassemble the stored blob. |
| LargeBlobs.Writer.WriteFragment | src/cbor_large_blobs.c:82-142 | The two counters and the buffer behave as the abstract upload, with one code for every refusal. |
| Crc16.CalculateCrc | src/otp.c:176-189 | The byte and bit loops compute the specified CRC. |
| Crc16.EightBitsClosed | src/otp.c:180-186 | Eight steps of the bit loop in closed form, two shifts and two XORs. |
| Crc16.PassesExactly | src/otp.c:346-349 | A message has the residue 0xF0B8 if and only if its last two bytes are the little-endian complement of the CRC of what precedes them. |
| Crc16.OneByteDetected | src/otp.c:176-189 | Two messages of one length that differ in one byte never have the same CRC. |
| Crc16.BurstDetected | src/otp.c:176-189 | Nor do two that differ only within two adjacent bytes. |
| OtpLink.AnswerDelivered | src/otp.c:506-516 | An answer of n <= 68 bytes leaves in exactly ceil((n+2)/7) numbered reports whose payloads are the answer and its CRC with the right residue, then one terminator, then status pages. |
| OtpLink.FrameRebuilt | src/otp.c:532-543 | Reports 0 to 9 rebuild the 70-byte frame whatever was received before, and a request is taken at the last one if and only if the CRC fits. |
| OtpLink.PieceTaken | src/otp.c:532-547 | A report with the top bit and a number up to 9 puts its seven bytes in their place, the first one into an empty frame; a request comes of number 9 if and only if the CRC of the 64 bytes follows the slot byte. |
| OtpLink.OthersIgnored | src/otp.c:527-534 | A reset empties the transmit buffer and ends the answer in progress; every other report changes nothing. |
| OtpLink.RequestArrives | src/otp.c:543-560 | A request framed by the host arrives with its slot and data. |
| OtpLink.ChangeFoundExactly | src/otp.c:545-547 | A valid frame with two adjacent bytes changed is taken if and only if the changes are not to the data and not to the checksum. |
| OtpLink.ChangedRequestDropped | src/otp.c:546-547 | A request whose data or checksum is changed within two adjacent bytes of the frame is not taken. |
| OtpLink.ChangedSlotTaken | src/otp.c:546-554 | A request with a changed slot byte is taken, for the other slot. |
| OtpLink.RequestAnswered | src/otp.c:532-595 | After the tenth report of a request, the following polls deliver the application's answer to it. |
| OtpKeyboard.Keyboard.SendFrame | src/otp.c:506-516 | CRC, length and sequence numbers are set as specified, in the frame buffer itself. |
| OtpKeyboard.Keyboard.GetReport | src/otp.c:573-602 | The callback replies and advances as the abstract sender. |
| OtpKeyboard.Keyboard.SetReport | src/otp.c:518-571 | The callback receives, resets and dispatches as specified. |
| OtpCounter.RisingExactly | src/otp.c:260-307 | Over every run the emitted (usage, session) pairs strictly rise if and only if no OTP is emitted after the session counter restarted under a usage counter already shown. |
| OtpCounter.OrderlyRising | src/otp.c:148-169 | With the start-up work done first after every power-up and the usage counter below 0x7fff, the pairs strictly rise over all presses and restarts. |
| OtpCounter.PressesCount | src/otp.c:260-307 | Presses without a restart emit consecutive pairs, the session counter as the low byte, up to the last pair there is. |
| OtpCounter.RestartCounts | src/otp.c:148-169 | A restart goes on with the next usage counter and session 0, or with 0x7fff again. |
| OtpCounter.QueryFirstRepeats | src/otp.c:327-331 | A concrete run in which a status query before the start-up work makes a pair repeat. |
| OtpCounter.LastValueRepeats | src/otp.c:158-163 | A concrete run in which a restart at 0x7fff makes a pair repeat. |
| OtpCounter.Button.InitOtp | src/otp.c:148-169 | The start-up loop steps the usage counters of both slots as specified, and keeps their configurations. |
| OtpCounter.Button.Pressed | src/otp.c:260-307 | A press emits the specified pair and steps both counters, wrap-around included; the other slot is only started. |
| OathRecord.WithCounterExact | src/oath.c:380-394 | Writing a counter back in place sets it, and leaves every tag in its place and every other value as it was. |
| OathRecord.GetReadsBack | src/oath.c:117-141 | Of TLVs written one after the other, with lengths in one, two or three bytes, each tag gives the value that comes first under it. |
| OathRecord.FindPadded | src/oath.c:129-137 | Padding a last, short counter keeps all TLVs before it and makes it eight bytes long. |
| OathRecord.NumberZeros | src/oath.c:131-132 | Zeros in front do not change a counter's value. |
| OathRecord.TruncationExact | src/oath.c:325-331 | The truncated code is the four bytes at the offset in the last nibble, modulo 2^31, always inside the HMAC. |
| OathStore.PaddedRecord | src/oath.c:129-137 | After padding a last counter the record counts from the value that was sent, and keeps its other TLVs. |
| OathStore.AppendedRecord | src/oath.c:125-128 | Without a counter the record gets one of eight zero bytes, and keeps its other TLVs. |
| OathTheorems.PutRefinesUpdate | src/oath.c:143-161 | A consistent put sets the name that it looks for to the prepared record, changes no other name, and keeps names distinct. |
| OathTheorems.PutKeepsBookExactly | src/oath.c:124-158 | A request to put keeps every sound store of 255 files sound if and only if its prepared record is complete and has the name that the put looks for. |
| OathTheorems.IntactConsistent | src/oath.c:124-138 | So does every request whose counter is absent, last, or not padded; and then the name is the one that was sent, the record keeps every TLV but the counter, and one that is not for HOTP is stored as sent. |
| OathTheorems.FileFullExactly | src/oath.c:148-159 | FILE_FULL if and only if all files are used and none has the name; nothing changes then. |
| OathTheorems.DeleteRefinesRemoval | src/oath.c:160-175 | Delete removes just its name, and succeeds if and only if the name is there; which word refuses it otherwise. |
| OathTheorems.CalculateTicks | src/oath.c:344-397 | Calculate moves on the counter of its own HOTP record when it succeeds, and nothing else. |
| OathTheorems.CalculateExact | src/oath.c:316-397 | Calculate succeeds if and only if P2 is 0 or 1, challenge and name are sent, and the name has a record whose key can be used; the response is then the whole HMAC of the counter or the challenge, or its 31-bit truncation of section 5.3 of RFC 4226. Which word refuses it otherwise. |
| OathTheorems.RunKeepsBook | src/oath.c:100-175 | No run of commands whose puts are consistent leaves a name in two files or a record incomplete. |
| OathTheorems.CodesInOrder | src/oath.c:369-394 | Over any run that neither puts nor deletes a name, its responses are the HMACs, whole or truncated, of counter values v, v+1, ... modulo 2^64, one per successful calculate, and its record is unchanged but for the counter. |
| OathTheorems.CodesFromPut | src/oath.c:124-142 | From a put with counter value v, or none for zero, the responses are those for v, v+1, ... under the key that was sent. |
| OathTheorems.ListedOnce | src/oath.c:253-272 | List gives exactly the names that have a record, each once, with the kind of its record. |
| OathTheorems.ListReadsBack | src/oath.c:262-267 | The list response reads back as those kinds and names while names are shorter than 127 bytes. |
| OathTheorems.EntryReadsExactly | src/oath.c:264-267 | A response with one entry reads back if and only if the name is shorter than 127 bytes. |
| OathTheorems.PaddingDuplicates | src/oath.c:129-137 | A concrete put into a sound store of 255 files, whose short counter precedes the name, ends with two records of one name. |
| OathDevice.Oath.FindOathCred | src/oath.c:100-110 | The scan returns the first file that holds the name, and 255 if none does. |
| OathDevice.Oath.Pad | src/oath.c:129-137 | The three writes of the padding, byte by byte, in the command buffer. |
| OathDevice.Oath.CmdPut | src/oath.c:112-158 | Put on the command buffer and the files has the specified word and store, and keeps the store sound when it is consistent. |
| OathDevice.Oath.CmdDelete | src/oath.c:160-175 | Delete has the specified word and store. |
| OathDevice.Oath.CmdList | src/oath.c:248-272 | The response is built file by file as specified. |
| OathDevice.Oath.CmdCalculate | src/oath.c:344-397 | Calculate has the specified word, response and store. |
| Counting.OutputsInOrder | src/oath.c:344-397 | If every step puts out a good number k and moves on, or puts out nothing and stays, the outputs of a run are good and numbered without gaps. |

## Left out

- Parsing of the CBOR command maps and encoding of responses: only the sealed credential's CBOR is modelled byte by byte, with the item kinds its printer writes.
- The SDK's file system is a sequence of byte strings; flash layout, wear, write errors and power loss during a command are not modelled, and a file longer than 65535 bytes is not truncated.
- C heap ownership: credentials and files are values. That delete and update-user go on reading file data through a pointer after the file was deleted or rewritten is not modelled.
- `asn1_find_tag` is not part of this model; its walk is taken to be over single-byte tags with lengths in one byte or after 0x81 or 0x82, ending at a TLV that is cut short.
- A byte read just past the end of an OATH file, for an empty key, is taken to be 0; an OATH key shorter than two bytes is taken to fail the calculation.
- OATH: the access code (set code, validate, reset), calculate-all, HOTP verification and the OTP PIN; `validated` only decides whether a command is refused.
- OathStore.Calculate: requires complete records, which every consistent command keeps; a record that a damaging put left without an eight-byte counter is outside it.
- SealedCredential.LoadCredential: parses the whole map before it looks at a field, and takes only maps of indefinite length. A sealed map that another printer made could load, or fail with another error, in the code.
- ResidentTables.UpdateUser: describes an update whose new id is longer than the buffer as if the buffer were large enough; what the code then does is not modelled, and `ResidentRuns.RunUsersApart` leaves such runs out.
- ResidentEnumeration.CredWalk: what later Nexts answer after the first refused one rests, in the code, on an RP hash buffer that it has freed (src/cbor_cred_mgmt.c:201, 227, 235, 415-417); the model keeps the hash.
- ResidentNames.RunNames: for RP ids without a NUL, as `ResidentUsers.Made` has them; of one with a NUL only the part before it is sealed and stored.
- AssertionEngine.Engine.GetAssertion: requires an allow list of at most 16 entries. The parser stores entries without checking that bound (src/cbor_get_assertion.c:104-125); what it then overwrites is not modelled.
- A pinUvAuthParam of length zero in a configuration command is taken to fail the MAC comparison.
- Key agreement, its regeneration after a wrong PIN, and the token's bytes: a MAC that verifies and a parameter that decrypts are inputs.
- The vendor backup: `has_mkek_mask`, the encrypted device key file and unlocking with it.
- The token usage timer, which nothing calls, and the power cycle after three mismatches, which is flagged but never consulted.
- The upgrade of an 18-byte PIN file at start-up, and reset.
- The user-verified flag that makeCredential reads while building its response: it changes only a token that is not in use but still verified, which `TokenAuthority.RunTokenSane` rules out.
- makeCredential's choice of algorithm and curve, exclude list, attestation and known-apps table: they are inputs to the modelled part as possible refusals or as draft fields.
- Failures in making an assertion response (hmac-secret, large blob key, signature) are one input.
- Large blobs: an unauthorised write is one input.
- Yubico OTP: slot configuration, update, swap, challenge-response, static tickets and the encryption and keyboard output of an OTP; a press of a slot of another kind changes none of the modelled counters.
- OtpLink.Serve: an application that gives no answer is taken to leave the transmit buffer alone.
- USB, HID, CCID and APDU dispatch, button waiting, management and `cbor_get_info`: fixed output or wiring.
