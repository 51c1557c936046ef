# A verified model of the Tamga Rust SDK

The project models the parts of the licensing SDK where a mistake would be silent: what names a machine,
when an offline file is believed, what a client leaves behind on the server, and bounded arithmetic.
`dafny verify dfyconfig.toml` checks all of it.

- **Machine fingerprints** (`Fingerprint`, `FingerprintReading`, `FingerprintOrder`, `FingerprintRefusal`, `FingerprintDigest`, `Sorting`, `Text`,
  `Utf8`, `Lexicographic`, `Hex`). The canonicaliser gathers components in one pass, sorts an array in place
  and appends to the output. An explicit decoder reads the string back, so two accepted inputs share a
  canonical string exactly when their trimmed pairs are permutations of each other.
- **Offline files** (`Checkout`, `Algorithm`, `KeySet`, `LicenseFile`, `MachineFile`, `VerificationOrder`,
  `FileReading`, `RoundTrip`, `Base64`, `Crypto`). Verification is specified as functions. The same entry points appear a
  second time as step-by-step methods, proved equal to the functions, whose tools for opening and parsing are
  partial functions: their preconditions are granted only for what a trusted key vouches for, so that touching
  the payload any earlier does not verify.
- **Offline proofs** (`Json`, `JsonReader`, `JsonDocument`, `OfflineProof`): the canonical JSON text that is signed names one
  account, machine, fingerprint and dataset.
- **Client protocols** (`Retry`, `Pages`, `Search`, `MachineServer`, `Activation`, `ActivationOutcome`, `Sweep`,
  `Download`).
  `MachineServer.Server` and `Sweep.ProcessServer` are classes whose methods choose freely among what their
  contracts allow: any call may fail, and a failed create or delete may still have happened. Their logs hold every
  call with its answer, and the protocols are stated of those logs.
- **Bounded arithmetic** (`Backoff`, `Binary64`, `Overage`): all `u32` jitter, and the overage test with every
  conversion and product rounded to 53 bits.

`FingerprintReading`, `FileReading`, `JsonReader` and `ActivationOutcome` state the same behaviour a second time from
the outside: in literal strings and constants, direct calls of the primitives, and the answers given, without the
definitions the model computes with.

A Rust string is a sequence of Unicode scalar values; where bytes matter it is encoded to UTF-8 explicitly.
Cryptographic primitives and JSON decoding are function-valued parameters (`Foreign.Library`,
`RoundTrip.Issuer`). Nothing is assumed of them but where a lemma names a hypothesis: `OpensWhatItSeals`,
`ReadsWhatItWrites`, `VerifiesWhatItSigns`. SHA-256 and HKDF are any functions to 32 bytes, and a collision is a
case of the statement (`FingerprintDigest.SameFingerprintIff`, `RoundTrip.MachineKeysAgreeExactly`), not assumed away.

## Where the code and its documentation part

The model follows the code; each case is proved.

1. The comment at `src/client.rs:2579-2590` says the early `Content-Length` check cannot change the outcome.
   It can, when the length is overstated or the transfer breaks off: `Download.EarlyCheckMattersExactly` says
   exactly when, `Download.BrokenTransferIsRelabelled` gives an input, and `Download.TruthfulLengthIsHarmless`
   covers the case the comment had in mind.
2. `src/checkout/key_set.rs` documents the early error of the key search for a signature malformed for every
   key. It occurs if and only if the signature is not 64 bytes *and* some held key is valid; with no valid key
   the search ends without a verdict (`KeySet.SearchVerdict`;
   `KeySet.ShortSignatureNeedsAValidKey` is an instance).
3. Acceptance and the canonical string ignore component order; the error of a refused input need not
   (`Fingerprint.OrderVisibleInErrors`). Some order is refused with a given error exactly when it is a component's
   own fault, or two components share a label and one of them is otherwise faultless
   (`FingerprintRefusal.RefusedInSomeOrderExactly`). Order is invisible altogether exactly when there is at most
   one such error (`FingerprintRefusal.OrderInvisibleExactly`).
4. `OverageStrategy::allows` compares floating-point products, which for some limits is not the integer test its
   names promise. For every limit, it is that test for every count exactly when it is right at two counts: the
   last one due and the one after (`Overage.ExactUnderLimitExactly`). The doubled limit errs exactly on counts
   above it that round onto it (`Overage.DoubleErrsExactly`). A limit is safe for every count
   while five, three or two times its size, for 1.25x, 1.5x and 2x, stays within 2^53 (`Overage.AllowsIsExact`);
   the very next limit for 1.25x and 2x, and the third for 1.5x, is not (`Overage.LimitsAreSharp`); further out a count that is due may be refused (`Overage.DueCountRefused`). The
   strategies are ordered by laxity exactly when the limit is not negative (`Overage.ChainNeedsNonNegativeLimit`).
5. The loop of the fingerprint search need not end. It ends whenever replies echo at least the page asked for and
   their page counts are bounded, even if the listing changes meanwhile (`Search.StopsWithin`). Against a server
   whose replies are fixed it runs forever exactly when it asks for some page twice (`Search.NeverEndsExactly`).
6. A process sweep that aborts need not have deleted exactly what it counted: the row of the failing delete may be
   gone although only the reply was lost (`Sweep.LostReplyIsNotCounted`). The rows it deleted are the acknowledged
   deletes plus that one at most, and exactly the acknowledged ones if it was a listing that failed
   (`Sweep.DeleteMachineProcesses`).
7. `src/transport.rs` says of the jitter that different processes get different offsets. They do exactly when their
   ids are not a multiple of 1000 apart (`Backoff.ProcessesDiffer`); processes 1 and 1001 back off in step
   (`Backoff.ProcessesInStep`).

## Model

| member | source | states |
|---|---|---|
| Fingerprint.Gather | src/fingerprint.rs:119-149 | the pass yields every trimmed `label=value` text in input order, or the error of the first component at fault |
| Fingerprint.Canonical | src/fingerprint.rs:110-191 | set, vector, in-place sort and appending loop together meet the specification `CanonicalOf` on every input |
| Fingerprint.AcceptedExactly | src/fingerprint.rs:110-153 | accepted iff non-empty, labels distinct and well formed, and no trimmed value has a control character |
| Fingerprint.RefusalNamesFirstFault | src/fingerprint.rs:119-149 | a refusal is error `e` iff `e` is the fault of some component and no earlier one is at fault |
| Fingerprint.DecodeRecovers | src/fingerprint.rs:154-190 | cutting at 0x1F and then at each first `=` gives back exactly the trimmed pairs of any accepted input, in sorted order, though values may be empty or hold `=` |
| Fingerprint.SameCanonicalIffPermutation | src/fingerprint.rs:154-190 | two accepted inputs share a canonical string iff their trimmed pairs are permutations of each other |
| Fingerprint.OrderInvisible | src/fingerprint.rs:96-191 | permuting components changes neither acceptance nor the string |
| Fingerprint.OrderVisibleInErrors | src/fingerprint.rs:119-149 | a concrete pair of inputs that differ in order only and get different errors |
| FingerprintRefusal.RefusedInSomeOrderExactly | src/fingerprint.rs:119-153 | some order of the components is refused with `e` iff `e` is a component's own label or control-character fault, or two components share a label, one of them is faultless on its own and `e` is that duplicate, or there are none |
| FingerprintRefusal.OrderInvisibleExactly | src/fingerprint.rs:110-191 | every order has the same outcome, error included, iff at most one error is possible |
| Fingerprint.WhitespaceInvisible | src/fingerprint.rs:119-149 | ASCII whitespace around values changes neither the string nor the error |
| FingerprintReading.AcceptedSpelledOut | src/fingerprint.rs:35-45 | accepted iff non-empty, labels distinct, every label non-empty of characters 0x21..0x7E but `=`, and no value has a character below 0x20 or 0x7F between its outer blanks, which are six characters |
| FingerprintReading.RefusedExactly | src/fingerprint.rs:119-153 | refused with `e` iff `e` is the fault, told in the same terms, of the first component that has one, or the input is empty |
| FingerprintReading.CanonicalSpelledOut | src/fingerprint.rs:78-191 | the string is the literal domain, then a 0x1F, label, `=` and value for each pair in code-point order of label and `=`; each value given stands there rid of its outer blanks and of nothing else; the decoder reads these pairs back |
| FingerprintReading.ValueDecides | src/fingerprint.rs:132-146 | two accepted one-component inputs with one label share a string iff their values differ in outer blanks only |
| FingerprintOrder.LabelsDecide | src/fingerprint.rs:154-181 | two components with different labels part at or before the end of the shorter label, on bytes below 0x80 |
| FingerprintOrder.ValuesNeverDecide | src/fingerprint.rs:154-181 | the order of two components is the order of their labels with the `=` attached, whatever the values |
| FingerprintOrder.DecodedLabelsAscend | src/fingerprint.rs:154-190 | the decoded pairs of an accepted input stand in strictly ascending order of `label=` |
| FingerprintOrder.LabelAloneIsAnotherOrder | src/fingerprint.rs:154-181 | sorting by the bare label would give another order, with two valid labels that show it |
| FingerprintDigest.ComputeOf | src/fingerprint.rs:207-227 | a fingerprint is 64 lowercase hexadecimal digits |
| FingerprintDigest.Compute | src/fingerprint.rs:207-227 | the digit-pushing loop spells the digest of the canonical bytes, and passes every refusal on |
| FingerprintReading.DigestSpelledOut | src/fingerprint.rs:207-227 | a refusal is passed on; otherwise the 64 digits are lowercase and read, pair by pair, as the SHA-256 of the string's UTF-8 |
| FingerprintDigest.SameFingerprintIff | src/fingerprint.rs:207-227 | two accepted inputs get one fingerprint iff their trimmed pairs are permutations or their canonical strings collide under SHA-256 |
| Sorting.SinkIntoPlace | src/fingerprint.rs:181 | one step of the in-place sort inserts an element among those before it and leaves the rest of the array alone |
| Sorting.SortUnstable | src/fingerprint.rs:181 | the array ends sorted bytewise, as a permutation of what it held |
| Sorting.SortedIsSortedPermutation | src/fingerprint.rs:181 | the specified order is sorted and loses, adds and merges nothing |
| Sorting.SortedOrderUnique | src/fingerprint.rs:181 | a collection has one sorted order, so any correct sort gives the same canonical string |
| Utf8.EncodeCharMatchesTable | src/fingerprint.rs:154-181 | each encoding has the length, lead byte, continuation bytes and payload bits of the table in section 3 of RFC 3629 |
| Utf8.ByteOrderIsCodePointOrder | src/fingerprint.rs:154-181 | bytewise order of UTF-8 equals code-point order for every two strings |
| Utf8.EncodeInjective | src/fingerprint.rs:154-181 | different strings have different bytes |
| Utf8.EncodesCharByChar | src/fingerprint.rs:154-181 | a string's bytes are its characters' bytes in order |
| Text.TrimSplits | src/fingerprint.rs:119-149 | trimming yields the middle of a string whose flanks are all trimmable and whose ends are not |
| Text.TrimIgnoresFlanks | src/fingerprint.rs:119-149 | trimmable characters added on either side do not show after trimming |
| Text.SplitOnceAt | src/checkout/machine_file.rs:500-547 | a cut at a separator absent from the left part gives both parts back |
| Text.RSplitOnceAt | src/checkout/machine_file.rs:221-243 | a cut at the last separator gives both parts back when it is absent from the right one |
| Text.SplitOfJoin | src/fingerprint.rs:183-190 | splitting undoes joining for pieces free of the separator |
| Hex.Spell | src/fingerprint.rs:207-227 | the loop pushing two digits a byte produces the hexadecimal form of the bytes |
| Hex.Injective | src/fingerprint.rs:207-227 | different bytes have different hexadecimal forms |
| Hex.Reads | src/fingerprint.rs:207-227 | the two digits at `2 * k` are lowercase and read as byte `k` |
| Base64.DecodeOfEncode | src/checkout/machine_file.rs:473-478 | decoding undoes encoding for every byte sequence (section 4 of RFC 4648) |
| Base64.EncodeOfDecode | src/checkout/machine_file.rs:473-478 | a text that decodes is the one canonical encoding of its bytes: stray bits and missing padding are refused |
| Base64.EncodingChars | src/checkout/machine_file.rs:481-497 | an encoding uses the alphabet and padding only |
| Base64.EncodingHasNoDot | src/checkout/machine_file.rs:500-547 | so a dot can separate two encodings |
| Base64.QuantumSpelledOut | src/checkout/machine_file.rs:473-478 | each quantum spells its 24-bit group in the literal 64-character table of section 4 of RFC 4648, with `=` where no byte is left |
| Crypto.EdVerify | src/crypto/ed25519.rs:26-38 | succeeds iff the key is valid, the signature is 64 bytes and it verifies |
| Crypto.PublicKeyFromBase64 | src/crypto/ed25519.rs:73-81 | a key that is read is spelled canonically; every failure is an invalid key |
| Crypto.PublicKeyRoundTrip | src/crypto/ed25519.rs:73-81 | the spelling of any 32-byte key reads back as that key |
| Checkout.FinishIsExact | src/checkout/license_file.rs:454-475 | despite saturation, for every `i64` pair a payload passes iff it parses and has no `exp` or `now <= exp + 60` in unbounded integers |
| Checkout.ExpiryIsFinal | src/checkout/machine_file.rs:550-572 | a payload once refused stays refused, with the same error, at every later time |
| Checkout.PemRoundTrip | src/checkout/machine_file.rs:481-497 | markers and tolerated whitespace around a body are stripped to exactly that body |
| Checkout.PemBodyExactly | src/checkout/machine_file.rs:481-497 | a file yields a body iff it is the two markers around it with white space about each, and nothing else |
| Checkout.WhitespaceIsTabled | src/checkout/machine_file.rs:481-497 | the white space stripped is the 25 code points of `White_Space` |
| Algorithm.GrammarExactly | src/checkout/machine_file.rs:221-243 | `parse_alg` returns `(e, s)` iff the string is `e+s+v2` with a known encoding and `s` non-empty and free of `+` |
| Algorithm.ReadingUnique | src/checkout/machine_file.rs:221-243 | no string has two such readings |
| Algorithm.RefusalNamesTheString | src/checkout/machine_file.rs:221-243 | every refusal of either reader reports the whole string |
| Algorithm.LicenseGateIsMachineParserAtEd25519 | src/checkout/license_file.rs:382-390 | the licence gate accepts exactly what the machine parser reads with suffix `ed25519`, with the same encoding |
| KeySet.FromPublicKeys | src/checkout/key_set.rs:75-87 | the pushing loop builds the strict set, failing at the first bad key |
| KeySet.StrictBuildExactly | src/checkout/key_set.rs:75-87 | a strict build succeeds iff every key is well formed, and then holds each under its own id, in order |
| KeySet.StrictKidsSpelledOut | src/checkout/key_set.rs:75-87 | in a strict set every entry's `kid` is 16 lowercase digits that read as the first eight bytes of the SHA-256 of the key's base64 text |
| KeySet.OneKid | src/crypto/ed25519.rs:45-69 | a key text has one such `kid` |
| KeySet.HeldKidIsNotStale | src/checkout/key_set.rs:210-228 | a probe that yields the `kid` of a held key's text is labelled a failed verification |
| KeySet.LenientHoldsExactlyUsableRows | src/checkout/key_set.rs:104-120 | an entry is held iff some Ed25519 row of the history carries its id and the base64 of its key |
| KeySet.AlgorithmMatches | src/checkout/key_set.rs:104-120 | a row is taken for Ed25519 iff its algorithm is `ed25519` in any case of its letters |
| KeySet.StrictAndLenientAgree | src/checkout/key_set.rs:75-120 | embedding keys and fetching their published history build the same set |
| KeySet.FindIn | src/checkout/key_set.rs:125-130 | a key is found iff an entry carries the `kid`, and it is the first such entry's |
| KeySet.SearchVerdict | src/checkout/key_set.rs:172-187 | a key is found iff one verifies, and is then a held one that does; the search errs iff the length is wrong and some held key is valid |
| KeySet.ShortSignatureNeedsAValidKey | src/checkout/key_set.rs:172-187 | a one-byte signature ends the search under one valid key and gives no verdict under an empty set |
| KeySet.SearchDependsOnHeldSet | src/checkout/key_set.rs:172-187 | reordering or repeating entries changes no verdict of the search |
| KeySet.MoreKeysTrustMore | src/checkout/key_set.rs:172-187 | a larger set trusts every signature a smaller one trusts |
| KeySet.LabelExactly | src/checkout/key_set.rs:210-228 | a stale set is reported iff the probe yields a `kid` no entry has; a missing argument stays the caller's; all else is a failed verification |
| KeySet.SameKidSameLabel | src/checkout/key_set.rs:210-228 | two probes that yield one `kid` get one label |
| KeySet.LabelDependsOnHeldSet | src/checkout/key_set.rs:210-228 | the label ignores order and repetition of entries |
| LicenseFile.BlobOpensExactly | src/checkout/license_file.rs:396-429 | an encrypted `enc` opens to a payload iff it is the canonical base64 of a 12-byte nonce followed by a sealed text that opens to it |
| LicenseFile.VerifyAtExactly | src/checkout/license_file.rs:239-254 | acceptance with answer `v` iff the file parses, its `alg` is supported, the key vouches for the `enc` string, and what it opens to reads as `v` and is fresh |
| LicenseFile.KeySetRefinesSingleKey | src/checkout/license_file.rs:299-320 | a key set accepts with `v` iff single-key verification does under some held key, with the same `v` |
| LicenseFile.VouchedOutcomeIsTheKeys | src/checkout/license_file.rs:299-320 | once a held key vouches for a file, the key set's outcome, value or error, is that key's |
| LicenseFile.OutcomeDependsOnHeldSet | src/checkout/license_file.rs:299-320 | value or error, the outcome is unchanged by permuting or duplicating entries |
| LicenseFile.MoreKeysKeepAcceptance | src/checkout/license_file.rs:299-320 | adding keys never turns acceptance into anything else |
| LicenseFile.KeySetSoundness | src/checkout/license_file.rs:299-320 | acceptance implies a supported `alg`, a held key behind the signature over `enc`, and an unexpired claim |
| LicenseFile.UnverifiedOutcome | src/checkout/license_file.rs:299-320 | when no key verifies a well-formed signature, the error is the label of the probe |
| LicenseFile.UnverifiedFilesWithOneKidFailAlike | src/checkout/license_file.rs:299-320 | two such files whose probes yield one `kid` get the same error |
| LicenseFile.PayloadCannotSpeakFirst | src/checkout/license_file.rs:239-254 | without a verifying signature the outcome is an error that no decryption, payload parser, licence key or clock can influence |
| MachineFile.HalvesOpenExactly | src/checkout/machine_file.rs:500-547 | an encrypted `enc` opens to a payload iff it is the canonical base64 of a 12-byte nonce, a dot, and that of a sealed text that opens to it |
| MachineFile.CheckSignatureExactly | src/checkout/machine_file.rs:323-384 | the check passes iff the caller's own scheme verifies; the JWT scheme never does |
| MachineFile.VerifyAtExactly | src/checkout/machine_file.rs:323-384 | acceptance with `v` iff the file parses, declares the caller's scheme, is vouched for under it, and what it opens to reads as `v` and is fresh |
| MachineFile.KeySetRefinesSingleKey | src/checkout/machine_file.rs:434-470 | a key set accepts with `v` iff Ed25519 single-key verification does under some held key, with the same `v` |
| MachineFile.VouchedOutcomeIsTheKeys | src/checkout/machine_file.rs:434-470 | once a held key vouches for a file, the key set's outcome, value or error, is that key's; an `alg` of another scheme both refuse |
| MachineFile.OutcomeDependsOnHeldSet | src/checkout/machine_file.rs:434-470 | value or error, the outcome is unchanged by permuting or duplicating entries |
| MachineFile.MoreKeysKeepAcceptance | src/checkout/machine_file.rs:434-470 | adding keys never turns acceptance into anything else |
| MachineFile.KeySetSoundness | src/checkout/machine_file.rs:434-470 | acceptance implies an Ed25519 `alg`, a held key behind the signature over `enc`, and an unexpired claim |
| MachineFile.UnverifiedOutcome | src/checkout/machine_file.rs:434-470 | when no key verifies a well-formed signature, the error is the label of the probe |
| MachineFile.UnverifiedFilesWithOneKidFailAlike | src/checkout/machine_file.rs:434-470 | two such files whose probes yield one `kid` get the same error |
| MachineFile.PayloadCannotSpeakFirst | src/checkout/machine_file.rs:323-384 | without a verifying signature the outcome is an error that no decryption, payload parser, secret or clock can influence |
| FileReading.MachineAcceptedExactly | src/checkout/machine_file.rs:323-384 | accepted with `v` iff the file frames a certificate between the literal markers, its `alg` is the scheme's literal string, the scheme's own primitive verifies over the UTF-8 of `enc`, and `enc` is the base64 of a payload, or of a 12-byte nonce and a sealed text that the HKDF key of salt, licence key and fingerprint opens to it, which reads as `v` and is unexpired |
| FileReading.LicenseAcceptedExactly | src/checkout/license_file.rs:239-254 | likewise for licence files, sealed in one blob under the licence key alone |
| FileReading.MachineRefusedExactly | src/checkout/machine_file.rs:323-384 | every refusal, first fault first: scheme, envelope, `alg`, suffix, signature text, signature, opening, payload, expiry |
| FileReading.LicenseRefusedExactly | src/checkout/license_file.rs:239-254 | every refusal, first fault first |
| FileReading.EnvelopeRefusals | src/checkout/machine_file.rs:481-497 | malformed iff nothing is framed, not base64 iff what is framed is not, not JSON iff what that holds is no certificate |
| FileReading.MachineOpeningRefusals | src/checkout/machine_file.rs:500-547 | which error an `enc` that does not open gets: missing licence key before missing fingerprint, the first half before the second |
| FileReading.LicenseOpeningRefusals | src/checkout/license_file.rs:396-429 | base64 is looked at before the licence key is missed |
| FileReading.LicenseKeySetOutcome | src/checkout/license_file.rs:299-320 | the whole outcome under a key set: the early refusals, a search cut short, the opened payload under a verifying key, or the label of the probe |
| FileReading.MachineKeySetOutcome | src/checkout/machine_file.rs:434-470 | likewise for machine files |
| FileReading.ForgeryUnderHeldKid | src/checkout/key_set.rs:210-228 | an unverified file of either format that names the `kid` of an embedded key is reported as a failed verification |
| VerificationOrder.DecodeLicense | src/checkout/license_file.rs:396-429 | computes the licence plaintext with nothing but the decoder and decryptor it has been granted |
| VerificationOrder.EveryLibraryServes | src/checkout/license_file.rs:239-254 | every library can supply the tools the entry points ask for |
| VerificationOrder.DecodeMachine | src/checkout/machine_file.rs:500-547 | computes the machine plaintext with nothing but the decoder and decryptor it has been granted |
| VerificationOrder.FindVerifyingKey | src/checkout/key_set.rs:172-187 | the early-exit loop yields the first verifying key or the early error, though a key may be checked only once every key before it has failed without ending the search |
| VerificationOrder.VerifyLicenseAt | src/checkout/license_file.rs:239-254 | yields the specified outcome though `enc` may be decoded and decrypted, and its plaintext parsed, only if the caller's key vouches for the file |
| VerificationOrder.VerifyMachineAt | src/checkout/machine_file.rs:323-384 | likewise for machine files, under the caller's scheme |
| VerificationOrder.VerifyLicenseWithKeySetAt | src/checkout/license_file.rs:299-320 | yields the specified outcome though `enc` may be opened only once the search is over, the plaintext parsed only if a key was found, and only its `kid` read if none was |
| VerificationOrder.GrantNeedsAVoucher | src/checkout/license_file.rs:299-320 | the key-set readers may parse a payload exactly when some held key vouches for the file |
| VerificationOrder.VerifyMachineWithKeySetAt | src/checkout/machine_file.rs:434-470 | likewise for machine files |
| RoundTrip.EnvelopeRoundTrip | src/checkout/machine_file.rs:481-497 | an issued envelope, with any tolerated whitespace, parses to its certificate |
| RoundTrip.MachineEncOpens | src/checkout/machine_file.rs:500-547 | the server's `enc`, plain or sealed in two halves under its own HKDF derivation from licence key and fingerprint, opens to the payload |
| RoundTrip.LicenseEncOpens | src/checkout/license_file.rs:396-429 | the server's `enc`, plain or sealed in one blob under its own HKDF derivation from the licence key, opens to the payload |
| RoundTrip.CertifiedIsVouched | src/checkout/machine_file.rs:314-384 | a certificate as issued declares its encoding and scheme and is vouched for by the issuer's key |
| RoundTrip.MachineFileRoundTrip | src/checkout/machine_file.rs:314-384 | for every payload, supported scheme, encoding and margin, the issued file is decoded to that payload |
| RoundTrip.LicenseFileRoundTrip | src/checkout/license_file.rs:239-254 | likewise for licence files |
| RoundTrip.KeySetRoundTrip | src/checkout/machine_file.rs:434-470 | a set that holds the signing key makes of both kinds of issued file what the payload's JSON and expiry say, accepted or refused, whatever else it holds |
| RoundTrip.LayoutsDisjoint | src/checkout/license_file.rs:396-429 | each reader refuses the other's encrypted layout, whatever the keys |
| RoundTrip.MachineKeysAgreeExactly | src/crypto/hkdf.rs:34-56 | two machine-file keys are equal iff licence key and fingerprint are, or the two literal HKDF inputs collide |
| RoundTrip.LicenseKeysAgreeExactly | src/crypto/hkdf.rs:58-70 | two licence-file keys are equal iff the licence keys are, or the two literal HKDF inputs collide |
| RoundTrip.DerivationsDisjoint | src/crypto/hkdf.rs:12-28 | a machine-file key is a licence-file key only by a collision of the two literal HKDF inputs, which always differ |
| RoundTrip.HypothesesAreMet | src/checkout/machine_file.rs:314-384 | under every supported scheme some library and issuer meet all hypotheses of the round trips at once, so these are not vacuous |
| JsonReader.DecimalReads | src/proof.rs:54-66 | the digits of a number read back as that number |
| JsonReader.IntegerTextInjective | src/proof.rs:54-66 | different integers have different texts |
| JsonReader.EscapedStringReadsBack | src/proof.rs:54-66 | a reader following section 7 of RFC 8259, surrogate pairs included, gets back from the escaped text the string it came from |
| JsonReader.QuoteReadable | src/proof.rs:54-66 | a quoted string ends where its text says, whatever follows |
| JsonReader.Readable | src/proof.rs:54-66 | equal texts, each followed by a closing delimiter, are texts of equal values with equal remainders |
| JsonReader.PrintInjective | src/proof.rs:54-66 | the printer is injective on JSON values |
| Json.ObjectText | src/proof.rs:54-66 | the text of any object is its members in order, one comma between any two, inside braces, with no space |
| Json.ArrayText | src/proof.rs:54-66 | the text of any array is its elements in order, one comma between any two, inside brackets, with no space |
| JsonReader.ValueReadsBack | src/proof.rs:54-66 | a reader of all of RFC 8259 gets any value back from its text, and stops where the text ends |
| JsonReader.PrintReadsBack | src/proof.rs:54-66 | a whole text reads back as the value it was printed from |
| JsonReader.NothingShorterReadsBack | src/proof.rs:54-66 | no shorter text reads as the same value |
| JsonReader.EscapeShape | src/proof.rs:54-66 | an escape is the character, a backslash and one letter, or `\u00` and two lowercase digits that spell it |
| JsonDocument.InsertAscends | src/proof.rs:54-66 | inserting a key keeps keys strictly ascending and adds no other |
| JsonDocument.GetAfterInsert | src/proof.rs:54-66 | after an insertion the key holds the new value and every other key what it held |
| JsonDocument.LookupsDetermine | src/proof.rs:54-66 | a sorted object is determined by its lookups |
| JsonDocument.BuildHoldsLastGiven | src/proof.rs:54-66 | a built object holds for each key the value last given, and no other key |
| JsonDocument.NormalDecidesDocument | src/proof.rs:54-66 | two constructions are held alike iff they write down one document, at every depth |
| JsonDocument.NormalIsSameDocument | src/proof.rs:54-66 | what is held is the document that was given |
| JsonDocument.NormalIsSorted | src/proof.rs:54-66 | every object in it stands in ascending key order, at every depth |
| JsonDocument.TextDecidesDocument | src/proof.rs:54-66 | two constructions print alike iff they write down one document |
| JsonDocument.InsertionOrderInvisible | src/proof.rs:54-66 | shuffling an object's keys leaves its text alone |
| OfflineProof.UuidTextInjective | src/proof.rs:54-66 | different UUIDs have different hyphenated texts |
| OfflineProof.UuidSpelledOut | src/proof.rs:54-66 | a UUID's text is 36 characters: dashes at 8, 13, 18 and 23, and lowercase digits that read as its bytes |
| OfflineProof.PayloadIsAlphabetical | src/proof.rs:54-66 | the payload is held in alphabetical order at every level, whatever order the code writes |
| OfflineProof.PayloadJsonIs | src/proof.rs:54-66 | the exact text that is signed, letter by letter; only the fingerprint is escaped, and the dataset printed |
| OfflineProof.PayloadBytesDecideSubject | src/proof.rs:54-66 | two payloads have equal bytes iff account, machine and fingerprint are equal and the datasets are one document |
| OfflineProof.VerifyExactly | src/proof.rs:78-96 | accepted iff the proof is the literal `v1x0.` and the canonical base64 of a signature that verifies over this payload |
| OfflineProof.RefusedExactly | src/proof.rs:78-96 | malformed iff the prefix is missing, not base64 iff what follows it is not, otherwise a failed verification |
| OfflineProof.VerifySeesOnlyTheDocument | src/proof.rs:78-96 | rebuilding the dataset in another key order changes no outcome |
| OfflineProof.ProofBindsItsSubject | src/proof.rs:78-96 | a proof accepted for one subject is accepted for another iff they are the same account, machine, fingerprint and dataset, or its signature verifies over both of their different payloads |
| OfflineProof.AcceptedIsGenuine | src/proof.rs:78-96 | where a signature verifies over one genuine subject's payload only, no other subject is accepted with it |
| Backoff.JitterNeverWraps | src/transport.rs:478-483 | for all `u32` pairs the wrapping arithmetic is the unbounded one, and the jitter is below 1000 |
| Backoff.JitterDiffers | src/transport.rs:478-483 | two attempts of one process jitter alike iff they are a multiple of 1000 apart |
| Backoff.ProcessesDiffer | src/transport.rs:470-483 | two processes jitter alike at an attempt iff their ids are a multiple of 1000 apart |
| Backoff.ProcessesInStep | src/transport.rs:470-483 | two concrete processes whose delays agree at every attempt |
| Backoff.DelayGrowsThenLevels | src/client.rs:422-431 | without `Retry-After` the delay increases strictly through attempt 5, then stays in 32000..32999 ms |
| Backoff.DelayIsPowerOfTwoAndJitter | src/client.rs:422-431 | the delay is two to the attempt in seconds, the exponent stopping at 5, plus the jitter |
| Backoff.DelayCapped | src/client.rs:422-431 | no delay exceeds a minute; a served delay up to a minute is obeyed, and a longer one is exactly a minute |
| Retry.SendWithRetry | src/client.rs:461-491 | against every reply sequence the loop returns the reply of the final request, having asked for exactly the delays between; the attempt counter stays in `u32` |
| Retry.FinalRequestUnique | src/client.rs:461-491 | a reply sequence has only one final request |
| Retry.FinalRequestMeans | src/client.rs:461-491 | it is the first when not retryable, otherwise the first reply that is not a 429 or the last permitted 429 |
| Retry.WaitBounded | src/client.rs:422-491 | a call waits at most one minute a permitted retry in all |
| Retry.SafeActionsAreRepeated | src/client.rs:398-415 | every safe action is repeatable under any prefix; no verb but GET and POST ever is |
| Retry.RetryableExactly | src/client.rs:398-415 | repeatable iff a GET, or a POST whose path ends in one of the seven actions, each written out |
| Retry.ThrottledExactly | src/client.rs:461-491 | a reply is worth another try iff its status is 429 |
| Retry.OnlyActionsAreRepeated | src/client.rs:398-415 | a POST is repeated only if its path names an action |
| Retry.CreatesAreSentOnce | src/client.rs:398-491 | so a create is sent exactly once, whatever the server answers |
| Retry.CreatePathsNameNoAction | src/client.rs:885-912 | the paths under which machines, components and processes are created name no action |
| Pages.Page.NextPageNumber | src/models/page.rs:51-53 | the next page is one further and within the total, and is absent iff the page is at or past the last |
| Pages.LastPageEnds | src/client.rs:1589-1637 | the first so many pages end the listing iff they are at least `total_pages` many |
| Pages.PagesConcatenate | src/client.rs:1589-1637 | a truthful server's pages in order are the listing: nothing skipped, nothing twice |
| Search.FirstExact | src/client.rs:1674-1704 | a hit is the first element with exactly this fingerprint, a miss means there is none |
| Search.OnePageOn | src/client.rs:1674-1704 | one page's match is the listing's first, and no match on the last page means there is none |
| Search.SearchPages | src/client.rs:1674-1704 | against any server where the loop ends, it reports what the reply to its last request says, after exactly the requests specified |
| Search.FindingUnique | src/client.rs:1674-1704 | the replies decide the report and the number of requests |
| Search.StopsWithin | src/client.rs:1674-1704 | replies that echo at least the page asked for, with page counts up to a limit, end the search within `max(1, limit)` requests, though the listing change meanwhile |
| Search.NeverEndsExactly | src/models/page.rs:51-53 | against fixed replies the loop runs forever iff it asks for some page twice |
| Search.StuckServerNeverEnds | src/models/page.rs:51-53 | a concrete server that always claims a further page and is asked forever |
| Search.TruthfulSearchEnds | src/client.rs:1674-1704 | against a truthful server the loop ends within its pages, and unless a request fails, on the listing's first exact match |
| Search.FindMachineByFingerprint | src/client.rs:1674-1704 | on the server: the report is the one its logged replies call for, error included; at most `max(1, total_pages)` requests, and the first exact match in listing order, or none |
| Search.SearchAnswersForTheLicense | src/client.rs:1674-1704 | a hit is the licence's own machine; a miss holds iff the licence has none with this fingerprint |
| MachineServer.FilteredKeepsExact | src/client.rs:1674-1704 | a filter that passes exact matches shows all of the licence's and no other licence's |
| MachineServer.Server.Create | src/client.rs:885-912 | at most one row is added, under a fresh id; a fingerprint or limit refusal adds none; a lost reply may hide one; the log shows the answer |
| MachineServer.Server.Delete | src/client.rs:1101-1114 | at most the named row is removed; success means it is gone; the log shows the answer |
| MachineServer.Server.Validate | src/client.rs:669-693 | no row changes; the log shows the answer |
| MachineServer.Server.List | src/client.rs:1589-1637 | whatever page is asked for and whichever requests fail, an answer is a truthful page of the filtered rows; the log shows the answers |
| Activation.OnlyOwnMachineDeleted | src/client.rs:1886-1941 | a delete is only sent for the machine this call created, under auto-delete and on an overage |
| Activation.AdoptionKeepsTheMachine | src/client.rs:1886-1941 | a reused machine is reported, is what the search found, and is never deleted |
| Activation.NoMachineMeansOverage | src/client.rs:1886-1941 | success without a machine carries an overage code, and happens iff a delete was sent or the create was refused for a limit |
| Activation.RefusalRecordsNothing | src/client.rs:997-1023 | after a limit refusal no validation is recorded, and an error is the original refusal |
| Activation.IdempotentRefinesPlain | src/client.rs:951-984 | unless the fingerprint was taken, the same answers draw the same calls from idempotent and plain activation, and each outcome determines the other |
| ActivationOutcome.PlainRefusedForLimit | src/client.rs:997-1023 | a create refused with one of five codes ends in a validation that is not valid, of the licence just read, with the refusal's detail and the code paired with it, or in the refusal itself; the read records nothing and nothing else is sent |
| ActivationOutcome.IdempotentRefusedForLimit | src/client.rs:1886-1941 | likewise, with no machine and nothing reused |
| ActivationOutcome.PlainCreated | src/client.rs:951-984 | a created machine's validation is the outcome; it is deleted iff asked for and the code is one of five |
| ActivationOutcome.IdempotentCreated | src/client.rs:1886-1941 | likewise, reporting the machine iff it was not deleted |
| ActivationOutcome.IdempotentTaken | src/client.rs:1886-1941 | a taken fingerprint is searched for; a hit is validated and adopted, a miss leaves the original refusal |
| ActivationOutcome.OtherRefusals | src/client.rs:951-984 | any other failed create is reported as it is, and nothing more is sent |
| Activation.OverLimitResultWithoutMachine | src/client.rs:997-1023 | reads the licence without recording; the result is the refusal as a failed validation if the logged answer is a success, and otherwise the original error |
| Activation.RollBack | src/client.rs:1886-1941 | removes at most the row the call created, and does if the delete was confirmed |
| Activation.ActivateMachine | src/client.rs:951-984 | the calls and answers in the server's log follow the plain protocol to the result, and rows change by a footprint that fits them |
| Activation.CreateOrAdopt | src/client.rs:1886-1941 | creates, or adopts the licence's first exact match when the logged answer is that the fingerprint is taken; deletes nothing |
| Activation.ActivateMachineIdempotent | src/client.rs:1886-1941 | the calls and answers in the server's log follow the idempotent protocol to the result; rows change by one created and possibly rolled back, as those answers say; an adopted machine was and stays on this licence |
| Activation.EveryDeleteIsOfOwnMachine | src/client.rs:1886-1941 | over a whole run every delete was sent by the request whose own create was answered with that machine and left its row, under auto-delete and on an overage |
| Activation.AccountStep | src/client.rs:1886-1941 | one activation keeps the account of rows made and rolled back |
| Activation.MadeInAnyOf | src/client.rs:1886-1941 | the rows a run made, or rolled back, are exactly those its requests' footprints show |
| Activation.AccountMeans | src/client.rs:1886-1941 | an account means rows = initial + made - rolled back, with nothing initial lost |
| Activation.RunActivations | src/client.rs:1886-1941 | for every run against every server, whichever calls fail: the log is the requests' protocols one after another, and the rows are initial + made - rolled back as their footprints show, each fitting the logged answers |
| Sweep.ProcessServer.List | src/client.rs:1786-1808 | the first page shows distinct existing rows and is empty iff there are none, others deleting meanwhile |
| Sweep.ProcessServer.Delete | src/client.rs:1967-1980 | removes at most the named row; success means this call did, not-found means there was none; a row removed behind a failing answer is counted apart |
| Sweep.DeleteBatch | src/client.rs:2000-2021 | the logged deletes and answers are the protocol's for this batch: rows already gone are passed over, any other failure stops |
| Sweep.DeleteMachineProcesses | src/client.rs:2000-2021 | the log since the start is a run of the protocol that ends in the result; on success no rows are left and counted + removed by others = initial rows; on an error the rows deleted are the acknowledged deletes and one more at most |
| Sweep.CountIsAcknowledged | src/client.rs:2000-2021 | the count a sweep keeps and returns is that of the acknowledged deletes |
| Sweep.EndsWithCause | src/client.rs:2000-2021 | a sweep ends on an empty page, a failed listing, or a delete that failed with anything but not-found, and reports that |
| Sweep.LostReplyIsNotCounted | src/client.rs:2000-2021 | a concrete run whose last delete took effect uncounted |
| Download.DownloadArtifact | src/client.rs:2538-2607 | the chunk loop yields the specified outcome through a buffer that cannot outgrow the ceiling and that holds, however the download ends, the front of what was delivered |
| Download.SucceedsExactly | src/client.rs:2579-2606 | returns a body iff the stream is unbroken, the body is its whole concatenation, and both it and the announced length, if any, fit |
| Download.FailsExactly | src/client.rs:2579-2606 | too large, naming the ceiling, iff the announced length or what is delivered outgrows it; otherwise a transport failure iff the stream breaks |
| Download.DeliveredBeforeBreak | src/client.rs:2579-2606 | what is delivered of a broken stream is the chunks before the break, joined |
| Download.TruthfulLengthIsHarmless | src/client.rs:2579-2606 | on an unbroken stream a truthful length never changes the outcome |
| Download.EarlyCheckMattersExactly | src/client.rs:2579-2606 | the early check changes the outcome iff the length is over the ceiling and the delivered bytes are not |
| Download.BrokenTransferIsRelabelled | src/client.rs:2579-2606 | a concrete broken transfer reported as too large |
| Binary64.RoundMonotone | src/models/policy.rs:197-205 | rounding keeps order |
| Binary64.RoundExact | src/models/policy.rs:197-205 | integers up to 2^53 convert exactly |
| Binary64.RoundDoubles | src/models/policy.rs:197-205 | rounding commutes with doubling |
| Binary64.RoundIdempotent | src/models/policy.rs:197-205 | what has been rounded is representable |
| Binary64.RoundNear | src/models/policy.rs:197-205 | rounding moves any integer by at most one part in 2^52 |
| Binary64.RoundIsNearest | src/models/policy.rs:197-205 | rounding gives a number of at most 53 significant bits, and none such is nearer |
| Binary64.TiesToEven | src/models/policy.rs:197-205 | midway between two, the even multiple is taken |
| Overage.AllowsIsExact | src/models/policy.rs:197-205 | while five (1.25x), three (1.5x) or two (2x) times the limit is within 2^53, the doubled limit 2^53 itself excepted, the test is the exact integer one for every `i64` count |
| Overage.ExactUnderLimitExactly | src/models/policy.rs:197-205 | for every strategy and limit, the test is exact for every count iff it allows the last due count and refuses the next |
| Overage.DoubleErrsExactly | src/models/policy.rs:197-205 | for all `i64` pairs the 2x test errs iff the count is above the doubled limit and rounds to the same number, and it never refuses a due count |
| Overage.UpTo2To50 | src/models/policy.rs:197-205 | every limit up to 2^50 is within that range |
| Overage.LimitsAreSharp | src/models/policy.rs:197-205 | for each factor a limit just outside that range under which one count too many is allowed |
| Overage.DueCountRefused | src/models/policy.rs:197-205 | a limit under which the last due count is refused |
| Overage.AllowsIsMonotone | src/models/policy.rs:197-205 | over all `i64`, smaller counts and larger limits stay allowed |
| Overage.StrategiesFormAChain | src/models/policy.rs:197-205 | for limits that are not negative a laxer strategy allows whatever a stricter one does |
| Overage.ChainNeedsNonNegativeLimit | src/models/policy.rs:197-205 | the first link of that chain holds iff the limit is not negative |

## Left out

- HTTP, TLS, redirects, URL and header handling, the async runtime and real sleeping: only replies and the delays asked for appear.
- The insides of Ed25519, RSA, ECDSA, AES-GCM, HKDF and SHA-256, and zeroization: foreign code, kept as parameters.
- JSON decoding of certificates, claims and resources: parameters; resources are carried unread. The text of serde's own error messages is dropped.
- The wording of the unsupported-algorithm error: the reported string and the expected suffix are kept as structured data.
- Floating-point numbers inside a dataset are carried by their shortest text, which is some number text of section 6 of RFC 8259; that distinct finite floats have distinct texts is taken from the printer.
- The standard library's sort algorithm: an in-place insertion sort stands for it, since `Sorting.SortedOrderUnique` makes the algorithm unobservable.
- Retry.SendWithRetry: does not model the branch for streaming request bodies, which this client never sends.
- Retry.CreatesAreSentOnce: does not model the paths of creates other than machines, components and processes.
- Activation.RunActivations: other clients' changes between the calls of one run are not modelled; they are in `Sweep`.
- Search.FindMachineByFingerprint: does not model a listing that changes between the pages of one search; that such a search still ends is `Search.StopsWithin`, but nothing is said of what it finds.
- VerificationOrder.VerifyLicenseAt: base64 decoding is withheld as a step on the file; as mere arithmetic on strings nothing can withhold it.
- Search.SearchPages: its precondition is that the loop ends, so a run that never ends is described by `Search.NeverEndsExactly` and not by the method.
- Validation codes other than the five overage codes are not told apart, nor are refusals the activations do not act on.
- Download.DownloadArtifact: does not model overflow of the buffer length, which the ceiling keeps far below the machine word.
- Collision freedom of key ids and of SHA-256 is not claimed.
- Plain endpoint wrappers, the configuration builder, heartbeat windows, check-out time-to-live checks, the remaining wire tables: each would add only one-branch facts.
