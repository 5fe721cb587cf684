# Attestation: a verified model

The repository verifies hardware attestations from raw bytes to an on-chain credential. These Dafny
modules model its decoders, verifiers and Move packages, and prove what they promise, for all inputs
and all runs. Verify with `dafny verify dfyconfig.toml`.

## How the model is laid out

- `Bytes`, `Tlv`, `Der`: octets and big-endian values; the hand-written BER header parser; the strict
  DER primitives that the `der` crate supplies (sections 8.1 to 8.4 and 10.1 of X.690) and the
  `SliceReader` object whose methods advance over the input.
- `KeyDescription`, `KeyDescriptionEncoding`, `ApplicationId`: the Android attestation extension, its
  encoders, and inversion.
- `Cbor`, `AttestationObject`, `AuthData`, `CoseKey`: the Apple verifier's reading of an attestation
  object through a value tree (section 3 of RFC 8949, section 7 of RFC 9052, section 7.1.1 of RFC 9053,
  sections 6.1 and 6.5.1 of WebAuthn Level 2). `SwiftReader`, `SwiftExtract`: the iOS cursor.
  `Agreement`: the two against each other.
- `StatusText`, `StatusList`, `Revocation`: the status-list cursor against a grammar with recorded
  blanks; serial forms and the chain commitment.
- `Chains`, `AndroidPolicy`, `AppAttest`, `AppAssertion`: chain validation and the three verifiers.
- `Outcome`, `Nitro`, `Compress`, `ActionMessage`, `Ledger`, `LedgerStore`: BCS, the on-chain document
  check, point compression, the signed message, and the protocol as a state machine over whole runs
  with a mutable store whose calls are such runs. `EndToEnd` joins verifiers, enclave and ledger.

A decoder is a function from octets to a value and the octets left over; the loop that computes it is a
method proved equal to it; and the function is tied to an independent encoder, grammar or relation.
Errors are `None`: which error a failure carries is not modelled. A Swift failure is `Throws`, or
`Traps` where an integer conversion or addition would stop the program. An aborting Move call changes
nothing.

X.509 parsing, signature checks and SHA-256 are parameters. SHA-256 is any function to 32 octets, so
binding statements read "equal, or these two inputs are a collision".

## Where code and documentation differ

The model follows the code.

- Tag numbers are read modulo 2^32 (`key_description.rs:336-340`): `checked_shl` checks the shift amount
  only. See `Tlv.EncodedHeaderParses`.
- Status-list keys are documented as hexadecimal without leading-zero padding (`status_list.rs:29`), but
  a serial whose first nonzero octet is below 16 is looked up with a leading 0. See
  `Revocation.SerialHexUnpadded`.
- `roots.rs:49-50` speaks of a byte match of the root's public key and `roots.rs:70` of CA certificates;
  the code compares whole certificates or checks a signature, and discards the CA check. See
  `Chains.ValidateChain` and `Chains.NonCaIssuerAccepted`.
- `device_binding.move:318-320` says that two bindings with identical domain, action and expiry have
  different messages, which holds, and concludes that a receipt for one binding can never authorize an
  action on another, which does not: the message concatenates domain, id and action hash without lengths.
  See `ActionMessages.ClashExactly` and `Ledger.ReceiptCrosses`.
- `device_binding_secp256r1.move:25` and `device_binding_ed25519.move:30` say that the bound key is in the
  form an attestation provides. Apple's is a 65-octet point, but Android's is a SubjectPublicKeyInfo
  (`rust/attest-android/src/lib.rs:159-169`), which `new` binds as it is and `compress` reads as if it were
  a point: the signature is then checked under header octets. And `new` lets the caller choose the scheme,
  so that a P-256 point can be read as one of secp256k1. See `EndToEnd.SignatureUnderDeviceKey`,
  `EndToEnd.Ed25519UnderDeviceKey` and `Compression.OtherCurveMeansOther`.
- `device_binding.move:4-5` calls any witness proof that the key is genuine hardware, which fails in four
  ways. Any package can mint witnesses for a source marker of its own, and receipts for a scheme marker of
  its own (`Ledger.ForeignSourceAccepts`, `Ledger.ForeignSchemeAccepts`). An `AppleAssertion` witness is
  about a key that the requester names (`main.rs:393-396`), so that any key that can sign will do
  (`EndToEnd.SignersCanAssert`). An `AndroidKeyAttestation` witness promises TEE or StrongBox
  (`move/attest_android/sources/source.move:3-7`), but the requester chooses the policy (`main.rs:468-480`),
  which may be the one that checks nothing, and the document does not show it
  (`EndToEnd.PolicyNotInDocument`). And an `AppleAppAttest` witness promises Apple hardware
  (`move/attest_apple/sources/source.move:8-11`), but the document does not show the platform either, so that
  the Apple package mints from Android's documents (`Nitro.SourceNotInDocument`). What types and key do vouch
  for is `EndToEnd.VouchesExactly`. The guard that works: an attestation source, the scheme secp256r1, and a
  bound key of 65 octets of which the first is 04. See `EndToEnd.PointFormVouches` and
  `EndToEnd.GuardedActionsApple`.
- `rust/attest-android/src/lib.rs:55-56` says that `require_device_locked` requires a locked device; without
  a root of trust it is not looked at. See `AndroidVerifier.LockedExactly`.
- `rust/attest-android/src/lib.rs:50-54` says that an empty allow-list without required verified boot accepts
  self-signed boots; it accepts failed ones too. See `AndroidVerifier.FailedBootExactly`.
- `rust/attest-android/src/lib.rs:57-59` says that a REVOKED or SUSPENDED entry aborts verification; any entry
  does, whatever its status. See `Revocation.ListedExactly`.

## Model

| member | source | states |
|---|---|---|
| Tlv.ParseTlvHeader | rust/attest-android/src/key_description.rs:313-376 | the tag loop in a 32-bit word and the length loop yield the base-128 value mod 2^32 and the big-endian length, or an error exactly when the octets do not make a header |
| Tlv.ReadTag | rust/attest-android/src/key_description.rs:325-346 | identifier octets: low form, or digits up to the first octet without continuation bit, shifted through 32 bits |
| Tlv.ReadLength | rust/attest-android/src/key_description.rs:348-373 | short form, or one to four length octets, all inside the buffer |
| Tlv.EncodedHeaderParses | rust/attest-android/src/key_description.rs:329-346 | for every class, constructed bit, length below 2^32 and tag of any size, an encoded header parses to them with the tag mod 2^32, whatever follows |
| Tlv.HeaderRoundTrip | rust/attest-android/src/key_description.rs:313-376 | for tags and lengths below 2^32 the parser inverts the shortest encoding exactly |
| Tlv.HeaderBounds | rust/attest-android/src/key_description.rs:313-376 | every accepted header has a class below 4 and a tag and length below 2^32 |
| Tlv.HeaderPrefix | rust/attest-android/src/key_description.rs:313-376 | a header is decided by its own octets: whatever replaces the rest changes nothing |
| Tlv.HeaderExactly | rust/attest-android/src/key_description.rs:313-376 | octet by octet: a header is accepted exactly when its octets are a tag of five bits or of base-128 digits up to one without the top bit, and a length below 128 or of one to four octets; and then it is the one they spell |
| Der.SignExtend | rust/attest-android/src/key_description.rs:424-432 | filling a zero or all-ones buffer from the right gives the two's-complement value |
| Der.SignExtension | rust/attest-android/src/key_description.rs:589-595 | sign extension to any width keeps the two's-complement value |
| Der.SliceReader.DecodeI32 | rust/attest-android/src/key_description.rs:415-433 | reads an INTEGER of at most four octets by value and advances past it |
| Der.SliceReader.DecodeU64 | rust/attest-android/src/key_description.rs:436-456 | reads a non-negative INTEGER of at most eight octets by value and advances past it |
| Der.SliceReader.DecodeEnumerated | rust/attest-android/src/key_description.rs:459-485 | reads an ENUMERATED of at most four octets, minimal or not |
| Der.SignedIntegerExact | rust/attest-android/src/key_description.rs:415-433 | of all DER INTEGERs the width-n decoder accepts exactly those in the signed range, by value (n = 4 here, n = 8 at lines 584-596) |
| Der.UnsignedIntegerExact | rust/attest-android/src/key_description.rs:436-456 | of all DER INTEGERs exactly 0 to 2^63 - 1 are accepted |
| Der.SignedIntegerCanonical | rust/attest-android/src/key_description.rs:415-433 | an accepted INTEGER re-encodes to exactly the octets read |
| Der.SignedExactly | rust/attest-android/src/key_description.rs:415-433 | octet by octet: identifier 2, fewest octets, at most as many as the decoder takes, and the value is theirs in two's complement |
| Der.UnsignedExactly | rust/attest-android/src/key_description.rs:436-456 | octet by octet: identifier 2, fewest octets, at most eight, top bit clear |
| Der.EnumeratedExactly | rust/attest-android/src/key_description.rs:459-485 | octet by octet: identifier 10 and at most four octets, whatever they are |
| Der.BooleanExactly | rust/attest-android/src/key_description.rs:394 | 01 01 00 and 01 01 FF, and no other octets |
| Der.LengthLimit | rust/attest-android/src/key_description.rs:153-157 | contents of up to 2^28 - 1 octets are read, and no longer ones |
| KeyDescriptions.DecodeRootOfTrust | rust/attest-android/src/key_description.rs:378-412 | the reader calls compute the functional reading, optional boot hash included, and leave the reader after the SEQUENCE |
| KeyDescriptions.ReadField | rust/attest-android/src/key_description.rs:237-252 | one header whose content lies inside the body |
| KeyDescriptions.DecodeField | rust/attest-android/src/key_description.rs:254-296 | dispatch on class and tag number: a recognised field must decode and overwrites, any other is ignored |
| KeyDescriptions.DecodeFields | rust/attest-android/src/key_description.rs:234-301 | the loop accepts exactly bodies that are concatenations of TLVs whose recognised fields decode, and returns the last occurrence of each |
| KeyDescriptions.DecodeAuthorizationList | rust/attest-android/src/key_description.rs:220-302 | the list inside its SEQUENCE, and the reader left after it |
| KeyDescriptions.LastContentIsLast | rust/attest-android/src/key_description.rs:257-291 | a field's value is that of the occurrence after which there is no other |
| KeyDescriptions.FieldsConcat | rust/attest-android/src/key_description.rs:236-299 | cutting into fields distributes over concatenation |
| KeyDescriptions.UnknownFieldsIgnored | rust/attest-android/src/key_description.rs:254-296 | inserting or removing fields of unknown tag or other class, anywhere, leaves the result unchanged |
| KeyDescriptions.OrderIrrelevant | rust/attest-android/src/key_description.rs:234-301 | bodies with the same fields and no repeated recognised tag are read alike, in any order |
| KeyDescriptions.EveryFieldDecodes | rust/attest-android/src/key_description.rs:254-296 | a body is accepted exactly when every field with tag 701, 704, 705, 706 or 709 decodes, also one that is overridden |
| KeyDescriptions.CodesExactly | rust/attest-android/src/key_description.rs:53-60 | the codes of levels (0 to 2) and of boot states (0 to 3), all others refused |
| KeyDescriptions.FromDer | rust/attest-android/src/key_description.rs:153-170 | the outer SEQUENCE; octets after it are not looked at |
| KeyDescriptions.FromDerBody | rust/attest-android/src/key_description.rs:171-212 | the eight members in order through one advancing reader |
| KeyDescriptionEncoding.RootOfTrustRoundTrip | rust/attest-android/src/key_description.rs:378-412 | every root of trust, with or without boot hash, comes back from its encoding |
| KeyDescriptionEncoding.EnumeratedIsLenient | rust/attest-android/src/key_description.rs:459-485 | an ENUMERATED zero is accepted in more than one spelling, the empty one included |
| KeyDescriptionEncoding.U32Exact | rust/attest-android/src/key_description.rs:270-286 | `n as u32`: exactly the i32 range is accepted and a negative value reads as itself plus 2^32 |
| KeyDescriptionEncoding.AuthorizationListRoundTrip | rust/attest-android/src/key_description.rs:220-302 | every list with in-range fields comes back from its encoding, whatever follows |
| KeyDescriptionEncoding.KeyDescriptionRoundTrip | rust/attest-android/src/key_description.rs:153-212 | from_der returns exactly the description that was encoded, both lists included, whatever follows |
| KeyDescriptionEncoding.MoreIsIgnored | rust/attest-android/src/key_description.rs:153-212 | octets after the eight members, and after the SEQUENCE, are not looked at |
| KeyDescriptionEncoding.MoreAfterHash | rust/attest-android/src/key_description.rs:396-412 | octets after a boot hash are not looked at; without a hash, what follows must be one |
| KeyDescriptionEncoding.KeyDescriptionsDistinct | rust/attest-android/src/key_description.rs:153-212 | different descriptions have different encodings, even as prefixes |
| KeyDescriptionEncoding.SampleParses | rust/attest-android/src/key_description.rs:153-302 | a description in literal octets, with every recognised tag, and the value it has |
| ApplicationIds.DecodePackage | rust/attest-android/src/key_description.rs:547-560 | one package info from the reader |
| ApplicationIds.DecodePackages | rust/attest-android/src/key_description.rs:544-560 | the loop reads all packages in order or fails |
| ApplicationIds.DecodeDigests | rust/attest-android/src/key_description.rs:571-576 | the loop reads all digests in order or fails |
| ApplicationIds.DecodeApplicationId | rust/attest-android/src/key_description.rs:516-582 | the two SETs inside the SEQUENCE |
| ApplicationIds.ApplicationIdRoundTrip | rust/attest-android/src/key_description.rs:516-582 | every list of packages (any i64 version) and digests comes back in order |
| ApplicationIds.MoreIsIgnored | rust/attest-android/src/key_description.rs:516-582 | octets after the two SETs, and after the SEQUENCE, are not looked at |
| ApplicationIds.MoreInPackage | rust/attest-android/src/key_description.rs:547-560 | nor are octets after the version of a package |
| ApplicationIds.SampleParses | rust/attest-android/src/key_description.rs:516-582 | an application id in literal octets, and the value it has |
| Cbor.ItemRoundTrip | rust/attest-apple/src/cbor.rs:29-30 | the value-tree decoder inverts the encoder on every value of major types 0 to 5, nested to any depth, before any octets |
| SwiftReader.CborReader.ReadLength | ios-demo/AttestKitDemo/AppAttestCBOR.swift:45-64 | the argument for each `info`, or an error, and the new position |
| SwiftReader.CborReader.ReadString | ios-demo/AttestKitDemo/AppAttestCBOR.swift:66-88 | a bounds-checked string of the major type asked for |
| SwiftReader.CborReader.ReadInt | ios-demo/AttestKitDemo/AppAttestCBOR.swift:91-101 | unsigned and negative integers by value; a value beyond Int64 traps |
| SwiftReader.CborReader.SkipValue | ios-demo/AttestKitDemo/AppAttestCBOR.swift:104-123 | computes the skip function, terminates on every input, and is entered at most once more than there are octets left, whatever counts are declared |
| Agreement.SkipExact | ios-demo/AttestKitDemo/AppAttestCBOR.swift:104-123 | skipping ends within the input exactly on whole items of types 0 to 5, and then exactly at their end |
| Agreement.SkipOvershoots | ios-demo/AttestKitDemo/AppAttestCBOR.swift:104-123 | past the end of the input skipping only ever stops because the last string was truncated: any octets in place of the missing ones make a whole item that ends there |
| Agreement.SkipUnchecked | ios-demo/AttestKitDemo/AppAttestCBOR.swift:111-113 | a string is stepped over by its length alone, whether or not its octets are there |
| Agreement.StringOfItem | ios-demo/AttestKitDemo/AppAttestCBOR.swift:66-88 | on a whole item a string read succeeds exactly when the item is such a string |
| Agreement.IntOfItem | ios-demo/AttestKitDemo/AppAttestCBOR.swift:91-101 | on a whole item an integer read succeeds exactly when the item is an integer of 64 signed bits |
| Agreement.IntExactly | ios-demo/AttestKitDemo/AppAttestCBOR.swift:91-101 | integers of up to 63 bits are read by value, larger ones stop the program, and anything else is an error |
| SwiftExtract.ReadAuthData | ios-demo/AttestKitDemo/AppAttestCBOR.swift:142-156 | the top-level loop keeps the last authData and skips the rest |
| SwiftExtract.ReadKeyEntry | ios-demo/AttestKitDemo/AppAttestCBOR.swift:180-188 | one key-map entry, dispatched on its integer key |
| SwiftExtract.ReadKeyFields | ios-demo/AttestKitDemo/AppAttestCBOR.swift:173-189 | the key-map loop |
| SwiftExtract.ExtractAttestedPublicKey | ios-demo/AttestKitDemo/AppAttestCBOR.swift:141-201 | the whole extraction computes its functional form |
| AttestationObjects.DecodeAttestationObject | rust/attest-apple/src/cbor.rs:28-104 | the loops over the top-level entries and attStmt: last value per key, text keys only, every x5c an array of byte strings |
| AttestationObjects.DecodeStatement | rust/attest-apple/src/cbor.rs:66-96 | certificates and receipt from attStmt |
| AttestationObjects.ObjectExactly | rust/attest-apple/src/cbor.rs:28-63 | entry by entry: text keys only, and fmt, authData and attStmt are the last entries of these names |
| AttestationObjects.StatementExactly | rust/attest-apple/src/cbor.rs:66-104 | entry by entry: text keys only, every x5c an array of byte strings, the certificates those of the last, the receipt the last that is a byte string, or empty |
| AttestationObjects.MoreIsIgnored | rust/attest-apple/src/cbor.rs:28-30 | octets after the object are not looked at |
| AuthData.ParseExact | rust/attest-apple/src/authdata.rs:30-69 | accepts exactly the layouts of valid authenticator data and returns the data laid out |
| CoseKeys.ExtractP256 | rust/attest-apple/src/cose.rs:22-77 | last value per parameter, the five checks, and 04, X, Y assembled in place: 65 octets |
| CoseKeys.ReadKeyExactly | rust/attest-apple/src/cose.rs:22-77 | a key is read exactly from the maps whose last entries 1, 3 and -1 are 2, -7 and 1 and whose last entries -2 and -3 are byte strings of 32 octets, and it is 04 and these |
| CoseKeys.MoreIsIgnored | rust/attest-apple/src/cose.rs:22-27 | octets after the map are not looked at, and anything but a map is refused |
| Agreement.ExtractorsAgree | ios-demo/AttestKitDemo/AppAttestCBOR.swift:141-201 | if the verifier accepts, the iOS cursor returns the identical key when every authData is a byte string and every key-map entry is readable, and returns nothing otherwise |
| Agreement.CursorKeyExactly | ios-demo/AttestKitDemo/AppAttestCBOR.swift:166-201 | the cursor takes a key from a whole map exactly when every entry is readable, the last 1 and -1 are 2 and 1, and the last -2 and -3 are byte strings of 32 octets |
| Agreement.TextKeyRefused | ios-demo/AttestKitDemo/AppAttestCBOR.swift:173-189 | an object that the verifier takes a key from and the cursor refuses: one text key in the key map |
| Agreement.ExtractorsAgreeOnUniqueKeys | ios-demo/AttestKitDemo/AppAttestCBOR.swift:141-201 | on maps without duplicate keys and with integer key labels the two always agree |
| StatusText.ParseDocumentExact | rust/attest-android/src/status_list.rs:42-91 | the grammar is parsed exactly: one syntax tree, blanks included, for each accepted text, and no other text |
| StatusText.StringText | rust/attest-android/src/status_list.rs:132-159 | a string with well-formed escapes comes back octet for octet, raw |
| StatusLists.Cursor.SkipWs | rust/attest-android/src/status_list.rs:122-130 | moves past exactly the white space |
| StatusLists.Cursor.ExpectChar | rust/attest-android/src/status_list.rs:106-116 | white space, then exactly the expected octet |
| StatusLists.Cursor.ReadString | rust/attest-android/src/status_list.rs:132-159 | white space, then a raw string |
| StatusLists.Cursor.ReadStatusObject | rust/attest-android/src/status_list.rs:161-188 | last status and last reason of the object, and the position after it |
| StatusLists.Cursor.ReadEntries | rust/attest-android/src/status_list.rs:70-84 | the entries inserted under lower-cased serials |
| StatusLists.FromJson | rust/attest-android/src/status_list.rs:42-91 | the cursor program computes the map of the parsed document |
| StatusLists.IndexIsLast | rust/attest-android/src/status_list.rs:76 | for a serial, up to case, the last entry wins |
| StatusLists.LastMemberIsLast | rust/attest-android/src/status_list.rs:172-176 | for a member name the last value wins |
| StatusLists.StatusListRoundTrip | rust/attest-android/src/status_list.rs:42-91 | every document comes back as its map, for all blanks, leading marks and white space, and any text after the last brace |
| StatusLists.StatusListSound | rust/attest-android/src/status_list.rs:42-91 | every accepted text is, once trimmed, a document and a remainder, and the map is that document's |
| StatusLists.LowerOctets | rust/attest-android/src/status_list.rs:76 | octet by octet: A to Z move up by 32, all others stay |
| StatusLists.WhiteSpaceOctets | rust/attest-android/src/status_list.rs:122-130 | white space between tokens is space, line feed, carriage return and tab |
| StatusLists.TrimmedOctets | rust/attest-android/src/status_list.rs:50 | what is trimmed around the text is tab to carriage return, and space |
| StatusLists.SampleParses | rust/attest-android/src/status_list.rs:42-91 | a text with one entry, and the map it is: lower-case serial, status and reason |
| Revocation.HexOfSerial | rust/attest-android/src/lib.rs:224-238 | the loop with its `leading` flag gives two digits per octet from the first nonzero one, or 0 |
| Revocation.HexOctetsAt | rust/attest-android/src/lib.rs:236 | the digits of each octet, high half first, among 0123456789abcdef |
| Revocation.SerialHexByValue | rust/attest-android/src/lib.rs:224-238 | two serials have the same form exactly when they have the same value |
| Revocation.SerialHexUnpadded | rust/attest-android/src/status_list.rs:29 | the form is the documented unpadded key exactly when the serial is zero or its first nonzero octet is at least 16 |
| Revocation.PaddedSerialMissed | rust/attest-android/src/lib.rs:239-246 | the serial 10 is not stopped by a list that names it without padding |
| Revocation.CheckStatus | rust/attest-android/src/lib.rs:221-247 | passes exactly when the form is not a key of the list |
| Revocation.ListedExactly | rust/attest-android/src/lib.rs:239-246 | against a parsed list a serial passes exactly when no entry spells its form, letter by letter in either case |
| Revocation.NamedIsStopped | rust/attest-android/src/status_list.rs:76 | an entry that names the form as it is looked up, or in capitals, stops the serial |
| Revocation.CanonicalChainHashInput | rust/attest-android/src/lib.rs:212-219 | the buffer of length words and certificates |
| Revocation.SplitChainBuffer | rust/attest-android/src/lib.rs:212-219 | chains of certificates below 2^32 octets are recovered from the buffer |
| Revocation.ChainBufferInjective | rust/attest-android/src/lib.rs:212-219 | different such chains have different buffers |
| Revocation.LongCertificateCollides | rust/attest-android/src/lib.rs:215 | at 2^32 octets the length word wraps and two chains share a buffer |
| Chains.ValidateChain | rust/attest-android/src/roots.rs:56-109 | accepts exactly non-empty parsed chains, all in window, each signed by the next, whose first anchoring root is the top itself or in window |
| Chains.CheckAnchor | rust/attest-android/src/roots.rs:89-106 | the anchor loop with its early exits |
| Chains.AndroidLeafExactly | rust/attest-android/src/roots.rs:56-134 | in terms of the certificates alone: acceptance is nonempty, all parse, notBefore <= now <= notAfter, each signed by the next, and the first root that equals or signed the last equals it or is in its own period; the leaf is the first |
| Chains.FirstRootDecides | rust/attest-android/src/roots.rs:90-103 | the loop differs from trying every root exactly when the first anchoring root is another certificate outside its window and a later one would do |
| Chains.AndroidAcceptanceInterval | rust/attest-android/src/roots.rs:121-134 | for a fixed chain the accepting clocks form an interval |
| Chains.NonCaIssuerAccepted | rust/attest-android/src/roots.rs:70-75 | a chain whose issuer is not a CA can be accepted, since the check is discarded |
| Chains.ValidateX5cChain | rust/attest-apple/src/roots.rs:42-77 | as Android with one root, and with CA flags and the root's window enforced |
| Chains.AppleLeafExactly | rust/attest-apple/src/roots.rs:42-93 | in terms of the certificates alone: likewise, with all but the leaf CAs, and the root a CA in its own period that signed the last |
| Chains.AppleAcceptanceInterval | rust/attest-apple/src/roots.rs:80-93 | for a fixed chain the accepting clocks form an interval |
| Chains.AppleIsStricter | rust/attest-apple/src/roots.rs:57-74 | with the same root Android accepts whatever Apple accepts, and the converse holds exactly under the extra checks |
| AndroidVerifier.CheckChainStatus | rust/attest-android/src/lib.rs:98-103 | passes exactly when no certificate of the chain is listed |
| AndroidVerifier.CheckBootState | rust/attest-android/src/lib.rs:142-154 | the arms of the match decide the acceptance matrix |
| AndroidVerifier.VerifyAttestation | rust/attest-android/src/lib.rs:89-174 | the pipeline computes the outcome, or nothing, of its functional form |
| AndroidVerifier.DescribedAcceptance | rust/attest-android/src/lib.rs:89-174 | for an accepted chain whose leaf carries the encoding of a description: accepted exactly when its challenge is the one presented, the policy admits it and no serial is listed; and the five fields of the outcome |
| AndroidVerifier.OneChainOneChallenge | rust/attest-android/src/lib.rs:109-112 | accepted calls on one chain have one challenge, under whatever policies and at whatever times |
| AndroidVerifier.AdmitsExactly | rust/attest-android/src/lib.rs:114-157 | the documented acceptance matrix: both levels, device lock, boot state and allow-list |
| AndroidVerifier.RefinementExact | rust/attest-android/src/lib.rs:114-157 | one policy admits no more descriptions than another exactly when it refines it |
| AndroidVerifier.PolicyMonotone | rust/attest-android/src/lib.rs:89-174 | tightening a policy, status list included, never turns rejection into acceptance nor changes an outcome |
| AndroidVerifier.MoreEntriesStricter | rust/attest-android/src/lib.rs:98-103 | adding status entries never turns rejection into acceptance |
| AndroidVerifier.LockedExactly | rust/attest-android/src/lib.rs:137-157 | requiring a locked device guarantees one exactly when verified boot is required as well |
| AndroidVerifier.FailedBootExactly | rust/attest-android/src/lib.rs:142-157 | a failed boot is admitted exactly without required verified boot and with an empty allow-list |
| AndroidVerifier.HardwareExactly | rust/attest-android/src/lib.rs:114-128 | a policy admits hardware levels only exactly when its minimum is not software |
| AndroidVerifier.LevelInHardware | rust/attest-android/src/lib.rs:114-128 | with minimum TEE exactly those in hardware are accepted, of all that the same policy at software level accepts |
| AndroidVerifier.SomePolicyExactly | rust/attest-android/src/lib.rs:89-174 | an outcome is reached under some policy exactly when it is under the policy that checks nothing |
| AndroidVerifier.AcceptingClocksConvex | rust/attest-android/src/lib.rs:89-174 | accepting clocks form an interval and only the timestamp depends on them |
| AndroidVerifier.DetailHashCommits | rust/attest-android/src/lib.rs:165 | equal detail hashes mean equal chains or a hash collision |
| AppAttest.AcceptedMeans | rust/attest-apple/src/lib.rs:62-134 | acceptance octet by octet: authenticator data, nonce, key hash and outcome |
| AppAttest.AcceptedExactly | rust/attest-apple/src/lib.rs:62-134 | octet by octet: format, nonce, and the 55 octets and more of `DataExpected`, the environment in literal octets among them; and the outcome |
| AppAttest.DataExpectedExactly | rust/attest-apple/src/lib.rs:101-123 | the checks on parsed authenticator data are those on its octets |
| AppAttest.ExpectedDataAccepted | rust/attest-apple/src/lib.rs:62-134 | every object with the expected authenticator data is accepted with that outcome |
| AppAttest.OneNonceOneAttestation | rust/attest-apple/src/lib.rs:83-99 | two accepted calls with one leaf nonce have the same authenticator data, challenge and key, or a hash collision |
| AppAttest.OneAttestationOneExpectation | rust/attest-apple/src/lib.rs:95-118 | and the same key id and environment, and application up to a collision |
| AppAttest.AppStoresAttestedKey | ios-demo/AttestKitDemo/AppAttestCBOR.swift:141-201 | the key the verifier attests is the one the app stores exactly when the cursor can read the object |
| AppAttest.AcceptingClocksConvex | rust/attest-apple/src/lib.rs:79-81 | accepting clocks form an interval |
| AppAssertions.DecodeAssertion | rust/attest-apple/src/assertion.rs:105-129 | the loop over the entries: last signature and authenticator data, text keys only |
| AppAssertions.ReadAssertionExactly | rust/attest-apple/src/assertion.rs:105-129 | entry by entry: text keys only, and the last entries named signature and authenticatorData |
| AppAssertions.AssertionExact | rust/attest-apple/src/assertion.rs:50-102 | an encoded assertion is accepted exactly when its signature is good for the key that the caller names, over the data and for the application |
| AppAssertions.OneDigestOneAssertion | rust/attest-apple/src/assertion.rs:79-87 | accepted assertions over one digest have the same authenticator data, client data and application, or a hash collision |
| Outcomes.BcsExact | rust/attestation-core/src/lib.rs:60-68 | decoding is exactly the inverse of encoding |
| Outcomes.BcsPrefixFree | rust/attestation-core/src/lib.rs:234-255 | every strict prefix and every extension of an encoding is rejected |
| Outcomes.OutcomeLayout | rust/attestation-core/src/lib.rs:60-68 | the octets of a short outcome: length and content field by field, in order, with the time in eight octets, least significant first |
| Outcomes.FieldLimit | rust/attestation-core/src/lib.rs:60-63 | fields of up to 2^31 - 1 octets are encoded, and no longer ones |
| Nitro.CheckPcrs | move/attest_apple/sources/attestation.move:119-147 | passes exactly when every entry 0, 1, 2 is the pinned one and each occurs |
| Nitro.PcrsExactly | move/attest_apple/sources/attestation.move:119-147 | entry by entry: each numbered 0, 1 or 2 is the pinned one of that number, and each number occurs |
| Nitro.Verify | move/attest_apple/sources/attestation.move:77-117 | mints the witness exactly when measurements, payload hash, freshness and public key are in order |
| Nitro.MintExactly | move/attest_android/sources/attestation.move:72-100 | a witness is minted exactly with measurements, hash of the payload, public key and window in order, and its fields are the payload's |
| Nitro.PayloadLayout | rust/enclave-server/src/main.rs:241-246 | the octets of short payloads: length and content field by field, in order |
| Nitro.FreshExact | move/attest_android/sources/attestation.move:87-90 | the accepting clocks are timestamp - 30000 to timestamp + 300000 |
| Nitro.FreshAborts | move/attest_android/sources/attestation.move:87-90 | at any time: inside the window, and neither addition overflows |
| Nitro.EncodeInjective | rust/enclave-server/src/main.rs:241-246 | payload encodings are injective, and two fields never encode as three |
| Nitro.MintedAsHashed | move/attest_apple/sources/attestation.move:93-116 | what a consumer reads off a witness, field by field, is what the enclave hashed, at the document's own time, or there is a hash collision |
| Nitro.SourceNotInDocument | move/attest_android/sources/attestation.move:72-100 | the Apple and Android packages mint from the same documents and payloads |
| Compression.Compress | move/device_binding_secp256r1/sources/device_binding_secp256r1.move:34-44 | the loop gives parity prefix and X; a key under 65 octets aborts |
| Compression.CompressedExact | move/device_binding_secp256k1/sources/device_binding_secp256k1.move:35-45 | two keys compress alike exactly when X and the parity of the last octet agree |
| Compression.PrimeDividesFactor | move/device_binding_secp256r1/sources/device_binding_secp256r1.move:34-44 | Euclid's lemma, on which injectivity rests |
| Compression.CompressionInjective | move/device_binding_secp256r1/sources/device_binding_secp256r1.move:34-44 | on a curve over any odd prime field, equal compressions mean equal points |
| Compression.UnreducedCollide | move/device_binding_secp256k1/sources/device_binding_secp256k1.move:35-45 | without reduced Y: on any curve over an odd prime of at least 2^255 a point has a second key with its compression, solving its equation, exactly when 2p - Y fits in 32 octets |
| Compression.SpkiCollideExactly | move/device_binding_secp256r1/sources/device_binding_secp256r1.move:34-44 | two P-256 SubjectPublicKeyInfos compress alike exactly when six octets of X and the parity of one middle octet agree |
| Compression.SpkiAsPoint | move/device_binding_secp256r1/sources/device_binding_secp256r1.move:34-44 | such a compression is that of a point exactly when X of that point is 25 header octets, 04 and those six octets |
| Compression.FormDecides | move/device_binding_secp256r1/sources/device_binding_secp256r1.move:23-30 | an attested value compresses to its own point exactly when it is the point, save for one X coordinate and one parity |
| Compression.BoundKeyMeans | move/device_binding_secp256r1/sources/device_binding_secp256r1.move:23-30 | the compressed octets stand for the attested point exactly when it is a point of the scheme's curve and the value is the point, save for one X coordinate and one parity |
| Compression.MeansOnePoint | move/device_binding_secp256r1/sources/device_binding_secp256r1.move:34-44 | key octets stand for at most one point of a curve over an odd prime field |
| Compression.OtherCurveMeansOther | move/device_binding_secp256k1/sources/device_binding_secp256k1.move:27-30 | each curve's base point is what its own compression stands for there; that of P-256, in the right form, is not what it stands for on secp256k1 |
| ActionMessages.BuildMessage | move/device_binding/sources/device_binding.move:143-150 | the appended parts are the canonical message |
| ActionMessages.MessageLayout | move/device_binding/sources/device_binding.move:143-150 | the octets of a message: 33 of prefix, domain, 32 of id, action hash, and the expiry in eight, least significant first |
| ActionMessages.MessageSeparates | move/device_binding/sources/device_binding.move:143-150 | equal messages with domains (or action hashes) of equal length are for the same binding, domain, action and expiry |
| ActionMessages.ClashExactly | move/device_binding/sources/device_binding.move:143-150 | for two given ids and domain lengths one message serves both exactly when the ids lie 32 octets apart or agree where they overlap |
| ActionMessages.ScopedExactly | move/device_binding/sources/device_binding.move:318-334 | for the ids and the domain lengths in use, exactly when every message is for one binding only |
| ActionMessages.LengthsDecide | move/device_binding/sources/device_binding.move:318-334 | domains of one length always scope, and lengths 32 or more apart never do, whatever the ids |
| Ledger.StepInvariant | move/device_binding/sources/device_binding.move:69-133 | every step keeps the invariant |
| Ledger.AcceptedActionsAuthorized | move/device_binding/sources/device_binding.move:69-123 | in every run each accepted action has, before it: its binding; unless the source type is foreign, an attestation of the bound key under the policy then in force and inside the window; unless the scheme type is foreign, a native check of that key over this canonical message |
| Ledger.SourceShowsDocumentExactly | move/attestation/sources/witness.move:30-44 | accepted actions on bindings of a source all rest on an accepted document, of whatever purpose, that names the key exactly when the source is one of the repository's own |
| Ledger.SchemeShowsSignatureExactly | move/device_binding/sources/device_binding.move:60-62 | accepted actions on bindings of a scheme all rest on a checked signature exactly when the scheme is one of the repository's own |
| Ledger.ForeignSchemeAccepts | move/device_binding/sources/device_binding.move:60-87 | from any world any witness, genuine or not, can be bound under a foreign scheme and an action accepted with no signature checked |
| Ledger.ForeignSourceAccepts | move/attestation/sources/witness.move:30-44 | from any world a foreign source binds any key with no document, and under every scheme signatures of that key are accepted |
| Ledger.ValidSignatureAccepted | move/device_binding/sources/device_binding.move:111-123 | conversely a holder can present any valid signature of the bound key, and the action is accepted exactly when it is over this canonical message and unexpired |
| Ledger.BindingLifeCycle | move/device_binding/sources/device_binding.move:129-133 | destroyed bindings never reappear and live ones keep key, types and issue time |
| Ledger.OnlyHoldersAct | move/device_binding/sources/device_binding.move:69-133 | only the holder moves, uses or destroys a binding; only the attested key is bound, under an id never used |
| Ledger.OtherSteps | move/attestation/sources/witness.move:16-28 | the clock moves to where it is set and never back, a policy update pins what it says, and what is dropped is gone |
| Ledger.RunHolders | move/device_binding/sources/device_binding.move:90-92 | in every run a live binding is held by whoever bound it, or by the recipient of its last transfer |
| Ledger.RunReceipts | move/device_binding/sources/device_binding.move:111-123 | in every run a receipt is used for at most one action, accepted or not |
| Ledger.RunEvents | move/device_binding/sources/device_binding.move:78-82 | in every run the events are those of the bindings made and destroyed, with their ids and types, in order |
| Ledger.RunBalanced | move/device_binding/sources/device_binding.move:69-87 | bindings minted never exceed witnesses minted, by whichever package; bound events are live bindings plus destroyed events |
| Ledger.ReceiptScoped | move/device_binding/sources/device_binding.move:111-123 | under domains of one length a receipt authorizes one action of one binding |
| Ledger.ReceiptCrosses | move/device_binding/sources/device_binding.move:318-334 | in any world, for two held bindings of one key and scheme whose device can sign, one signature gets actions of both accepted exactly when their ids overlay at the two domain lengths |
| LedgerStore.Store.AttestVerify | move/attest_apple/sources/attestation.move:77-117 | in place: a new witness, or no change |
| LedgerStore.Store.SchemeVerify | move/device_binding_secp256r1/sources/device_binding_secp256r1.move:27-30 | in place: a new receipt, or no change |
| LedgerStore.Store.IssueWitness | move/attestation/sources/witness.move:30-44 | in place: a witness of a foreign source, unchecked |
| LedgerStore.Store.IssueReceipt | move/device_binding/sources/device_binding.move:60-62 | in place: a receipt of a foreign scheme, unchecked |
| LedgerStore.Store.New | move/device_binding/sources/device_binding.move:69-87 | in place: uses up the witness, binds its key, emits the event, or no change |
| LedgerStore.Store.TransferTo | move/device_binding/sources/device_binding.move:90-92 | in place: the holder changes and nothing else |
| LedgerStore.Store.VerifyAction | move/device_binding/sources/device_binding.move:111-123 | in place: uses up the receipt and returns whether it authorizes |
| LedgerStore.Store.Destroy | move/device_binding/sources/device_binding.move:129-133 | in place: the object is gone and the event emitted |
| LedgerStore.Store.StoreInvariant | move/device_binding/sources/device_binding.move:69-133 | after any sequence of calls the history is a reachable one and the invariant of the protocol holds |
| LedgerStore.Store.StoreActionsAuthorized | move/device_binding/sources/device_binding.move:111-123 | after any sequence of calls every accepted action is authorized as far as the types of its binding go |
| EndToEnd.OutcomeReachesLedger | rust/enclave-server/src/main.rs:319-331 | the witness that the ledger takes from an enclave's document reads exactly as the payload of the verified outcome, or there is a collision; the registration document yields none |
| EndToEnd.AcceptedActionsAttested | rust/enclave-server/src/main.rs:289-340 | when policies pin the enclave, every accepted action on a binding of an attestation source goes back to a request, under the requester's policy, that the enclave accepted and whose attested value is the bound key, or there is a collision |
| EndToEnd.VouchesExactly | move/device_binding/sources/device_binding.move:69-123 | for every notion of a good request: in all runs every accepted action on a binding of these types and this key goes back to a good accepted request for it, or a collision, exactly when the key cannot act, or the source is an attestation source and all accepted requests for the key are good, or it is the assertion source and no assertion by the key is accepted |
| EndToEnd.AttestationVouchesExactly | move/attest_android/sources/source.move:3-7 | under an attestation source every key that can act goes back to an accepted request; to one of Apple's, or to one in hardware, exactly when no request of another kind for the key is accepted |
| EndToEnd.PointFormVouches | move/attest_apple/sources/source.move:8-11 | under an attestation source a bound key of 65 octets starting with 04 goes back to an Apple request |
| EndToEnd.SignersCanAssert | rust/enclave-server/src/main.rs:411-455 | whoever can sign with a key can have an assertion by it accepted |
| EndToEnd.PolicyNotInDocument | rust/enclave-server/src/main.rs:494-580 | a document is one made for a chain under some policy exactly when it is one made under the policy that checks nothing |
| EndToEnd.PointFormIsApple | rust/attest-android/src/lib.rs:159-169 | an attested value is 65 octets starting with 04 exactly when an Apple request attested it, given that public keys leave the X.509 decoder as DER |
| EndToEnd.SignatureUnderDeviceKey | move/device_binding_secp256r1/sources/device_binding_secp256r1.move:23-30 | the native check behind a receipt ran under octets that stand for the device's point exactly when that is a point of the scheme's curve and the bound value is the point, save for one X coordinate and one parity; and they stand for no other point |
| EndToEnd.Ed25519UnderDeviceKey | move/device_binding_ed25519/sources/device_binding_ed25519.move:29-37 | of an Ed25519 key and its SubjectPublicKeyInfo, exactly the key itself reaches the native check as the key |
| EndToEnd.SpkiSignaturesShared | move/device_binding_secp256r1/sources/device_binding_secp256r1.move:23-30 | two devices bound by SubjectPublicKeyInfo stand for each other when six octets of X and one parity agree |
| EndToEnd.GuardedActionsApple | rust/enclave-server/src/main.rs:289-340 | for a consumer who checks an attestation source, the scheme secp256r1 and a bound key of 65 octets starting with 04: an accepted App Attest request attested that key, and the native check of the accepted action ran under octets that stand for that key, if it is on P-256, and for no other point |

## Left out

- Cryptography (ECDSA, RSA, Ed25519, SHA-256), X.509 parsing, the pinned root files, the Nitro device, the
  loading of Nitro documents and the `kagi` policy object: parameters, records and steps here.
- That the moduli of secp256r1 and secp256k1 are prime: `Compression.CompressionInjective` is stated for
  every odd prime, and statements about the two curves have it as a hypothesis.
- HTTP handlers, hexadecimal decoding, VSOCK bridge, proxy, iOS user interface, scripts and build files.
- UTF-8: text is its octets. Swift turns invalid UTF-8 into an empty key and compares strings up to
  canonical equivalence, which for the ASCII key `authData` is equality; the status list and the BCS
  source are octets with, for BCS, an arbitrary text test.
- Unicode white space and lower-casing outside ASCII in the status list.
- CBOR major types 6 and 7 and indefinite lengths: `Cbor.Item` has no value for them, so
  `Agreement.ExtractorsAgree` speaks of objects without them. The recursion limit of `ciborium` is not
  modelled either; it only makes the verifier accept less.
- Which identifier octets the `der` crate knows: every caller compares the octet with the expected one.
- Where the cursor of the status list stands after a failed read, which is never looked at.
- The Swift call stack: recursion of any depth returns here.
- Object ids: a step of `Ledger` takes an id that no binding has had, as Sui guarantees.
- `Ledger.AcceptedActionsAuthorized`: single use of a signature and immovability of bindings are not
  claimed, because `verify_action` records no nonce and `transfer_to` is public.
- What packages of other sources and schemes check before they issue a witness or a receipt: nothing is
  assumed of it.
- Which documents are genuine: a document stands for one that the platform loaded, and that the pinned
  measurements belong to this enclave is a hypothesis of the statements of `EndToEnd`.
