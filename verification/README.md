# Stratum V2 library: a verified model

A Dafny 4.11 model of a Go library for the Stratum V2 mining protocol, with proofs about it. The model is one
stack: a message becomes bytes, the bytes a frame, the frame two sealed records on a stream, and the other side
turns the stream back into frames and messages. Two theorems go from the handshake to the decoded messages in both
directions: `Transport.SessionDelivers` over a wire that delivers, and `Transport.SessionIntegrity` over a wire that
can do anything.

| file | what it holds |
|---|---|
| `Bytes.dfy` | bytes, integer widths, little-endian numbers |
| `U256.dfy` | 256-bit addition, subtraction and target comparison (`types.go`) |
| `Codec.dfy` | field semantics of the binary format, short reads and panics included (`binary.go`) |
| `Binary.dfy` | the mutable `BinaryBuilder` and `BinaryReader`, proved against `Codec` |
| `Messages.dfy` | the 25 message types (`core.go`, `mining.go`): fields in wire order, decoders, laws of all of them |
| `MessageObjects.dfy` | the messages with something special in their encoder or decoder, as objects |
| `Frames.dfy` | frames, TLVs, the stable sort, the scan behind the payload (`types.go`) |
| `Crypto.dfy` | symbolic hashes, key agreement, authenticated encryption and signatures |
| `Ciphers.dfy` | the cipher state and its nonce counter (`noise.go`) |
| `Handshake.dfy`, `HandshakeState.dfy` | the NX handshake as runs and as an object over a connection (`noise.go`) |
| `Transport.dfy` | frames over an encrypted stream, messages end to end (`noise.go`, `types.go`) |

`dafny verify dfyconfig.toml` checks everything.

How things are modelled:

- A decoder leaves in one of three ways: `Fine`, `Failed` (an error value) or `Panicked` (a Go run-time panic). A
  short read returns an empty slice, so the fixed-width readers index it and panic, while byte strings and
  256-bit values record an error; a sequence asserted to its slice type panics on any error. A reader knows
  whether its slice is nil, because a nil slice is read without a panic.
- Imperative code keeps its form: classes with the source's fields for the builder, the reader, frames, cipher
  and handshake states and the special messages, an array for 256-bit values. Each method is tied by its
  postcondition to a function, and the laws are lemmas about those functions.
- A byte on the wire is either a literal or a position in the output of a primitive (`Crypto.Octet`). Outputs
  have their real lengths, and injectivity is structural: key agreement is symmetric, `Open` succeeds exactly on
  what `Seal` made, and the tag is 16 bytes, all by definition. No axiom is used, but the terms are an idealisation:
  hashes and codes without collisions, ciphertexts and signatures nobody can make without the key. The numeric
  value of a symbolic byte is unknown and reads as zero.
- A private key is a number below the group order. Everything public depends on its x coordinate alone, which it
  shares with its negation, so results about keys speak of `PublicX`.
- The counter value at which a cipher stops, `maxNoiseNonce`, comes from a floating-point conversion whose result
  depends on the platform. It is a parameter, `limit`, of every cipher, and the two sides may differ.
- `NominalHashRate` is the four bytes of its float; strings are their bytes. Ephemeral keys and the clock are
  parameters.

Round trips and agreement compare a function with its inverse or one role with the other, and would hold of a
wrong layout on both sides. So every layout is also stated on its own, byte by byte or as hashes of what travels:
`Messages.MessageLayout`, `Frames.EncodeOutcome`, `Frames.DecodedFrame`, `Handshake.ResponderTranscript`,
`Handshake.InitiatorTranscript`, `Handshake.Verdicts`, `Ciphers.NonceLayout`, `Transport.FrameOnTheWire`,
`Transport.DecryptedFrame`.

Where the code and its own documentation disagree the model follows the code:

- `Compare` is documented as numeric order (types.go:474-475) but returns 0 as soon as the first significant
  bytes are equal. `U256.CompareIsNumericExactly` gives the exact condition, `U256.CompareMissesLowBytes` an
  input, and `U256.IsMetBy` what this means for accepting a hash.
- `AddBin16M` is documented for up to 2^24-1 bytes (binary.go:185) but its limit is an exclusive or and equals 25:
  `Codec.Bin16MAcceptsExactly`.
- A payload is documented as split into 65519-byte chunks (constants.go:15), and the decryptor computes lengths
  that way, but the encryptor seals it as one record. `Transport.ExactReach` says which frames get through, and
  `Messages.GroupChannelSize` and `Messages.ExtendedJobSize` which messages do not.
- TLVs are encoded into the payload and looked for behind it (types.go:117): `Frames.EncodeFixpoint`,
  `Frames.RepeatedEncoding`. A tail of exactly five bytes is dropped: `Frames.FieldsBehindPayload`.

## Model

| member | source | states |
|---|---|---|
| U256.Add | types.go:506-516 | leaves the big-endian encoding of the sum of the two numbers modulo 2^256 in the receiver, the modulus written out |
| U256.Sub | types.go:519-534 | leaves the encoding of the difference modulo 2^256, with the borrow in wrapping 16-bit arithmetic |
| U256.AddAndSubUndoEachOther | types.go:505-534 | adding then subtracting, or the reverse, restores every value, wrap-around or not |
| U256.Compare | types.go:477-500 | an absent hash counts as zero; 0 if and only if the values are equal or some index has equal non-zero bytes behind zeros only; otherwise numeric order |
| U256.IsMetBy | types.go:466-472 | accepts exactly the hashes not above the target and those that share its first significant byte |
| U256.CompareIsNumericExactly | types.go:474-500 | the result is the documented numeric order if and only if the values are equal or their first significant bytes differ |
| U256.CompareMissesLowBytes | types.go:493-495 | a concrete hash above its target that compares as equal |
| Bytes.ByteOfNumber | binary.go:60-115 | byte i of a number is that digit in base 256, least significant first |
| Codec.BlobLayout | binary.go:118-199 | a byte string is its length in one, two or three bytes and the bytes, or nothing beyond its limit |
| Codec.SequenceLayout | binary.go:226-282 | a sequence is its count in one or two bytes and its elements' bytes in order, or nothing beyond its limit |
| Codec.FieldsLayout | binary.go:43-48 | a built list is the concatenation of its fields' bytes, and fails if and only if one of them has none |
| Codec.FieldRoundTrip | binary.go:60-292 | any field lying anywhere in a buffer reads back as itself, the cursor ending right behind it |
| Codec.ItemsRoundTrip | types.go:264-409 | for every element type the decode loop returns exactly the list the encode loop wrote |
| Codec.ItemsReadBackReduced | types.go:31-33 | elements too large for their width, 24-bit ones with a top byte, read back as the remainder |
| Codec.SequenceRoundTrip | binary.go:229-282 | a prefixed list within its limit reads back as itself through the reader and through a hand-written loop |
| Codec.LoopAgreesWithReader | mining.go:824-829 | counting and looping by hand gives the result, the cursor and the status of ReadSeq64K on every input, truncated ones included |
| Codec.GetKeepsCursor | binary.go:315-327 | every read keeps the cursor inside the data, never moves it back and never clears an error |
| Codec.GetAllStable | binary.go:315-511 | a list of reads that succeeds gives the same values and position whatever bytes follow |
| Codec.FieldsRoundTrip | binary.go:43-48 | a built list of fields, in any context, decodes to itself with the cursor right behind it |
| Codec.TruncationNeverDecodes | binary.go:319-323 | no strict prefix of a built list decodes without an error or a panic |
| Codec.GetAllCanonical | binary.go:315-511 | whatever fields a reader accepts, the bytes it consumed are what the builder writes for them |
| Codec.TruncatedFieldOutcome | binary.go:346-410 | for every kind of field and every cut, whether reading it panics or is an error |
| Codec.AfterError | binary.go:315-466 | after an error every read gives a zero value and keeps the error, and a type-asserted sequence panics |
| Codec.NilSliceOutcome | binary.go:319-344 | reading a nil slice gives zero values and an error, never a panic but for a type-asserted sequence |
| Codec.MalformedOutcome | binary.go:328-485 | a boolean above one, a Bin32 length above 32 and an option above one: which error or panic, and where the cursor stays |
| Codec.Bin16MAcceptsExactly | binary.go:186-199 | the builder accepts exactly the byte strings of up to 25 bytes, so 26 bytes are refused |
| Binary.BinaryBuilder.AddU24 | binary.go:86-93 | appends the low three bytes of the 32-bit encoding, unless an earlier field failed |
| Binary.BinaryBuilder.AddBlob | binary.go:118-199 | appends length and body, or sets the sticky error and appends nothing when the body is too long |
| Binary.BinaryBuilder.AddSeq | binary.go:226-282 | appends count and elements, or sets the sticky error when there are too many |
| Binary.EncodeSequence | types.go:266-273 | the encode loop of the sequence types writes the elements' wire forms in order |
| Binary.BinaryReader.Read | binary.go:315-327 | the internal `read`: the next bytes, or past the end an error, the cursor at the end and an empty or nil slice |
| Binary.BinaryReader.ReadInto | binary.go:539-549 | the exported `Read`: bytes and cursor, or nothing on an error, at the end and for an empty buffer |
| Binary.BinaryReader.ReadFull | noise.go:532-556 | filling a buffer through it, as decrypting a frame from a byte slice does, takes exactly the next bytes or none |
| Binary.BinaryReader.ReadU24 | binary.go:366-378 | three bytes padded to four give the 24-bit number; a short non-nil slice panics |
| Binary.BinaryReader.ReadBlob | binary.go:468-511 | length then body, checking the length only for Bin32 |
| Binary.BinaryReader.DecodeSequence | types.go:274-280 | the decode loop reads that many elements without stopping at an error, all of the element type |
| Binary.BinaryReader.ReadSeq | binary.go:427-466 | a list, or nil with the error left in place |
| Binary.BinaryReader.ReadAsserted | mining.go:489-489 | the list asserted to its slice type; a nil result panics |
| Messages.FieldsFollowLayout | mining.go:59-831 | what each encoder writes and what its decoder reads are the same kinds in the same order |
| Messages.KindOfTypeNumber | constants.go:28-66 | the number in a frame header determines the message type, so a receiver picks the sender's decoder |
| Messages.TypeNumbersAsDeclared | constants.go:28-66 | the numbers are those of the two declaration blocks, counted from 0 and from 0x10, with the reserved and the custom-job places left out |
| Messages.MessageLayout | mining.go:59-831 | for each of the 25 types, the exact bytes in terms of the members, and the exact limits within which there are any |
| Messages.MessageRoundTrip | mining.go:59-831 | every encodable message followed by any bytes decodes to itself, the cursor at the end of its encoding |
| Messages.MessageTruncation | core.go:26-139 | no strict prefix of a message's encoding decodes as that type |
| Messages.CanonicalDecoding | mining.go:59-831 | whatever bytes decode as some type, the bytes consumed are the encoding of the decoded message, so no message has two encodings |
| Messages.DecodesExactly | core.go:26-139 | bytes decode to a message, ending at a position, if and only if they are its encoding up to there |
| Messages.EncodingsArePrefixFree | mining.go:59-831 | within a type no encoding is a prefix of another, so encoding is injective |
| Messages.MessageSize | mining.go:59-831 | encodings are never empty and never exceed 24 bits of length; all types but two take at most 2560 bytes |
| Messages.GroupChannelSize | mining.go:816-820 | encodes exactly up to 65535 channels, and fits one record exactly up to 16378 |
| Messages.ExtendedJobSize | mining.go:564-577 | encodes exactly within its four prefixes, to the given number of bytes |
| MessageObjects.SetupConnection.Encode | core.go:26-40 | the builder calls in order give the message's encoding or fail when it has none |
| MessageObjects.SetupConnection.Decode | core.go:41-54 | the reads in order leave the decoded message in the fields; after an error they hold what was read before it and zeros |
| MessageObjects.OpenExtendedMiningChannel.Encode | mining.go:130-140 | encoding the embedded message first and appending the extra field gives the encoding of the whole |
| MessageObjects.OpenExtendedMiningChannel.Decode | mining.go:141-151 | reading the embedded fields and the extra one decodes the whole; after an error the fields hold what was read before it and zeros |
| MessageObjects.SubmitSharesExtended.Encode | mining.go:360-369 | the same for the share message and its extranonce |
| MessageObjects.SubmitSharesExtended.Decode | mining.go:370-382 | the same for the share message and its extranonce, with the fields left after an error |
| MessageObjects.NewMiningJob.Decode | mining.go:483-494 | decodes the optional time through the type assertion, panics included; after an error the fields hold what was read before it and zeros |
| MessageObjects.NewExtendedMiningJob.Encode | mining.go:564-577 | the builder calls in order give the message's encoding or fail when it has none |
| MessageObjects.NewExtendedMiningJob.Decode | mining.go:578-591 | decodes option, flag, path and both byte strings, with every error and panic; after an error the fields hold what was read before it and zeros |
| MessageObjects.SetGroupChannel.Decode | mining.go:821-831 | the counted loop of the decoder decodes the message; after an error the fields hold what was read before it and zeros |
| MessageObjects.ReadIDs | mining.go:825-829 | the loop reads as many identifiers as counted |
| Frames.StableSortSpec | types.go:124-132 | sorted by extension type, a permutation, and the order within each type kept |
| Frames.SortedUnique | types.go:119-132 | a sorted list is determined by its fields of each type, so every stable sort gives the same list |
| Frames.SortStable | types.go:124-132 | sorts to that list |
| Frames.OrderIndependence | types.go:118-145 | reordering TLVs across extension types changes neither the bytes nor the frame left behind |
| Frames.EncodeOutcome | types.go:112-153 | when encoding succeeds, the frame left at every exit, and the bytes: six header bytes by index, the old payload, one spelled-out piece per TLV in stable order of extension type |
| Frames.Frame.Encode | types.go:112-153 | the bytes or the error, and the whole frame as the call leaves it |
| Frames.Frame.Decode | types.go:156-185 | the outcome and the whole frame as the call leaves it, fields scanned before an error and reads into spare capacity included |
| Frames.Frame.ScanTLVs | types.go:170-182 | the loop appends exactly the fields of the scan and ends with its outcome |
| Frames.DecodeOutcome | types.go:156-185 | for every buffer and capacity: a panic, success or an error, each if and only if a condition on the bytes holds |
| Frames.DecodedFrame | types.go:156-185 | the header fields by byte index, the payload, and the TLVs added: the tail is their spelled-out pieces and a rest, which after an error is a field cut short |
| Frames.TLVRead | types.go:239-246 | a TLV field by byte index, or nothing when its value is cut short |
| Frames.ScanSound | types.go:239-246 | every scan splits the bytes into its fields and a rest, and ends without an error if and only if the rest is under five bytes |
| Frames.ScanComplete | types.go:169-183 | any concatenation of well-formed fields with fewer than five bytes behind it scans to exactly them |
| Frames.TailIsFields | types.go:169-183 | the bytes behind the payload of a decoded frame are its fields and a rest under five bytes |
| Frames.FieldsBehindPayload | types.go:165-183 | payload and fields decode to themselves if and only if the tail is longer than five bytes or there are no fields |
| Frames.PlainFrameRoundTrip | types.go:112-169 | a frame without TLVs survives encode and decode if and only if its length fits 24 bits |
| Frames.EncodeFixpoint | types.go:112-169 | encoding moves the sorted TLV block into the payload; decoding that and encoding again gives the same bytes |
| Frames.RepeatedEncoding | types.go:140-145 | k encodings append the block k times and keep the length field equal to the payload length |
| Crypto.HKDFInjective | noise.go:628-633 | either output determines chaining key and input |
| Crypto.ECDHSymmetric | noise.go:408-414 | both roles compute the same secret |
| Crypto.SharedPoint | noise.go:408-414 | the point behind a secret: the product of both keys, or a multiple of bytes that come from no key |
| Crypto.SameXExactly | types.go:21-22 | two private keys have the same x coordinate if and only if they are equal or each other's negation |
| Crypto.OpenExactly | noise.go:473-492 | opening succeeds exactly on what sealing made with the same key, nonce and associated data |
| Ciphers.LengthFormula | noise.go:615-621 | the formula is the sum over 65519-byte chunks, one 16-byte tag for each started chunk |
| Ciphers.LengthIncreases | noise.go:615-621 | the formula is strictly increasing |
| Ciphers.OneRecordExactly | noise.go:615-621 | it is the length of one sealed record if and only if the plaintext has 1 to 65519 bytes |
| Ciphers.NonceLayout | noise.go:434-441 | a nonce is four zero bytes and the counter, little-endian |
| Ciphers.CipherState.GetNonce | noise.go:434-441 | returns that nonce for the counter and moves the counter on |
| Ciphers.SealedUnder | noise.go:465-474 | a keyed cipher below its limit seals under exactly that nonce and counts up |
| Ciphers.OpenedUnder | noise.go:479-493 | it opens to a plaintext exactly that plaintext sealed under that nonce, and a failure changes nothing |
| Ciphers.NonceInjective | noise.go:435-441 | different counters have different nonces |
| Ciphers.CipherState.EncryptWithAd | noise.go:465-474 | passes data through without a key, refuses at the limit, otherwise seals under four zero bytes and the counter and moves it on |
| Ciphers.CipherState.DecryptWithAd | noise.go:479-493 | the same for opening, the counter moved on and, on failure, back |
| Ciphers.PerformStep | noise.go:465-493 | a successful call counts up by one, a failed one changes nothing |
| Ciphers.NonceMachine | noise.go:465-493 | over every run of calls the counter is the start plus the successes and never passes the limit |
| Ciphers.ExhaustedForever | noise.go:469-485 | at the limit every later call fails and nothing changes |
| Ciphers.OutputsUseDistinctNonces | noise.go:465-474 | two ciphertexts returned in one run are never sealed under the same nonce |
| Ciphers.SealsCoverOutputs | noise.go:465-474 | every ciphertext returned is sealed under one of the recorded uses |
| Ciphers.RunSealsOnce | noise.go:425-474 | one cipher never seals twice under the same nonce |
| Handshake.CertificateLayout | noise.go:45-63 | the bytes of a certificate, with and without its signature |
| Handshake.NewCertificateSigns | noise.go:714-734 | version 0, the window, and a signature over the hash of these fields' bytes followed by the static x coordinate |
| Handshake.Verdicts | noise.go:143-170 | when each verdict is returned; the positive one if and only if version, window and a signature over those bytes are right |
| Handshake.CertificateRoundTrip | noise.go:33-52 | a certificate decodes from its 74 bytes to itself |
| Handshake.SignedCertificateVerifiesExactly | noise.go:143-170 | a signed certificate verifies if and only if the x coordinates of authority and static key and the time are right |
| Handshake.StartLayout | noise.go:650-659 | both roles start from the hash of the protocol name and from the hash of that, without a key |
| Handshake.ResponderTranscript | noise.go:282-373 | hash and chaining key as a closed form over the bytes on the wire, the two records with their keys, nonces and associated data, and both transport keys |
| Handshake.InitiatorTranscript | noise.go:173-277 | on any bytes: completion if and only if both records are such seals, and the same closed forms |
| Handshake.InitiatorStateLeft | noise.go:173-277 | the state after a run that completed or failed at either record or before them, in the same terms |
| Handshake.HandshakeAgreement | noise.go:173-373 | both roles complete on each other's messages with equal hash and chaining key, the server's key and certificate, and crossed fresh keys |
| Handshake.StaticRecordBinds | noise.go:220-240 | the initiator accepts a responder's static-key record if and only if both hashed the same two ephemeral keys |
| Handshake.CertificateRecordBinds | noise.go:243-265 | completing with a responder's certificate record means the whole transcript and all keys agree |
| Handshake.HandshakeVerifiesExactly | noise.go:131-141 | after an honest handshake the server verifies if and only if the authority signed it and the time is in the window |
| Handshake.VerifiedMeansSignedFor | noise.go:143-170 | a verified server has the static key and the certificate the expected authority signed, whatever was received |
| Handshake.ResponderMessage | noise.go:324-363 | the responder's 234 bytes are its key and two records sealed at counter zero under the keys stated |
| Handshake.KeysDistinct | noise.go:403-407 | the four keys of a session are pairwise different |
| Handshake.SessionSealsOnce | noise.go:425-474 | no key and nonce pair seals twice over a session, whatever each side encrypts or is asked to decrypt |
| HandshakeObjects.HandshakeState.EncryptAndHash | noise.go:375-385 | the ciphertext and the whole state afterwards |
| HandshakeObjects.HandshakeState.DecryptAndHash | noise.go:386-399 | the plaintext or an error, and the whole state afterwards |
| HandshakeObjects.HandshakeState.MixKey | noise.go:403-407 | new chaining key, and a cipher keyed afresh at zero |
| HandshakeObjects.HandshakeState.Learn | noise.go:220-265 | an accepted static key stays even when the certificate record is refused; the whole state at every exit |
| HandshakeObjects.HandshakeState.PerformHandshakeInitiator | noise.go:173-277 | what is sent and read, when it completes, and every field and cipher it leaves, completed or not |
| HandshakeObjects.HandshakeState.PerformHandshakeResponder | noise.go:282-373 | what is sent and read, when it completes, and the state and ciphers it leaves, completed or not |
| HandshakeObjects.HandshakeState.VerifyServerCertificate | noise.go:131-170 | each verdict if and only if version, window and a signature over the spelled-out bytes say so, for the static key received |
| HandshakeObjects.FullHandshake | noise_test.go:223-283 | the two objects against each other end with twin ciphers in both directions |
| Transport.EncryptFrameObject | noise.go:496-511 | the two records or an error, and cipher and frame as the call leaves them |
| Transport.DecryptFrameFromReader | noise.go:573-610 | the frame or an error, and cipher and stream as the call leaves them |
| Transport.FrameOnTheWire | noise.go:496-511 | the bytes a frame travels as: header and rest of its encoding, each sealed without associated data under successive nonces |
| Transport.DecryptedFrame | noise.go:532-610 | for every stream, which bytes decrypt to which frame, and otherwise where counter and stream stop |
| Transport.ExactReach | noise.go:496-610 | a plain frame comes out of the peer if and only if its payload has 1 to 65519 bytes, whatever follows it on the stream; otherwise one counter value is spent |
| Transport.StreamTransport | noise.go:496-610 | for every list of plain frames the receiver gets exactly those before the first undeliverable one, and counters and stream end where they should |
| Transport.ReceivedIsPrefix | noise.go:573-610 | whatever bytes arrive, if only the sender sealed under the key, the frames received until the first error are the first frames sent, in order |
| Transport.SenderOnlySent | noise.go:496-511 | the sender's own stream satisfies that assumption |
| Transport.FrameOfEncodable | types.go:70-85 | a message makes a frame if and only if it encodes: under the extension given, without TLVs, non-empty, within 24 bits |
| Transport.ReceivesExactly | types.go:108-110 | a frame is received as a message if and only if it names its type and its payload begins with the encoding |
| Transport.MessageEndToEnd | types.go:70-110 | framing, encrypting, decrypting and decoding as the header's type returns the message, under its extension type, if and only if it fits one record; all types but two always do |
| Transport.MessagesDelivered | noise.go:496-610 | a list of messages sent over a cipher pair arrives complete and in order with no byte left |
| Transport.SessionDelivers | noise.go:173-610 | after any handshake the messages each side sends are those the other side decodes |
| Transport.SessionIntegrity | noise.go:173-610 | over any wire, once the initiator accepted a responder's certificate record, each side decodes a prefix of what the other sent until the first error |
| Transport.SendMessage | noise_test.go:321-335 | through the objects one message arrives as itself, in a frame of its extension type, exactly when it encodes and fits one record, the ciphers staying in step |

## Left out

- Curve arithmetic, ElligatorSwift and key generation: foreign arithmetic and a random search; only scalars, encodings and the symmetric secret remain, and key agreement never fails.
- The computations of SHA-256, HMAC, ChaCha20-Poly1305 and Schnorr, and malformed keys or signatures they would reject: symbolic terms.
- Storage of key pairs and base58 authority keys: they wrap libraries that are not part of this model.
- `SetCustomMiningJob`: its decoder does not read the coinbase outputs and its encoder depends on a library that is not part of this model.
- Simple messages as objects: the types whose encoder and decoder only list builder and reader calls are modelled by that list (`Messages.Fields`, `Messages.Layout`); partial assignment of their fields on an error is not captured.
- MessageObjects.SetupConnection.Decode: does not state the fields left by a panic, which unwinds through the decoder.
- MessageObjects.OpenExtendedMiningChannel.Decode: does not state the fields left by a panic, which unwinds through the decoder.
- MessageObjects.SubmitSharesExtended.Decode: does not state the fields left by a panic, which unwinds through the decoder.
- MessageObjects.NewMiningJob.Decode: does not state the fields left by a panic, which unwinds through the decoder.
- MessageObjects.NewExtendedMiningJob.Decode: does not state the fields left by a panic, which unwinds through the decoder.
- MessageObjects.SetGroupChannel.Decode: does not state the fields left by a panic, which unwinds through the decoder.
- HandshakeObjects.HandshakeState.VerifyServerCertificate: gives a negative verdict for malformed keys and signatures, where the source returns a parse error.
- `Seek` on a `BinaryReader`: nothing in the library calls it.
- `Frame.DecodeFromReader` and writing to an `io.Writer`: the same reading without encryption, and delivery of bytes that are already determined.
- The sorting algorithm of the standard library: insertion is used, and `Frames.SortedUnique` shows that any stable sort leaves the same list.
- Aliasing of slices: byte strings are values; spare capacity appears only where it is sliced, in `Frames.Frame.Decode`.
- Concurrent calls on one cipher: each call is one atomic step.
- A TLV value round trip through `TLV.Encode`: the encoder writes the length twice and is marked unfinished; the bytes it writes and the form the decoder reads are modelled.
- Message type names, hex strings, error texts and logging: tables and formatting.
