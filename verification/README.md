# Verified model of the vault services

A Dafny model, with proofs, of the four parts of the vault repository whose correctness is
least visible from reading them: the generated protobuf codec, the audit service's batch
buffer, the versioned keyring with its ciphertext envelope, and the ACL policy evaluator.
`dafny verify dfyconfig.toml` checks everything.

## What is modelled

**Protobuf codec** (`Wire`, `Messages`, `Encoding`, `Decoding`, `MergeLaws`, `RoundTrip`,
`Canonical`, `FieldBoundaries`, `WholeFields`, `MergeSemantics`, `DecodedValues`, `WireForms`, `Marshal`,
`Unmarshal`, `Codec`, `VaultMessages`, `VaultFormats`; `Sequences` holds a fact about sequences used here and there). The generated code is one template unrolled per message. The model keeps the
template and takes the message's field list as data: a `Schema` gives number and kind of each
field, `Marshal` and `Unmarshal` run the generated loops over it, and `VaultMessages` holds the
field lists of the nine messages covered; `VaultFormats` ties each to the literal bytes of its format. Every codec result therefore holds for all schemas of
these field kinds, the nine messages included. Go iterates over maps in an unspecified order, so
the encodings of a message form a relation (`IsEncoding`); sizes are a function. Decoding is
specified on the remaining input; the absolute index enters only where the code adds an index to a
length and tests the 64-bit sum. The wire helpers EncodeVarint, SizeOfVarint and Skip come from an
imported package that is not part of the repository; they are written from the Protocol Buffers
Encoding specification (sections "Base 128 Varints", "Length-Delimited Records", "Groups").

**Audit buffer** (`AuditBuffer`, `AuditService`). A transition system over the atomic steps of writeEntry,
flushWorker, flush and Close, with any number of writers and any integer buffer size. Runs are
sequences of enabled steps, so every interleaving is covered. Class `Service` has the buffer and the
channel slot as fields; its methods, run without interference, are proved to be the system's steps
in program order.

**Keyring and envelope** (`Text`, `Envelope`, `KeyringModel`, `KeyringLaws`, `Keyring`). `KeyringModel` is the
keyring as a state machine on values; class `Keyring` has the policies as objects, the key bytes in
arrays and the cipher cache, and each of its methods is proved to take the state machine's step.
The AEAD is a parameter of which only "open undoes seal" and the tag length are used (section 7 of
NIST SP 800-38D). Base64 is section 4 of RFC 4648 with Go's rules for line breaks and padding.

**ACL policies** (`AclPolicy`, `RuleMeaning`, `PathCoverage`). The evaluator with its loops, proved against "the first decisive
rule of the flattened rule list decides"; what that answer is in terms of the policies as written; and the documented meaning of path patterns, segment by
segment, beside what the code tests. Go's path.Match is a parameter.

## Where the code and a natural reading differ

Each has a concrete witness and an exact condition.

- A map entry's key and value are bounded by the end of the whole input, not of the entry
  (`OverrunWitness`, `StepSelfContained`).
- The documentation says that `*` matches one segment and a trailing `**` everything under a path.
  Before `**` the code compares plain text instead: `secret/**` also covers `secrets/x`, and
  `a/*/**` does not cover `a/b/c` (`LongerSegmentWitness`, `StarBaseWitness`; exactly when in
  `DocumentedExactly`).
- GetCipher does not apply the minimum decryption version that GetKeyVersion applies
  (`BelowMinimumStillDecrypts`, `VersionWindow`).
- Decrypt rejects the encryption of the empty plaintext (`EnvelopeRoundTrip`).
- A call that has taken the buffer's lock when Close is called is stored in every run in which
  Close gets past its wait; one that has not can return normally and never be stored
  (`CloseDrains`, `EntryCanBeLost`).

## Model

| member | source | states |
|---|---|---|
| Wire.ToInt64 | gen/go/common/v1/common_vtproto.pb.go:385-388 | the signed 64-bit reading of a word: in range and congruent to it |
| Wire.ToInt32 | gen/go/common/v1/common_vtproto.pb.go:338 | the signed 32-bit reading of a word: in range and congruent to it |
| Wire.ToUint64 | gen/go/common/v1/common_vtproto.pb.go:77-78 | sign extension of a field value to an unsigned word |
| Wire.VarintRoundTrip | gen/go/common/v1/common_vtproto.pb.go:324-337 | every uint64 reads back from its varint, whatever bytes follow |
| Wire.SignedRoundTrip | gen/go/common/v1/common_vtproto.pb.go:351-365 | int32 and int64 decoding invert the sign-extended encoding for every value; negatives take ten bytes |
| Wire.SizeOfVarintExact | gen/go/common/v1/common_vtproto.pb.go:240-246 | the closed form used for sizing equals the number of bytes written |
| DecodedValues.EncVarintExactly | gen/go/common/v1/common_vtproto.pb.go:73 | a varint is written low group first, continued on all bytes but the last, in the fewest bytes |
| DecodedValues.VarintExactly | gen/go/common/v1/common_vtproto.pb.go:324-337 | any varint of up to ten bytes, minimal or not, reads as its groups modulo 2^64; a longer one overflows, an unfinished one meets the end |
| Wire.TagRoundTrip | gen/go/common/v1/common_vtproto.pb.go:338-339 | field number and wire type are recovered from a key |
| DecodedValues.KeyChecks | gen/go/common/v1/common_vtproto.pb.go:338-350 | which field keys are refused and with which error: end of group, no positive number, wrong wire type |
| Wire.SkipLocal | gen/go/common/v1/common_vtproto.pb.go:527-536 | skipping depends only on the bytes skipped, groups included |
| WholeFields.SkipWholeField | gen/go/common/v1/common_vtproto.pb.go:525-538 | skipping returns the length of one whole field of any wire type, nested groups included |
| WholeFields.ForeignFieldsAreUnknown | gen/go/common/v1/common_vtproto.pb.go:525-538 | concatenated whole fields with numbers outside the schema are valid unknown bytes |
| Messages.Lookup | gen/go/common/v1/common_vtproto.pb.go:346 | the switch on the field number finds the field with that number, or there is none |
| Messages.Empty | gen/go/audit/v1/audit_vtproto.pb.go:3063-3065 | a fresh message has the shape of its schema |
| Encoding.SizeMapAnyKey | gen/go/common/v1/common_vtproto.pb.go:247-254 | the size of a map does not depend on the order it is visited in |
| RoundTrip.EncodingSize | gen/go/common/v1/common_vtproto.pb.go:234-257 | every encoding of a message has exactly the precomputed size |
| WireForms.PartsExactly | gen/go/common/v1/common_vtproto.pb.go:39-83 | an encoding is exactly one part for each field in order, then the unknown bytes |
| WireForms.MapExactly | gen/go/common/v1/common_vtproto.pb.go:51-69 | the encodings of a map are exactly its entries, each once, in any order, with the literal keys of key and value |
| WireForms.MsgExactly | gen/go/audit/v1/audit_vtproto.pb.go:63-72 | a submessage is framed by its key and the length of its own encoding |
| WireForms.RepExactly | gen/go/audit/v1/audit_vtproto.pb.go:1054-1065 | a repeated field is exactly one record for each element, in order |
| Decoding.ReadLen | gen/go/common/v1/common_vtproto.pb.go:370-395 | an accepted length delimits a range inside the input, past the length itself |
| Decoding.DecodeField | gen/go/common/v1/common_vtproto.pb.go:346-524 | an accepted field leaves a value of its type and an index inside the input |
| Decoding.Step | gen/go/common/v1/common_vtproto.pb.go:321-540 | totality: one turn of the loop consumes at least one byte and never passes the end, also for map entries that overrun |
| Decoding.Decode | gen/go/common/v1/common_vtproto.pb.go:318-546 | an accepted input leaves a message of its schema |
| MergeLaws.DecodeAppend | gen/go/audit/v1/audit_vtproto.pb.go:1914-2558 | after an accepted prefix, decoding continues with the rest where the prefix ended |
| MergeLaws.DecodeAnyBase | gen/go/common/v1/common_vtproto.pb.go:389-395 | the absolute index changes at most which error is reported |
| MergeLaws.ConcatenationIsMerge | gen/go/audit/v1/audit_vtproto.pb.go:1911-2564 | if a is accepted, a followed by b is accepted exactly when b is accepted on top of a's result, with the same message |
| MergeSemantics.DecodeMerges | gen/go/audit/v1/audit_vtproto.pb.go:1911-2564 | any input is accepted on top of any message exactly when it is accepted alone, and overlays it: maps are updated, submessages merge, repeated and unknown fields are appended, scalars replaced |
| MergeSemantics.ConcatenationMerges | gen/go/audit/v1/audit_vtproto.pb.go:1911-2564 | after an accepted a, the whole of a and b is accepted exactly when b alone is, and gives the message of a overlaid with that of b |
| MergeSemantics.LastScalarWins | gen/go/common/v1/common_vtproto.pb.go:346-397 | a scalar field the input mentions ends as the input alone leaves it, even at zero and with no old bits; any other keeps its value |
| MergeSemantics.MergeField | gen/go/audit/v1/audit_vtproto.pb.go:3034-3069 | one record, of whatever kind of field, keeps the overlay and is accepted on both sides or on neither |
| RoundTrip.UnknownDecodes | gen/go/common/v1/common_vtproto.pb.go:525-538 | unknown fields are kept byte for byte and in order, nothing else changes |
| RoundTrip.IntDecodes | gen/go/common/v1/common_vtproto.pb.go:347-365 | the written form of an integer field decodes to that integer |
| RoundTrip.BoolDecodes | gen/go/audit/v1/audit_vtproto.pb.go:2260-2279 | the written form of a true flag decodes to true |
| DecodedValues.VarintFieldDecodes | gen/go/audit/v1/audit_vtproto.pb.go:2260-2279 | any uint64 is accepted for a scalar: integers are truncated, a flag is true unless it is zero |
| RoundTrip.StrDecodes | gen/go/common/v1/common_vtproto.pb.go:366-397 | the written form of a string field decodes to that string |
| RoundTrip.EntryDecodes | gen/go/common/v1/common_vtproto.pb.go:430-523 | the entry loop recovers key and value of a written entry |
| DecodedValues.EntryRecords | gen/go/common/v1/common_vtproto.pb.go:430-523 | within an entry the last key and the last value count, a missing one is empty |
| RoundTrip.MapDecodes | gen/go/common/v1/common_vtproto.pb.go:398-524 | decoding a map written in any order adds exactly its entries |
| RoundTrip.DecodeInvertsEncode | gen/go/audit/v1/audit_vtproto.pb.go:39-187 | decoding any encoding into a fresh message gives the message back, at any nesting depth |
| Canonical.DecodeKeepsUnknowns | gen/go/common/v1/common_vtproto.pb.go:537 | on every accepted input the unknown bytes stay whole unknown fields, at every level |
| Canonical.RoundTripExactly | gen/go/audit/v1/audit_vtproto.pb.go:1042-1067 | the round trip holds if and only if the unknown bytes are whole fields with unknown numbers, at every level |
| Canonical.Canonicalisation | gen/go/common/v1/common_vtproto.pb.go:318-546 | whatever input was accepted, re-encoding and decoding again yields the same message |
| FieldBoundaries.EntryConfined | gen/go/common/v1/common_vtproto.pb.go:432-524 | an entry cut off at its announced end is still accepted exactly when the inner index stops there |
| FieldBoundaries.StepSelfContained | gen/go/common/v1/common_vtproto.pb.go:432-540 | a step depends only on the bytes it consumes exactly when it is not an overrunning map entry |
| Unmarshal.OrGroupAdds | gen/go/common/v1/common_vtproto.pb.go:333 | the loop's or of a shifted and truncated group is a sum modulo the word, since what is there lies below the shift |
| Unmarshal.ReadVarint | gen/go/common/v1/common_vtproto.pb.go:324-337 | the loop of shifts and bitwise ors yields the varint modulo the width of its accumulator, or the specified error |
| Unmarshal.ReadUint64 | gen/go/common/v1/common_vtproto.pb.go:370-384 | the loop reads the specified uint64 and advances the index past it |
| Unmarshal.ReadInt32 | gen/go/common/v1/common_vtproto.pb.go:351-365 | accumulating in 32 bits with truncating shifts equals truncating the whole varint |
| Unmarshal.ReadInt64 | gen/go/audit/v1/audit_vtproto.pb.go:3346-3363 | accumulating in 64 bits gives the signed reading of the varint |
| Unmarshal.SkipField | gen/go/common/v1/common_vtproto.pb.go:527-530 | the skipping loop computes the specified length or error |
| Unmarshal.ReadLength | gen/go/common/v1/common_vtproto.pb.go:370-395 | length, overflow and end checks give the specified bounds or error |
| Unmarshal.ReadEntry | gen/go/common/v1/common_vtproto.pb.go:430-522 | the map-entry loop gives the specified key and value, or error |
| Unmarshal.MessageObject.UnmarshalVT | gen/go/common/v1/common_vtproto.pb.go:318-546 | the message object ends with exactly what Decode specifies; on the specified error it holds all whole fields before it and differs in at most one other field |
| Unmarshal.MessageObject.UnmarshalStep | gen/go/common/v1/common_vtproto.pb.go:321-540 | one turn of the loop makes exactly the specified change, or on the specified error changes at most one field |
| Unmarshal.MessageObject.UnmarshalField | gen/go/common/v1/common_vtproto.pb.go:346-524 | each switch case changes its own field only, as specified; also on the specified error no other field changes |
| Unmarshal.MessageObject.UnmarshalSub | gen/go/audit/v1/audit_vtproto.pb.go:5105-5108 | a submessage is merged in place, a repeated element is appended and filled; on an error it stays, as far as it got |
| Marshal.WriteBytes | gen/go/common/v1/common_vtproto.pb.go:71-72 | writes the bytes just below the index and nothing else |
| Marshal.EncodeVarint | gen/go/common/v1/common_vtproto.pb.go:73 | writes the varint so that it ends at the index, and nothing else |
| Marshal.WriteDelimited | gen/go/common/v1/common_vtproto.pb.go:70-76 | payload, length and key, written backwards, form one record |
| Marshal.WriteEntry | gen/go/common/v1/common_vtproto.pb.go:54-67 | one map entry, written backwards with its length taken from the indices |
| Marshal.WriteMap | gen/go/common/v1/common_vtproto.pb.go:51-69 | whatever the iteration order, an encoding of the map of exactly its size |
| Marshal.WriteVal | gen/go/audit/v1/audit_vtproto.pb.go:51-185 | each field is written exactly when it is not zero, in its exact size |
| Marshal.WriteMsg | gen/go/audit/v1/audit_vtproto.pb.go:63-72 | a nested message is framed by the length it really took |
| Marshal.WriteRep | gen/go/audit/v1/audit_vtproto.pb.go:1054-1065 | writing last to first leaves the elements in order |
| Marshal.MarshalToSizedBufferVT | gen/go/common/v1/common_vtproto.pb.go:39-83 | on any buffer with room, fills exactly the last Size bytes with an encoding and leaves all others untouched, never out of bounds |
| Marshal.FilledFrame | gen/go/common/v1/common_vtproto.pb.go:39-83 | what the buffer contract says in slices: written part, bytes before, bytes after |
| Marshal.SizeVT | gen/go/common/v1/common_vtproto.pb.go:234-257 | computes the exact encoded size |
| Marshal.SizeOfVal | gen/go/audit/v1/audit_vtproto.pb.go:1361-1427 | the size term of each kind of field |
| Marshal.SizeOfMap | gen/go/common/v1/common_vtproto.pb.go:247-254 | summing in any order gives the map's size |
| Marshal.SizeOfRep | gen/go/audit/v1/audit_vtproto.pb.go:1782-1787 | sums the framed sizes of the elements |
| Marshal.MarshalVT | gen/go/common/v1/common_vtproto.pb.go:21-32 | the allocated buffer is filled completely by an encoding |
| Codec.Transfer | pkg/grpcutil/codec/vtproto.go:27-43 | marshalling on one side and unmarshalling on the other delivers the message exactly when its unknown bytes are whole unknown fields |
| VaultMessages.SchemasValid | gen/go/audit/v1/audit_vtproto.pb.go:1939-2543 | the nine field lists have distinct numbers in range |
| VaultMessages.KeyBytes | gen/go/audit/v1/audit_vtproto.pb.go:57-72 | keys are one literal byte up to field 15 and two for field 16 |
| VaultFormats.PaginationRequestExactly | gen/go/common/v1/common_vtproto.pb.go:103-130 | the encodings are exactly the named fields with their literal keys, zero fields left out, then the unknown bytes; there is one exactly when integers fit their type |
| VaultFormats.PaginationResponseExactly | gen/go/common/v1/common_vtproto.pb.go:148-175 | the same for its two fields |
| VaultFormats.RequestMetadataExactly | gen/go/common/v1/common_vtproto.pb.go:193-232 | the same for its four fields |
| VaultFormats.ErrorExactly | gen/go/common/v1/common_vtproto.pb.go:39-83 | the same for code, message and the details map in any order |
| VaultFormats.AuditRequestExactly | gen/go/audit/v1/audit_vtproto.pb.go:207-260 | the same for its four fields, headers in any order |
| VaultFormats.AuditResponseExactly | gen/go/audit/v1/audit_vtproto.pb.go:280-312 | the same for its three fields |
| VaultFormats.AuditEventExactly | gen/go/audit/v1/audit_vtproto.pb.go:39-187 | the same for its sixteen fields, request and response framed by their own encodings |
| VaultFormats.AuditLogExactly | gen/go/audit/v1/audit_vtproto.pb.go:332-376 | the same for its four fields, the event framed by its own encoding |
| VaultFormats.BatchExactly | gen/go/audit/v1/audit_vtproto.pb.go:1042-1067 | one record for each event, in order, each an encoding of that event |
| VaultMessages.BatchRoundTrip | gen/go/audit/v1/audit_vtproto.pb.go:1042-1067 | a batch of events with nested requests and responses survives the wire exactly when its unknown bytes are whole unknown fields; batches that share an encoding are equal |
| VaultMessages.LogRoundTrip | gen/go/audit/v1/audit_vtproto.pb.go:332-376 | the same round trip for a stored log, three levels deep |
| VaultMessages.ErrorRoundTrip | gen/go/common/v1/common_vtproto.pb.go:39-83 | the same round trip for an error with a details map |
| VaultMessages.OverrunWitness | gen/go/common/v1/common_vtproto.pb.go:432-524 | an input rejected alone but accepted with more bytes after it, which are decoded twice |
| AuditBuffer.KeepsConserved | services/audit/internal/service/audit_service.go:85-102 | every step keeps: appended = handed over, then held, then buffered |
| AuditBuffer.KeepsMutualExclusion | services/audit/internal/service/audit_service.go:86-94 | every step keeps the lock with at most one holder, who is in a critical section |
| AuditBuffer.KeepsWakeUp | services/audit/internal/service/audit_service.go:190-205 | every step keeps: a full buffer has a token, a writer about to send, or a worker about to swap |
| AuditBuffer.RunKeepsInv | services/audit/internal/service/audit_service.go:65-102 | all invariants hold after every run |
| AuditBuffer.ConservationAndOrder | services/audit/internal/service/audit_service.go:65-102 | in every interleaving nothing is lost, duplicated or reordered, and nothing handed over is taken back |
| AuditBuffer.WorkerProgress | services/audit/internal/service/audit_service.go:71-94 | with something buffered, each step of the worker swaps or comes nearer to it, and no step of anyone else puts that off |
| AuditBuffer.SwapIsInevitable | services/audit/internal/service/audit_service.go:71-94 | in every run with enough worker steps, whatever writers and Close do in between, the worker swaps, and takes all that is buffered now |
| AuditBuffer.Drains | services/audit/internal/service/audit_service.go:71-102 | at most seven worker steps, no tick among them, then hand everything appended to storage |
| AuditBuffer.NoSpuriousWakeUp | services/audit/internal/service/audit_service.go:71-76 | in every run from every state the worker is woken by a token at most once for each append that filled the buffer, besides tokens under way at the start |
| AuditBuffer.TickDrains | services/audit/internal/service/audit_service.go:68-74 | also when the buffer is not full, a few worker steps with a tick hand everything appended to storage |
| AuditBuffer.NothingAfterLastSwap | services/audit/internal/service/audit_service.go:77-79 | after the final swap the buffer only grows and nothing more is handed over |
| AuditBuffer.CloseDrains | services/audit/internal/service/audit_service.go:234-238 | once Close is past its wait, storage holds all that was appended when Close was called, position by position, then the entry of the call that held the lock |
| AuditBuffer.FinalFlushDecides | services/audit/internal/service/audit_service.go:77-102 | what reaches storage is exactly what was appended when the final flush took the lock, in order |
| AuditBuffer.CloseFinishes | services/audit/internal/service/audit_service.go:234-238 | Close is never stuck: from every state after it is called a run lets the worker exit with the lock free, no new call needed |
| AuditBuffer.EntryCanBeLost | services/audit/internal/service/audit_service.go:190-205 | from every state and for every call that has not taken the lock, some run lets it return, finishes Close and never stores its entry |
| AuditBuffer.NoWriteAfterClose | services/audit/internal/service/audit_service.go:234-238 | no batch is taken or written after storage is closed |
| AuditService.Service.constructor | services/audit/internal/service/audit_service.go:48-55 | a new service is the initial state of the transition system |
| AuditService.Service.WriteEntry | services/audit/internal/service/audit_service.go:190-205 | appends, leaves a token exactly when one was there or the buffer is full, and is the four writer steps in order, wherever the worker is |
| AuditService.Service.Flush | services/audit/internal/service/audit_service.go:85-102 | hands the whole buffer over as one batch, nothing when it is empty, and is the worker's flush steps in order |
| Text.JoinSplit | pkg/crypto/aes/aes.go:151 | splitting loses nothing and no part holds the separator |
| Text.AtoiFormat | pkg/crypto/aes/aes.go:165-168 | every int64 parses back from its decimal form |
| Text.AtoiExactly | pkg/crypto/aes/aes.go:165-168 | exactly the decimal numerals with an optional sign and an int64 value are read, with that value |
| Text.FormatExactly | pkg/crypto/aes/aes.go:87 | the decimal form: a minus if negative, digits of that value, no leading zero |
| Text.Base64RoundTrip | pkg/crypto/aes/aes.go:84 | base64 decoding inverts encoding, and no colon is produced |
| Text.GroupByGroup | pkg/crypto/aes/aes.go:84 | base64 works on three bytes at a time |
| Text.Vectors | pkg/crypto/aes/aes.go:84 | the standard's vectors for one, two and three bytes, and its last two characters |
| Text.BreaksIgnored | pkg/crypto/aes/aes.go:99 | a line break anywhere in the data makes no difference |
| Text.DecodedForm | pkg/crypto/aes/aes.go:99 | only whole groups of the alphabet are decoded, with padding at the very end |
| Envelope.ParseExactly | pkg/crypto/aes/aes.go:150-171 | exactly the texts vault:v, an int64, a colon and data without one are accepted |
| Envelope.DecryptExactly | pkg/crypto/aes/aes.go:91-120 | exactly such texts are decrypted whose data is base64 of at least 29 bytes that open under the cipher's key, nonce first |
| Envelope.CipherErrors | pkg/crypto/aes/aes.go:75-120 | which error is reported for bad base64, a short payload, a payload that does not open, a nonce of the wrong size |
| Envelope.EnvelopeRoundTrip | pkg/crypto/aes/aes.go:75-120 | for every int64 version the text is vault:v, the version, a colon and base64 of nonce and sealed text; it parses to version and payload and decrypts to the plaintext unless that is empty, which is reported too short |
| KeyringModel.OptionsKeepKeys | pkg/crypto/keyring/keyring.go:391-440 | no option touches keys, latest version or type |
| KeyringModel.KeysGrow | pkg/crypto/keyring/keyring.go:228-248 | a key list only grows at its end |
| KeyringModel.StepKeepsCache | pkg/crypto/keyring/keyring.go:192-222 | every operation, Unmarshal of any data included, keeps each cached cipher equal to its key's |
| KeyringModel.CacheRefinement | pkg/crypto/keyring/keyring.go:174-225 | in every reachable state GetCipher answers as a lookup without the cache |
| KeyringModel.StepKeepsDense | pkg/crypto/keyring/keyring.go:361-388 | every operation keeps versions 1 to latest without gaps |
| KeyringModel.VersionDensity | pkg/crypto/keyring/keyring.go:361-388 | so does every run |
| KeyringModel.FindDense | pkg/crypto/keyring/keyring.go:199-206 | the search finds the v-th key for version v and nothing else |
| KeyringModel.SealedUntilUnmarshal | pkg/crypto/keyring/keyring.go:310-326 | after Seal every operation is refused and nothing changes, however many are tried, until Unmarshal succeeds |
| KeyringModel.SealAndRestore | pkg/crypto/keyring/keyring.go:336-358 | marshal, seal, unmarshal restores the policies and the cipher of every name and version |
| KeyringModel.VersionWindow | pkg/crypto/keyring/keyring.go:140-225 | which versions the two lookups serve, and exactly when they agree |
| KeyringModel.BelowMinimumStillDecrypts | pkg/crypto/keyring/keyring.go:157-206 | a key whose first version GetCipher serves and GetKeyVersion refuses |
| KeyringModel.OldCiphertextsReadable | pkg/crypto/keyring/keyring.go:174-248 | a ciphertext stays readable through its own version after any operations that keep the key |
| KeyringLaws.CipherIsKey | pkg/crypto/keyring/keyring.go:174-225 | in every reachable state, whatever was loaded, GetCipher answers with the bytes of the first key of the version, exactly when there is one of 16, 24 or 32 bytes |
| KeyringLaws.ServedKeys | pkg/crypto/keyring/keyring.go:140-225 | in a keyring filled by its own operations both lookups serve version v with key v - 1 and no other, exactly in their windows |
| KeyringLaws.Remembered | pkg/crypto/keyring/keyring.go:191-222 | a cipher once served is in the cache under its version, and no other entry changes |
| KeyringLaws.OptionsExactly | pkg/crypto/keyring/keyring.go:391-440 | each setting ends with the last option for it or keeps its value; nothing else changes |
| KeyringLaws.CreatedExactly | pkg/crypto/keyring/keyring.go:94-119 | a new key has version 1 made of the random bytes, the times read, and settings from its options or the defaults |
| KeyringLaws.RotatedExactly | pkg/crypto/keyring/keyring.go:228-248 | rotation appends the next version made of the random bytes, sets the update time and changes no setting |
| KeyringLaws.UpdatedExactly | pkg/crypto/keyring/keyring.go:300-304 | an update changes the settings of its options and the update time only |
| KeyringLaws.ProtectedKeysStay | pkg/crypto/keyring/keyring.go:264-266 | a key whose deletion is not allowed survives every run that does not allow it |
| KeyringLaws.DeletedKeysGo | pkg/crypto/keyring/keyring.go:264-269 | one whose deletion is allowed is gone, and not found by either lookup |
| KeyringLaws.OthersUntouched | pkg/crypto/keyring/keyring.go:251-307 | an operation on one key leaves all other keys and their cached ciphers alone |
| KeyringLaws.RefusalsExactly | pkg/crypto/keyring/keyring.go:81-307 | when an unsealed keyring refuses, why, and that nothing changes then |
| Keyring.KeyPolicy.constructor | pkg/crypto/keyring/keyring.go:95-106 | a new policy has the default configuration, the two times given and no key |
| Keyring.KeyPolicy.Apply | pkg/crypto/keyring/keyring.go:394-440 | each option changes its own setting |
| Keyring.KeyPolicy.ApplyAll | pkg/crypto/keyring/keyring.go:109-111 | options are applied in order |
| Keyring.KeyPolicy.GenerateKeyVersion | pkg/crypto/keyring/keyring.go:361-388 | appends the next version with its time, in an array of its own, or changes nothing when the generator fails |
| Keyring.KeyPolicy.Rotate | pkg/crypto/keyring/keyring.go:241-245 | a new version and the update time, or nothing when the generator fails |
| Keyring.KeyPolicy.Configure | pkg/crypto/keyring/keyring.go:300-304 | the options in order and the update time |
| Keyring.Keyring.constructor | pkg/crypto/keyring/keyring.go:72-78 | a new keyring is empty and not sealed |
| Keyring.Keyring.CreateKey | pkg/crypto/keyring/keyring.go:81-120 | the create step of the state machine, with a fresh policy and a fresh key array; a failure changes nothing |
| Keyring.Keyring.RotateKey | pkg/crypto/keyring/keyring.go:228-248 | the rotate step, in place on one policy, with a fresh key array; a failure changes nothing |
| Keyring.Keyring.UpdateConfig | pkg/crypto/keyring/keyring.go:287-307 | the update step, in place on one policy |
| Keyring.Keyring.DeleteKey | pkg/crypto/keyring/keyring.go:251-272 | the delete step: policy and cached ciphers go together |
| Keyring.Keyring.Find | pkg/crypto/keyring/keyring.go:163-168 | the loop returns the first key of the version |
| Keyring.Keyring.GetKeyVersion | pkg/crypto/keyring/keyring.go:140-171 | the specified key or the specified error |
| Keyring.Keyring.MakeCipher | pkg/crypto/keyring/keyring.go:199-216 | a cipher of the found key, or the specified error |
| Keyring.Keyring.GetCipher | pkg/crypto/keyring/keyring.go:174-225 | the specified cipher, and only the cache changes |
| Keyring.Keyring.EraseKeys | pkg/crypto/keyring/keyring.go:314-321 | every byte of every held key array becomes zero |
| Keyring.Keyring.Seal | pkg/crypto/keyring/keyring.go:310-326 | erases all key bytes, writes nothing but the keyring and those arrays, and leaves it empty and sealed |
| Keyring.Keyring.Marshal | pkg/crypto/keyring/keyring.go:336-341 | a deep copy of the policies |
| Keyring.Keyring.Unmarshal | pkg/crypto/keyring/keyring.go:344-358 | the contents become the data, in fresh arrays, cache empty, not sealed; bad data changes nothing |
| AclPolicy.AllowedExactly | pkg/auth/policy/policy.go:133-194 | allowed if and only if some rule of the flattened list grants and all before it pass |
| RuleMeaning.EvaluatedExactly | pkg/auth/policy/policy.go:133-194 | for every request: the first rule, by the order of names and rules, whose path matches and that has deny, or sudo, or the capability with all conditions met, gives the answer and reason; allowed and explicitly denied exactly so |
| RuleMeaning.DefaultPolicy | pkg/auth/policy/policy.go:56-74 | the default policy permits the three token operations on oneself, each with its capability, and nothing else |
| AclPolicy.DecidedIsFinal | pkg/auth/policy/policy.go:146-188 | appending policy names never changes a decided result |
| AclPolicy.DecideMonotone | pkg/auth/policy/policy.go:175-185 | more context can only turn a passing rule into a granting one |
| AclPolicy.ContextMonotonicity | pkg/auth/policy/policy.go:133-200 | what is allowed under a context is allowed under every extension, hence what Check allows |
| AclPolicy.TrimPadded | pkg/auth/policy/policy.go:205-207 | leading and trailing slashes vanish from a path |
| AclPolicy.TrimExactly | pkg/auth/policy/policy.go:205-207 | trimming takes slashes from both ends, all of them and nothing else |
| AclPolicy.SlashesAreImmaterial | pkg/auth/policy/policy.go:204-243 | slashes around rule or target paths change nothing but the quoted rule text |
| PathCoverage.DocumentedExactly | pkg/auth/policy/policy.go:202-243 | for every pattern and target: exactly when the code matches against the documented rule, and exactly when it fails to match though the rule says so |
| PathCoverage.PrefixSegments | pkg/auth/policy/policy.go:210-214 | a textual prefix test seen on segments: all but the last are equal, the last begins the target's |
| PathCoverage.StarSegments | pkg/auth/policy/policy.go:216-236 | a pattern with stars, none a final double one, matches exactly the paths with as many segments that agree wherever it has no star |
| PathCoverage.LongerSegmentWitness | pkg/auth/policy/policy.go:210-214 | a path matched although it does not lie under the pattern's base |
| PathCoverage.StarBaseWitness | pkg/auth/policy/policy.go:210-214 | a path not matched although the pattern's segments cover it |
| AclPolicy.PathMatches | pkg/auth/policy/policy.go:204-243 | the branches and the segment loop decide the specified match |
| AclPolicy.HasCapability | pkg/auth/policy/policy.go:246-253 | membership in the capability list |
| AclPolicy.CheckConditions | pkg/auth/policy/policy.go:256-263 | all conditions hold in the context, in whatever order they are visited |
| AclPolicy.Evaluator.constructor | pkg/auth/policy/policy.go:50-76 | a new evaluator knows the default policy only |
| AclPolicy.Evaluator.AddPolicy | pkg/auth/policy/policy.go:79-85 | adds or replaces the policy of that name |
| AclPolicy.Evaluator.RemovePolicy | pkg/auth/policy/policy.go:101-111 | removes the policy, or reports that there is none |
| AclPolicy.Evaluator.ConsultRule | pkg/auth/policy/policy.go:154-186 | the early exits of one rule give its decision |
| AclPolicy.Evaluator.ScanRules | pkg/auth/policy/policy.go:153-187 | the inner loop stops at the first decisive rule with the verdict of the whole list |
| AclPolicy.Evaluator.Evaluate | pkg/auth/policy/policy.go:133-194 | the nested loops give the verdict of the first decisive rule of the flattened list |
| AclPolicy.Evaluator.Check | pkg/auth/policy/policy.go:197-200 | allowed under the empty context |

## Left out

- Unmarshal.MessageObject.UnmarshalVT: after an error, what the one interrupted field holds is not specified further, because callers discard the message.
- Unmarshal.MessageObject.UnmarshalStep: likewise for the interrupted field.
- Unmarshal.MessageObject.UnmarshalField: likewise for the interrupted field.
- Unmarshal.MessageObject.UnmarshalSub: submessages are values, so two fields sharing one submessage object are not modelled.
- Codec.Transfer: an encoded size of 2^63 bytes or more is excluded, as in every round-trip result.
- Generated code of the other messages: the same template; repeated strings, bytes, floats, enums and map<string,int64> are not among the field kinds.
- Nil message receivers and nil elements of repeated fields.
- KeyringModel.OldCiphertextsReadable: the version is assumed to fit int64, as LatestVersion does; 2^63 rotations are not modelled.
- Keyring.Keyring.CreateKey: random bytes, which may be missing, and clock readings are parameters.
- PathCoverage.DocumentedExactly: `**` is read as documented only at the end of a pattern; elsewhere the code, and so the model, takes it as text.
- Keyring.Keyring.Unmarshal: JSON text is abstracted to a faithful deep copy or an error; null entries are not modelled.
- Locking of the keyring and of the evaluator: each method runs under its lock, so methods are atomic.
- GetKey, ListKeys, IsSealed, GetPolicy, ListPolicies, ActionToCapability: single reads without further content.
- Encrypt and GenerateKey of the AES package: a random nonce or key passed to what is modelled.
- Storage of audit entries: WriteBatch may fail and is modelled as handing the batch over; Query and Count are left out.
- A second call of Close, which panics in Go.
- Context timeouts, logging, gRPC wiring, configuration, FF1, the LRU cache and JWT.
