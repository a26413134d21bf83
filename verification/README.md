# Verified model of pq-sovereign-storage

A Dafny model of the data path of the `pq-sovereign-storage` command line tool, from `upload` over
`verify` and `download` to `decrypt`, with the registry contract behind it. It covers the encrypted
envelope, the hash transcripts, the mock prover, every JSON record that is written and read back, the
verifier boundary, the `PqspVerifier` contract, and the text parsers that configure the tool. The
theorems run across these parts; the last ones are about all runs of many clients over one storage
network and one registry.

`dafny verify dfyconfig.toml` checks the whole project.

## How the source is modelled

- A Rust `String` is a Dafny `string` (a sequence of Unicode scalar values) and becomes bytes through
  UTF-8 (`Utf8`); a `u8` is an integer below 256; `len() as u64` is written out with its 2^64 bound.
- SHAKE256 output, the cipher's keystream, its authenticator and the storage network's Merkle root are
  function-valued fields of the datatype `Primitives`. Every theorem holds for all choices of them, and
  none assumes that they are free of collisions: where a collision would matter, it is one of the
  alternatives in the conclusion.
- Encryption follows the shape of section 2.8 of RFC 8439: plaintext exclusive-or keystream, then a
  16-byte tag over associated data and ciphertext, compared before anything is unmasked. The random key
  and nonce are parameters.
- JSON follows RFC 8259: both layouts of the printer and the parser (`Json`), and apart from them the
  grammar (`JsonGrammar`), which relates trees to texts. The parser is proved to read exactly the
  grammar, and the printer to write in it. Each printing function takes the text that follows, so that
  printing and parsing have the same shape. The derived struct codecs (`Records`) skip unknown keys,
  refuse repeated ones, take an array for a struct, and let an optional field be missing, as the code
  generated for the structs does.
- What is written is also stated without the functions that write it, so that no agreement between a
  writer and its reader can hide a mistake in both: the bits of a ciphertext and the bytes that are hashed
  (`Encryption`, `TranscriptLaws`), the text of both JSON layouts (`JsonText`), every record key by key
  (`RecordLayout`), and each field of what `upload` prepares, stores and reports (`UploadLaws`).
- The two byte counters of an artifact are natural numbers here and `usize`s in the code, so reading an
  artifact back is stated with the bound 2^64, which every artifact a machine can write meets.
- Code that changes state is imperative here too: the hasher, its output reader, the contract and the
  process environment are classes; key, envelope and `.env` reading are methods with buffers or loops.
  Each is proved equal to a function that the lemmas are about.
- Module by module: `Encryption`, `Transcript` and `Zk` are the `crypto` crate, `Types` and `Verifier`
  the `core` crate, `Config` and the first half of `Pipeline` the `storage_client` crate and its
  configuration, `Env` and the rest of `Pipeline` are `src/main.rs`, `Registry` is the contract. `System`
  puts them together.

## What is false, and when

- Upload passes the indexer's address on as it is set and download trims it. `Config.IndexerAddressesAgree`
  shows that they go to the same address exactly when there is nothing to trim, and
  `Config.IndexerAddressesDiffer` gives an environment in which there is.
- A value in `.env` is not always taken literally: double quotes and then single quotes are stripped at
  its ends, also from what a pair of quotes encloses. `EnvLaws.UnquotedText` says for each way of quoting
  which values survive: those without either quote at an end, and in single quotes also those with double
  quotes there. `EnvLaws.QuotesAreLost` shows a value that is lost in double quotes, and one that is kept
  in single ones.
- The two verifiers do not accept the same artifacts: the mock verifier accepts the zero commitment and
  any text after `0x` as a root, the adapter for the contract accepts roots without `0x`.
  `Verifier.VerifiersDisagree` says exactly when they differ, and `Verifier.DisagreementsExist` gives
  three inputs on which they do, in both directions.

Where the code and its documentation disagree, the model follows the code: the artifact's `storage_mode`
can also be `live_with_indexer` (the comment at src/main.rs:101 names two modes), `download` also works
with an indexer alone (README.md asks for a node address), and the default download file is named after
the root without its `0x`.

## Model

| member | source | states |
|---|---|---|
| JsonLaws.ParseExactly | src/main.rs:583 | the texts accepted as JSON are exactly the documents of the grammar, and each is read as the tree it is a document of |
| JsonLaws.ParseValueExactly | src/main.rs:583 | a value is read from the front of a text, and the rest left, exactly when the grammar says so |
| JsonLaws.NumberExactly | src/main.rs:583 | number literals are a sign, a whole part without leading zeros, a fraction and an exponent |
| JsonLaws.ParseStringExactly | src/main.rs:583 | a string is read from any mix of plain characters, short escapes, numeric escapes and surrogate pairs, and from nothing else |
| JsonLaws.NaturalExactly | src/main.rs:583 | a literal without sign, fraction or exponent is read as the number whose decimal text it is |
| JsonLaws.HexUnitExactly | src/main.rs:583 | a numeric escape is the number whose two bytes its four digits are, in either case |
| JsonLaws.PrintedValue | crypto/src/zk.rs:162 | both layouts of the printer stay within the grammar, at any depth |
| JsonLaws.NewlineIsSpace | storage_client/src/payload.rs:41 | the pretty layout indents every line by two spaces a level, and the compact one has no lines |
| JsonLaws.ParsePrint | storage_client/src/payload.rs:40-42 | parsing undoes printing for every JSON tree, in the pretty and in the compact layout |
| JsonLaws.ParsePrintTo | src/main.rs:603 | the same for a value at any depth and in front of any text that cannot run into it |
| JsonLaws.ParsePrintString | storage_client/src/payload.rs:40-42 | every string, control characters and quotes included, is read back from its escaped literal |
| JsonLaws.ParseSurrounded | src/main.rs:345 | white space around a document is ignored, anything else after it is an error |
| JsonLaws.PrintInjective | crypto/src/zk.rs:162 | equal printed texts come from equal trees |
| JsonText.PrintIsText | storage_client/src/payload.rs:40-42 | the printer writes the text that a direct definition of both layouts gives |
| JsonText.EscapesExactly | crypto/src/zk.rs:162 | which characters of a string are escaped, and how; nothing else is |
| JsonText.StatementText | crypto/src/zk.rs:160-162 | the text hashed for a statement: three fields in order, no white space |
| JsonText.CompactBytes | crypto/src/zk.rs:15-23 | bytes in that text are decimal numbers with commas between them |
| JsonText.EncodePayloadExactly | storage_client/src/payload.rs:22-42 | a payload is stored as the indented text of these six fields |
| JsonText.EncodeArtifactExactly | src/main.rs:95-109 | an artifact file is the indented text of these six fields |
| JsonText.FileStarts | storage_client/src/payload.rs:41 | the second line of such a file starts with two spaces and a quote |
| Utf8.EncodeCharExactly | storage_client/src/payload.rs:41 | length and ranges of the bytes of a character, and the bits each carries |
| Decimal.PrintExactly | storage_client/src/client.rs:215 | numbers are written in base ten, digit by digit, the last digit last |
| RecordLaws.FromSliceExactly | src/main.rs:345 | the byte strings read as a tree are the UTF-8 of its documents |
| RecordLaws.FieldsOfRecord | src/main.rs:345 | each field of a struct is found under its own key, whatever the values |
| RecordLaws.FieldsExactly | src/main.rs:583 | an object is read exactly when no field is repeated; other keys and the order are ignored |
| RecordLaws.ArrayReadsLikeObject | src/main.rs:583 | the bare values of a struct are read like the object written for it |
| RecordLaws.OptionalFieldsMayBeMissing | core/src/types.rs:61-71 | transaction hash, submitter and memo may be left out, and then are `None` |
| RecordLaws.BytesMayBeText | crypto/src/zk.rs:72-80 | proof bytes given as a string are its UTF-8 |
| RecordLayout.StatementIsWritten | crypto/src/zk.rs:15-23 | the keys and values of a statement, in order |
| RecordLayout.StatementIsRead | crypto/src/zk.rs:15-23 | exactly which objects, with keys in any order and others between them, are read as a statement |
| RecordLayout.DescriptorIsWritten | crypto/src/zk.rs:53-59 | the keys and values of a proof system descriptor, in order |
| RecordLayout.DescriptorIsRead | crypto/src/zk.rs:53-59 | exactly which objects, with keys in any order and others between them, are read as a proof system descriptor |
| RecordLayout.BundleIsWritten | crypto/src/zk.rs:72-80 | the keys and values of a proof bundle, in order |
| RecordLayout.BundleIsRead | crypto/src/zk.rs:72-80 | exactly which objects, with keys in any order and others between them, are read as a proof bundle |
| RecordLayout.MetadataIsWritten | storage_client/src/payload.rs:7-19 | the keys and values of payload metadata, in order |
| RecordLayout.MetadataIsRead | storage_client/src/payload.rs:7-19 | exactly which objects, with keys in any order and others between them, are read as payload metadata |
| RecordLayout.PayloadIsWritten | storage_client/src/payload.rs:22-36 | the keys and values of a payload, in order |
| RecordLayout.PayloadIsRead | storage_client/src/payload.rs:22-36 | exactly which objects, with keys in any order and others between them, are read as a payload |
| RecordLayout.SummaryIsWritten | storage_client/src/payload.rs:76-86 | the keys and values of a summary, in order |
| RecordLayout.SummaryIsRead | storage_client/src/payload.rs:76-86 | exactly which objects, with keys in any order and others between them, are read as a summary |
| RecordLayout.StorageIsWritten | core/src/types.rs:5-13 | the keys and values of a storage receipt, in order |
| RecordLayout.StorageIsRead | core/src/types.rs:5-13 | exactly which objects, with keys in any order and others between them, are read as a storage receipt |
| RecordLayout.ReceiptIsWritten | storage_client/src/payload.rs:89-97 | the keys and values of an upload receipt, in order |
| RecordLayout.ReceiptIsRead | storage_client/src/payload.rs:89-97 | exactly which objects, with keys in any order and others between them, are read as an upload receipt |
| RecordLayout.InputIsWritten | core/src/types.rs:38-46 | the keys and values of a verifier input, in order |
| RecordLayout.InputIsRead | core/src/types.rs:38-46 | exactly which objects, with keys in any order and others between them, are read as a verifier input |
| RecordLayout.SubmissionIsWritten | core/src/types.rs:61-71 | the keys and values of a submission, in order |
| RecordLayout.SubmissionIsRead | core/src/types.rs:61-71 | exactly which objects, with keys in any order and others between them, are read as a submission |
| RecordLayout.ArtifactIsWritten | src/main.rs:95-109 | the keys and values of an artifact, in order |
| RecordLayout.ArtifactIsRead | src/main.rs:95-109 | exactly which objects, with keys in any order and others between them, are read as an artifact |
| RecordLaws.StatementRoundTrip | crypto/src/zk.rs:15-23 | a proof statement is read back from its JSON, for all bytes and strings |
| RecordLaws.BundleRoundTrip | crypto/src/zk.rs:53-80 | a proof bundle is read back from its JSON |
| RecordLaws.MetadataRoundTrip | storage_client/src/payload.rs:7-19 | payload metadata is read back from its JSON |
| RecordLaws.PayloadRoundTrip | storage_client/src/payload.rs:22-36 | an upload payload is read back from its JSON |
| RecordLaws.SummaryRoundTrip | storage_client/src/payload.rs:76-86 | a summary is read back exactly when its counter is a `usize` |
| RecordLaws.StorageRoundTrip | core/src/types.rs:5-13 | a storage receipt is read back, with and without a transaction hash |
| RecordLaws.ReceiptRoundTrip | storage_client/src/payload.rs:89-97 | an upload receipt is read back exactly when its counter is a `usize` |
| RecordLaws.InputRoundTrip | core/src/types.rs:38-46 | a verifier input is read back from its JSON |
| RecordLaws.SubmissionRoundTrip | core/src/types.rs:61-71 | a submission is read back, with and without submitter and memo |
| RecordLaws.ArtifactRoundTrip | src/main.rs:95-109 | an artifact is read back exactly when its counters are `usize`s |
| RecordLaws.DecodeEncodePayload | storage_client/src/payload.rs:40-42 | every payload is recovered from the bytes it is stored as |
| RecordLaws.DecodeEncodeArtifact | src/main.rs:596-606 | an artifact is recovered from its file exactly when its counters are `usize`s |
| RecordLaws.CanonicalStatementInjective | crypto/src/zk.rs:160-162 | the compact JSON of a statement determines the statement |
| RecordLaws.ControlByteIsNotJson | src/main.rs:582-588 | bytes that start with a control character other than white space are no JSON |
| Transcript.Shake256.Update | crypto/src/commitment.rs:84-89 | absorbs exactly the given bytes, after those before |
| Transcript.Shake256.FinalizeXof | crypto/src/commitment.rs:91 | output is that of everything absorbed, from its start |
| Transcript.XofReader.Read | crypto/src/commitment.rs:92-93 | fills the buffer with the next bytes of the output stream |
| Transcript.Commit | crypto/src/commitment.rs:78-97 | the six updates hash the framed domain, context and message; the result is the first 32 bytes |
| Transcript.MockProofBytes | crypto/src/zk.rs:160-173 | the four updates hash the framed domain and canonical statement; the result is the first 64 bytes |
| Transcript.UnframeFrame | crypto/src/commitment.rs:82-89 | length-prefixed fields are taken apart again, for fields shorter than 2^64 |
| Transcript.FrameInjective | crypto/src/commitment.rs:82-89 | equal framings have equal fields, and equally many |
| TranscriptLaws.CommitExactly | crypto/src/commitment.rs:78-97 | a commitment is 32 bytes of the hash of domain, context and message, in this order and each behind its length |
| TranscriptLaws.MockProofExactly | crypto/src/zk.rs:160-173 | a mock proof is 64 bytes of the hash of its domain and the canonical statement, each behind its length |
| TranscriptLaws.DomainBytes | crypto/src/commitment.rs:9 | the bytes of both domain separators and of the dry-run context |
| TranscriptLaws.Le64Exactly | crypto/src/commitment.rs:84-88 | a length is written as its eight bytes, the lowest first |
| TranscriptLaws.CommitTranscriptInjective | crypto/src/commitment.rs:79-89 | a commitment transcript determines domain, context and message |
| TranscriptLaws.ProofTranscriptInjective | crypto/src/zk.rs:160-168 | a proof transcript determines commitment, context and the whole list of public inputs |
| TranscriptLaws.CommitIsNotProof | crypto/src/commitment.rs:65-69 | no committer, even one with the mock prover's domain, hashes what the mock prover hashes |
| TranscriptLaws.StateIsNotDryRunRoot | storage_client/src/client.rs:257-263 | a state commitment and a dry-run root never share a transcript, even for equal contexts |
| TranscriptLaws.TranscriptsAreSeparate | storage_client/src/client.rs:199-276 | the three hashes of an upload have three different transcripts |
| Hex.DecodeEncode | crypto/src/encryption.rs:49-51 | hex text decodes to the bytes it was made from |
| Hex.DecodesExactly | crypto/src/encryption.rs:37 | what decodes is an even number of hex digits in either case |
| Hex.EncodeDecode | crypto/src/encryption.rs:37 | encoding decoded text again gives it in lower case |
| Hex.PrefixIsOptional | crypto/src/encryption.rs:36 | stripping `0x` leaves unprefixed hex alone and undoes prefixing |
| Hex.EncodeAt | crypto/src/encryption.rs:49-51 | each byte is written as two lowercase digits, the high one first |
| Hex.DigitsInEitherCase | crypto/src/encryption.rs:37 | the 22 characters that are read as digits, and the lowercase form of each |
| Common.StripPrefixExactly | crypto/src/encryption.rs:36 | a prefix is taken off once if it is there, and nothing else ever is |
| Encryption.KeyFromHex | crypto/src/encryption.rs:35-46 | computes the key, or the error for bad digits or for a wrong length |
| Encryption.KeyHexRoundTrip | crypto/src/encryption.rs:34-51 | a printed key is read back, with and without a prefix |
| Encryption.KeyOfHexAccepts | crypto/src/encryption.rs:35-46 | the texts read as a key are its 64 digits in either case, optionally prefixed |
| Encryption.KeyOfHexRefuses | crypto/src/encryption.rs:37-41 | which texts are refused for their digits, and which for their length, with the length reported |
| Encryption.ToBytes | crypto/src/encryption.rs:106-112 | writes version, nonce and ciphertext in this order |
| Encryption.FromBytes | crypto/src/encryption.rs:115-133 | reads an envelope, or reports it as too short or of another version |
| Encryption.OpenSealed | crypto/src/encryption.rs:105-133 | a written envelope is read back if its version is 1 and refused for its version otherwise |
| Encryption.SealOpened | crypto/src/encryption.rs:115-133 | exactly the strings of 25 bytes or more that start with 1 are accepted, writing gives them back, and only shorter ones are malformed |
| Encryption.SealedLayout | crypto/src/encryption.rs:106-112 | the version is byte 0 of an envelope, the nonce bytes 1 to 24, the ciphertext the rest |
| Encryption.EncryptExactly | crypto/src/encryption.rs:197-220 | each bit of a ciphertext is that of the plaintext plus that of the keystream, the last 16 bytes are the authenticator of associated data and ciphertext |
| Encryption.DecryptIsInverse | crypto/src/encryption.rs:197-240 | decryption returns a plaintext exactly when encrypting it under the same nonce gives the envelope; which error it returns otherwise |
| Zk.VerifyExactly | crypto/src/zk.rs:121-158 | a bundle verifies exactly when it is the prover's own up to the system version |
| Zk.ProofBindsStatement | crypto/src/zk.rs:141-173 | a bundle that verifies for two statements exhibits a hash collision, or they are equal |
| Verifier.ParseCommitmentHex | crypto/src/commitment.rs:34-36 | a printed commitment parses as a root to itself exactly when it is not zero |
| Verifier.ParseBytes32Accepts | core/src/verifier.rs:206-215 | the texts parsed to a root are its digits in either case, optionally prefixed, unless it is zero |
| Verifier.ValidatedEncodes | core/src/verifier.rs:138-167 | what is validated encodes, to a nonzero commitment and root and the statement's own proof |
| Verifier.EncodeExactly | core/src/verifier.rs:138-151 | what any submission encodes to, and the exact condition of both errors |
| Verifier.PrintedRootEncodes | core/src/verifier.rs:138-167 | with a printed root and a genuine proof, validation fails only for zeros, and encoding gives back the root |
| Verifier.ParseBytes32Total | core/src/verifier.rs:206-215 | a text is parsed to some root exactly when it is 64 hex digits, not all zero, optionally prefixed |
| Verifier.VerifiersDisagree | core/src/verifier.rs:65-73 | the two verifiers differ exactly on genuine proofs, when either the root's prefix or what the contract needs is there but not both |
| Verifier.DisagreementsExist | core/src/verifier.rs:138-155 | inputs that only one of them accepts, in both directions |
| Registry.PqspVerifier.SubmitCommitment | contracts/src/PqspVerifier.sol:30-49 | one transaction on mapping and log, with its revert; a revert changes nothing |
| Registry.SubmitExactly | contracts/src/PqspVerifier.sol:30-49 | goes through exactly for a nonzero commitment and root, verifies that commitment and nothing else; which revert happens otherwise |
| Registry.RunVerifies | contracts/src/PqspVerifier.sol:17-49 | after any calls, verified is what was so before or what some accepted call named |
| Registry.RunLogs | contracts/src/PqspVerifier.sol:20-48 | the log grows by one event an accepted call, in order and with its sender |
| Registry.RunKeepsConsistent | contracts/src/PqspVerifier.sol:17-49 | over all runs, verified means logged, and zero is never verified |
| Registry.NeverUnverified | contracts/src/PqspVerifier.sol:47 | verified commitments stay verified |
| Registry.OrderIsIrrelevant | contracts/src/PqspVerifier.sol:30-49 | permuting or repeating calls does not change what is verified |
| PipelineLaws.SniffingIsExact | src/main.rs:582-594 | the raw branch takes exactly the envelopes, the JSON branch exactly the payloads that hold one |
| PipelineLaws.EnvelopeIsRecovered | src/main.rs:582-594 | a version-1 envelope is recovered from its own bytes and from any payload around it |
| PipelineLaws.PreparedDecrypts | storage_client/src/client.rs:199-248 | what any committer prepares, for any bytes as associated data, is parsed back and decrypts under the printed key |
| PipelineLaws.Lifecycle | src/main.rs:372-383 | what an upload sends decrypts to the plaintext under the printed key and the same associated data |
| PipelineLaws.OnlyGenuineDecrypts | src/main.rs:378-383 | a file decrypts to a plaintext exactly when encrypting that under the file's nonce gives its envelope |
| PipelineLaws.SizesAdd | storage_client/src/client.rs:207-217 | summary, public input and receipt report the sizes of blob, ciphertext and payload |
| PipelineLaws.TextsNameTheUpload | storage_client/src/payload.rs:45-55 | summary and public input name the commitment, and summary and metadata the same proof system |
| PipelineLaws.CommitmentBindsUpload | storage_client/src/client.rs:207-209 | equal commitments mean equal envelope, associated data and (per key) plaintext, or a hash collision |
| PipelineLaws.RootSpellings | storage_client/src/client.rs:284-286 | a root is named by its 64 digits in either case, optionally prefixed, and so by the text in every receipt |
| PipelineLaws.DownloadNamesDiffer | src/main.rs:566-580 | different roots get different default file names |
| PipelineLaws.StoredPayloadChecks | storage_client/src/client.rs:207-238 | the stored file alone lets its commitment be recomputed and its proof be verified, and names the schemes used |
| UploadLaws.PrepareExactly | storage_client/src/client.rs:199-248 | everything prepared for an upload, by any committer: envelope, hash, statement with its two inputs, proof, payload and stored bytes |
| UploadLaws.UploadPreparedExactly | storage_client/src/client.rs:250-320 | the receipt of any upload in either mode, and the exact condition of each error |
| UploadLaws.UploadExactly | src/main.rs:303-332 | the file that is sent and every field of the artifact, its summary included |
| UploadLaws.SummaryExactly | storage_client/src/payload.rs:45-55 | the four fields of the summary of any payload |
| UploadLaws.VerifyErrors | src/main.rs:343-350 | why `verify` refuses a file, with either verifier, in order |
| UploadLaws.DecryptErrors | src/main.rs:378-383 | why `decrypt` fails: first the envelope, then the key's text, then the tag |
| UploadLaws.DownloadNameExactly | src/main.rs:566-580 | the default name of a download for any text given as root |
| PipelineLaws.WrittenArtifactLoads | src/main.rs:596-631 | from the file of any artifact in either layout `verify` loads its submission, or gives each of three errors, under exact conditions |
| PipelineLaws.VerifiesLocallyExactly | core/src/verifier.rs:65-89 | the artifacts that mock mode accepts, and the hash it then reports |
| PipelineLaws.VerifiesOnChainExactly | core/src/verifier.rs:138-181 | the artifacts that lead to a contract call, and its three arguments |
| PipelineLaws.ArtifactLoads | src/main.rs:343-346 | an upload's artifact loads exactly when its counters are `usize`s, and returns what the user gave |
| PipelineLaws.ArtifactReplays | src/main.rs:309-350 | every upload's artifact is accepted by the mock verifier, under the commitment in its receipt |
| PipelineLaws.UploadsVerify | src/main.rs:309-318 | every upload's verifier input carries a genuine proof and a prefixed root |
| PipelineLaws.UploadsVerifyOnChain | core/src/verifier.rs:169-181 | an upload's artifact leads to a contract call exactly when it loads and no hash is zero, and to which |
| PipelineLaws.AdapterCallsAreGenuine | core/src/verifier.rs:169-181 | any call sent for any artifact file carries the mock proof of that file's statement |
| PipelineLaws.AdapterCallsSucceed | contracts/src/PqspVerifier.sol:35-48 | the contract accepts such a call in every state, verifies the commitment and logs the sender |
| System.RunKeepsInv | src/main.rs:275-405 | storage is content-addressed, and the histories of uploads, calls, downloads and decryptions are truthful, in every state of every run |
| SystemLaws.StepExactly | src/main.rs:275-405 | what each step adds to the four histories and to storage; failures and dry runs add nothing |
| SystemLaws.LookupExactly | storage_client/src/client.rs:284-286 | a text finds a stored file exactly when it spells its root |
| SystemLaws.EndToEnd | src/main.rs:275-405 | upload, any steps, download, any steps, decrypt: the plaintext comes back, from any reachable state, or a Merkle collision shows |
| SystemLaws.StepsLast | contracts/src/PqspVerifier.sol:30-49 | what anyone stores or has the contract accept, at any time in a run, is there after it and stays |
| SystemLaws.UploadsStayRecoverable | src/main.rs:372-405 | after any run, any text for an upload's root finds a file that decrypts, under any text for its key, to its plaintext, or shows a Merkle collision |
| SystemLaws.DownloadsRecover | src/main.rs:372-405 | whatever a run downloaded under an upload's root and decrypted with its key gave its plaintext, or shows a Merkle collision |
| SystemLaws.DecryptionsAreGenuine | crypto/src/encryption.rs:222-240 | every plaintext ever produced is what its file was encrypted from |
| SystemLaws.VerifiedExactly | core/src/verifier.rs:157-181 | after any run, a commitment is verified exactly by a genuine adapter call or an accepted direct call |
| SystemLaws.RegistryStaysConsistent | contracts/src/PqspVerifier.sol:17-49 | after any run, mapping and log agree and the log lists the accepted calls in order |
| SystemLaws.RunKeeps | src/main.rs:275-405 | no run loses a stored file, a verified commitment, or any entry of its four histories |
| SystemLaws.UploadsCanBeVerified | src/main.rs:343-351 | after any run, any upload with nonzero hashes can be verified and then stays so |
| Env.ReadEntry | src/main.rs:165-186 | reads one line like the reference parser |
| Env.Process.SetVar | src/main.rs:187 | sets one variable, or fails on a NUL and sets nothing |
| Env.PatchEnvFromDotfile | src/main.rs:159-190 | the loop leaves the environment that setting all entries of the reference parser in order leaves |
| EnvLaws.SetAllExactly | src/main.rs:165-188 | patching fails exactly on an entry with a NUL; each variable has its last value before that, or its old one |
| EnvLaws.PatchingSucceeds | src/main.rs:187 | patching goes through exactly when no name and no value has a NUL |
| EnvLaws.EntryExactly | src/main.rs:166-187 | a line assigns something exactly when, trimmed and without `export`, it is a name led by a digit, an equals sign and a value |
| EnvLaws.EntriesOfText | src/main.rs:165 | a file assigns what its lines assign in order, the last one also without a line feed |
| StringsLaws.LinesExactly | src/main.rs:165 | lines end at a line feed with or without a carriage return, the last one at the end of the text |
| StringsLaws.TrimExactly | src/main.rs:166 | trimming takes off all white space at both ends and nothing else |
| StringsLaws.TrimMatchesExactly | src/main.rs:186 | stripping a character takes off all of it at both ends and nothing else |
| StringsLaws.WhitespaceExactly | src/main.rs:166 | the 25 characters that count as white space |
| EnvLaws.OthersUnchanged | src/main.rs:182-185 | names that do not start with a digit keep their value |
| EnvLaws.PatchedTwice | src/main.rs:159-190 | patching is idempotent |
| EnvLaws.UnquotedText | src/main.rs:186 | which values are recovered exactly: bare and in double quotes those without a quote at either end, in single quotes those without a single one |
| EnvLaws.QuotesAreLost | src/main.rs:186 | a value that is not recovered from double quotes, and one with double quotes at its ends that is from single ones |
| EnvLaws.EntryOfLine | src/main.rs:165-187 | a line, with or without `export`, in either quotes or none, and with any spacing, is read exactly when its value is one of those |
| EnvLaws.EntriesOfFile | src/main.rs:165-187 | a file of such lines and of lines that assign nothing, its last line terminated or not, yields exactly the entries, in order |
| EnvLaws.FileRestores | src/main.rs:159-190 | patching with such a file goes through, gives every name its last value and changes nothing else |
| Config.NodeListsNormalise | src/main.rs:529-535 | parsed lists hold trimmed nonempty addresses, and joined with commas they parse to themselves |
| Config.ParseJoined | src/main.rs:529-535 | every list of such addresses is recovered from its joined text |
| Config.NodeListsAppend | src/main.rs:529-535 | text without a comma is one trimmed address, or none if blank, and a comma joins the lists on both sides |
| Config.ConfigExactly | src/main.rs:482-527 | when each mode is chosen, where its values come from, and that the first node is the one download uses |
| Config.TargetsOfConfigs | storage_client/src/client.rs:82-143 | which missing-configuration error each kind of configuration leads to, if any |
| PipelineLaws.BuiltConfigsUpload | storage_client/src/client.rs:307-320 | with a configuration built from any environment no upload lacks credentials or a target; when it fails otherwise; dry runs alone have no transaction |
| Config.IndexerAddressesAgree | src/main.rs:537-542 | upload and download use the same indexer address exactly when it is set without white space around it |
| Config.IndexerAddressesDiffer | src/main.rs:537-542 | an environment in which they use different ones |
| Config.ConnectNodes | storage_client/src/client.rs:359-366 | the loop connects all nodes in order, or reports that one failed |

## Left out

- Transcript.FrameInjective: holds for fields shorter than 2^64 bytes, the lengths that a 64-bit prefix can say; no buffer is longer.
- PipelineLaws.CommitmentBindsUpload: states the same bound on the lengths of plaintexts and associated data.
- PipelineLaws.ArtifactReplays: states the bound on the two byte counters, which every artifact in memory meets.
- PipelineLaws.Lifecycle: allocation failures, and errors of the random number generator, are not modelled.
- Config.ConnectNodes: connecting is a fixed function of the address, so a node that answers differently the second time is not captured.
- The inside of SHAKE256, XChaCha20-Poly1305 and the storage network's Merkle tree, which live in other crates.
- Provers other than the mock prover, for which the storage service has an interface and no implementation.
- The limit of 128 nested brackets in the JSON library, and its leniency towards badly encoded text in values it skips or reads as raw bytes.
- Live upload and download through the storage SDK and HTTP, and transaction signing, encoding and mining: an upload is one atomic insertion, a verification one atomic contract call.
- The address that a download requests, and the choice between the mock verifier and the contract by which variables are set: each is modelled where it leads, not how it is picked.
- How storage nodes and the storage SDK read a root text beyond 64 digits in either case with an optional `0x`: other spellings name no file here.
- File system errors, staging files, directories and the default paths of artifacts and decrypted files: files are byte strings.
- Key generation, nonce drawing and erasing secrets: keys and nonces are parameters.
- The JSON of `PreparedUpload`, `EncryptedPayload` and the printed command results, which no command reads back.
- Error texts, the command line, banner and progress output, the web page, the demo and deployment scripts.
