/** How the records are written as JSON and read back (the derived serde
    implementations, and `serde_json`'s entry points on byte slices). */
module Records {
  import opened Common
  import opened Types
  import opened Json
  import Utf8

  // ------------------------------------------------------- struct <-> object

  function Record(keys: seq<string>, values: seq<Json>): Json
    requires |keys| == |values|
  {
    Object(seq(|keys|, i requires 0 <= i < |keys| => Field(keys[i], values[i])))
  }

  datatype Found = Absent | Once(value: Json) | Repeated

  function Find(fields: seq<Field>, key: string): Found {
    if fields == [] then Absent
    else
      var later := Find(fields[1..], key);
      if fields[0].key != key then later
      else if later == Absent then Once(fields[0].value)
      else Repeated
  }

  /** The values of a struct's fields in declaration order, `None` for one that
      is missing. Unknown keys are skipped, a repeated one is an error, and an
      array stands for a struct when it has exactly one element a field. */
  function Fields(v: Json, keys: seq<string>): (r: Option<seq<Option<Json>>>)
    ensures r.Some? ==> |r.value| == |keys|
  {
    match v
    case Object(fields) =>
      if exists i | 0 <= i < |keys| :: Find(fields, keys[i]).Repeated? then None
      else Some(seq(|keys|, i requires 0 <= i < |keys| =>
        match Find(fields, keys[i]) case Once(w) => Some(w) case _ => None))
    case Array(items) =>
      if |items| == |keys| then Some(seq(|keys|, i requires 0 <= i < |keys| => Some(items[i])))
      else None
    case _ => None
  }

  // ------------------------------------------------------------ field values

  function ReadNat(v: Option<Json>, bound: nat): (r: Option<nat>)
    ensures r.Some? ==> r.value < bound
  {
    match v
    case Some(Number(n)) => if n < bound then Some(n) else None
    case _ => None
  }

  function ReadU8(v: Option<Json>): Option<byte> {
    var n :- ReadNat(v, 256);
    Some(n)
  }

  function ReadUsize(v: Option<Json>): Option<nat> {
    ReadNat(v, TWO_TO_THE_64)
  }

  function ReadText(v: Option<Json>): Option<string> {
    match v
    case Some(String(s)) => Some(s)
    case _ => None
  }

  /** An `Option<String>` field may also be missing. */
  function ReadOptionalText(v: Option<Json>): Option<Option<string>> {
    match v
    case None => Some(None)
    case Some(Null) => Some(None)
    case Some(String(s)) => Some(Some(s))
    case _ => None
  }

  function OptionalText(s: Option<string>): Json {
    if s.None? then Null else String(s.value)
  }

  function Texts(ss: seq<string>): Json {
    Array(seq(|ss|, i requires 0 <= i < |ss| => String(ss[i])))
  }

  function ReadTextItems(items: seq<Json>): Option<seq<string>> {
    if items == [] then Some([])
    else
      var s :- ReadText(Some(items[0]));
      var rest :- ReadTextItems(items[1..]);
      Some([s] + rest)
  }

  function ReadTexts(v: Option<Json>): Option<seq<string>> {
    match v
    case Some(Array(items)) => ReadTextItems(items)
    case _ => None
  }

  /** `Vec<u8>`, `Bytes` and `[u8; 32]` are all written as arrays of numbers. */
  function ByteArray(b: bytes): Json {
    Array(seq(|b|, i requires 0 <= i < |b| => Number(b[i])))
  }

  function ReadByteItems(items: seq<Json>): Option<bytes> {
    if items == [] then Some([])
    else
      var b :- ReadU8(Some(items[0]));
      var rest :- ReadByteItems(items[1..]);
      Some([b] + rest)
  }

  /** A `Vec<u8>`. */
  function ReadByteVec(v: Option<Json>): Option<bytes> {
    match v
    case Some(Array(items)) => ReadByteItems(items)
    case _ => None
  }

  /** A `Bytes`, which may also be given as a string. */
  function ReadByteBuf(v: Option<Json>): Option<bytes> {
    match v
    case Some(String(s)) => Some(Utf8.Encode(s))
    case _ => ReadByteVec(v)
  }

  /** A `StateCommitment`, written as the array it wraps. */
  function ReadCommitment(v: Option<Json>): Option<Commitment> {
    var b :- ReadByteVec(v);
    if |b| == 32 then Some(b) else None
  }

  // ----------------------------------------------------------------- structs

  const STATEMENT_KEYS := ["state_commitment", "context", "public_inputs"]

  function StatementToJson(s: ProofStatement): Json {
    Record(STATEMENT_KEYS, [ByteArray(s.stateCommitment), ByteArray(s.context), Texts(s.publicInputs)])
  }

  function StatementFromJson(v: Option<Json>): Option<ProofStatement> {
    var v :- v;
    var f :- Fields(v, STATEMENT_KEYS);
    var stateCommitment :- ReadCommitment(f[0]);
    var context :- ReadByteVec(f[1]);
    var publicInputs :- ReadTexts(f[2]);
    Some(ProofStatement(stateCommitment, context, publicInputs))
  }

  const DESCRIPTOR_KEYS := ["name", "version"]

  function DescriptorToJson(d: ProofSystemDescriptor): Json {
    Record(DESCRIPTOR_KEYS, [String(d.name), String(d.version)])
  }

  function DescriptorFromJson(v: Option<Json>): Option<ProofSystemDescriptor> {
    var v :- v;
    var f :- Fields(v, DESCRIPTOR_KEYS);
    var name :- ReadText(f[0]);
    var version :- ReadText(f[1]);
    Some(ProofSystemDescriptor(name, version))
  }

  const BUNDLE_KEYS := ["system", "proof_bytes", "public_inputs"]

  function BundleToJson(p: ProofBundle): Json {
    Record(BUNDLE_KEYS, [DescriptorToJson(p.system), ByteArray(p.proofBytes), Texts(p.publicInputs)])
  }

  function BundleFromJson(v: Option<Json>): Option<ProofBundle> {
    var v :- v;
    var f :- Fields(v, BUNDLE_KEYS);
    var system :- DescriptorFromJson(f[0]);
    var proofBytes :- ReadByteBuf(f[1]);
    var publicInputs :- ReadTexts(f[2]);
    Some(ProofBundle(system, proofBytes, publicInputs))
  }

  const METADATA_KEYS :=
    ["protocol_version", "content_type", "encryption_scheme", "commitment_scheme", "proof_system"]

  function MetadataToJson(m: PayloadMetadata): Json {
    Record(METADATA_KEYS, [
      Number(m.protocolVersion), String(m.contentType), String(m.encryptionScheme),
      String(m.commitmentScheme), String(m.proofSystem)])
  }

  function MetadataFromJson(v: Option<Json>): Option<PayloadMetadata> {
    var v :- v;
    var f :- Fields(v, METADATA_KEYS);
    var protocolVersion :- ReadU8(f[0]);
    var contentType :- ReadText(f[1]);
    var encryptionScheme :- ReadText(f[2]);
    var commitmentScheme :- ReadText(f[3]);
    var proofSystem :- ReadText(f[4]);
    Some(PayloadMetadata(protocolVersion, contentType, encryptionScheme, commitmentScheme, proofSystem))
  }

  const PAYLOAD_KEYS :=
    ["version", "encrypted_blob", "state_commitment", "proof_statement", "proof", "metadata"]

  function PayloadToJson(p: UploadPayload): Json {
    Record(PAYLOAD_KEYS, [
      Number(p.version), ByteArray(p.encryptedBlob), ByteArray(p.stateCommitment),
      StatementToJson(p.proofStatement), BundleToJson(p.proof), MetadataToJson(p.metadata)])
  }

  function PayloadFromJson(v: Option<Json>): Option<UploadPayload> {
    var v :- v;
    var f :- Fields(v, PAYLOAD_KEYS);
    var version :- ReadU8(f[0]);
    var encryptedBlob :- ReadByteBuf(f[1]);
    var stateCommitment :- ReadCommitment(f[2]);
    var proofStatement :- StatementFromJson(f[3]);
    var proof :- BundleFromJson(f[4]);
    var metadata :- MetadataFromJson(f[5]);
    Some(UploadPayload(version, encryptedBlob, stateCommitment, proofStatement, proof, metadata))
  }

  const SUMMARY_KEYS := ["version", "encrypted_blob_bytes", "state_commitment_hex", "proof_system"]

  function SummaryToJson(s: UploadPayloadSummary): Json {
    Record(SUMMARY_KEYS, [
      Number(s.version), Number(s.encryptedBlobBytes), String(s.stateCommitmentHex), String(s.proofSystem)])
  }

  function SummaryFromJson(v: Option<Json>): Option<UploadPayloadSummary> {
    var v :- v;
    var f :- Fields(v, SUMMARY_KEYS);
    var version :- ReadU8(f[0]);
    var encryptedBlobBytes :- ReadUsize(f[1]);
    var stateCommitmentHex :- ReadText(f[2]);
    var proofSystem :- ReadText(f[3]);
    Some(UploadPayloadSummary(version, encryptedBlobBytes, stateCommitmentHex, proofSystem))
  }

  const STORAGE_KEYS := ["network", "merkle_root", "tx_hash"]

  function StorageToJson(s: StorageReceiptRef): Json {
    Record(STORAGE_KEYS, [String(s.network), String(s.merkleRoot), OptionalText(s.txHash)])
  }

  function StorageFromJson(v: Option<Json>): Option<StorageReceiptRef> {
    var v :- v;
    var f :- Fields(v, STORAGE_KEYS);
    var network :- ReadText(f[0]);
    var merkleRoot :- ReadText(f[1]);
    var txHash :- ReadOptionalText(f[2]);
    Some(StorageReceiptRef(network, merkleRoot, txHash))
  }

  const RECEIPT_KEYS := ["storage", "state_commitment", "payload_bytes"]

  function ReceiptToJson(r: UploadReceipt): Json {
    Record(RECEIPT_KEYS, [StorageToJson(r.storage), ByteArray(r.stateCommitment), Number(r.payloadBytes)])
  }

  function ReceiptFromJson(v: Option<Json>): Option<UploadReceipt> {
    var v :- v;
    var f :- Fields(v, RECEIPT_KEYS);
    var storage :- StorageFromJson(f[0]);
    var stateCommitment :- ReadCommitment(f[1]);
    var payloadBytes :- ReadUsize(f[2]);
    Some(UploadReceipt(storage, stateCommitment, payloadBytes))
  }

  const INPUT_KEYS := ["proof_statement", "proof", "storage"]

  function InputToJson(i: VerifierInput): Json {
    Record(INPUT_KEYS, [StatementToJson(i.proofStatement), BundleToJson(i.proof), StorageToJson(i.storage)])
  }

  function InputFromJson(v: Option<Json>): Option<VerifierInput> {
    var v :- v;
    var f :- Fields(v, INPUT_KEYS);
    var proofStatement :- StatementFromJson(f[0]);
    var proof :- BundleFromJson(f[1]);
    var storage :- StorageFromJson(f[2]);
    Some(VerifierInput(proofStatement, proof, storage))
  }

  const SUBMISSION_KEYS := ["application_id", "verifier_input", "submitter", "memo"]

  function SubmissionToJson(s: CommitmentSubmission): Json {
    Record(SUBMISSION_KEYS, [
      String(s.applicationId), InputToJson(s.verifierInput), OptionalText(s.submitter), OptionalText(s.memo)])
  }

  function SubmissionFromJson(v: Option<Json>): Option<CommitmentSubmission> {
    var v :- v;
    var f :- Fields(v, SUBMISSION_KEYS);
    var applicationId :- ReadText(f[0]);
    var verifierInput :- InputFromJson(f[1]);
    var submitter :- ReadOptionalText(f[2]);
    var memo :- ReadOptionalText(f[3]);
    Some(CommitmentSubmission(applicationId, verifierInput, submitter, memo))
  }

  const ARTIFACT_KEYS :=
    ["version", "source_file", "storage_mode", "payload_summary", "upload_receipt", "commitment_submission"]

  function ArtifactToJson(a: VerificationArtifact): Json {
    Record(ARTIFACT_KEYS, [
      Number(a.version), String(a.sourceFile), String(a.storageMode), SummaryToJson(a.payloadSummary),
      ReceiptToJson(a.uploadReceipt), SubmissionToJson(a.commitmentSubmission)])
  }

  function ArtifactFromJson(v: Option<Json>): Option<VerificationArtifact> {
    var v :- v;
    var f :- Fields(v, ARTIFACT_KEYS);
    var version :- ReadU8(f[0]);
    var sourceFile :- ReadText(f[1]);
    var storageMode :- ReadText(f[2]);
    var payloadSummary :- SummaryFromJson(f[3]);
    var uploadReceipt :- ReceiptFromJson(f[4]);
    var commitmentSubmission :- SubmissionFromJson(f[5]);
    Some(VerificationArtifact(
           version, sourceFile, storageMode, payloadSummary, uploadReceipt, commitmentSubmission))
  }

  // ------------------------------------------------------------ byte strings

  function ToBytes(v: Json, layout: Layout): bytes {
    Utf8.Encode(Print(v, layout))
  }

  function FromSlice(b: bytes): Option<Json> {
    var text :- Utf8.Decode(b);
    Parse(text)
  }

  /** The bytes a proof is computed from: `serde_json::to_vec`. */
  function CanonicalStatement(s: ProofStatement): bytes {
    ToBytes(StatementToJson(s), Compact)
  }

  /** `UploadPayload::encode`. */
  function EncodePayload(p: UploadPayload): bytes {
    ToBytes(PayloadToJson(p), Pretty)
  }

  function DecodePayload(b: bytes): Option<UploadPayload> {
    PayloadFromJson(FromSlice(b))
  }

  /** The artifact file that `upload` writes and `verify` reads. */
  function EncodeArtifact(a: VerificationArtifact): bytes {
    ToBytes(ArtifactToJson(a), Pretty)
  }

  function DecodeArtifact(b: bytes): Option<VerificationArtifact> {
    ArtifactFromJson(FromSlice(b))
  }
}
