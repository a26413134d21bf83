/** The JSON of every record, key by key: what is written, and exactly which
    objects are read back as what. */
module RecordLayout {
  import opened Common
  import opened Types
  import opened Json
  import opened Records
  import Utf8

  // ------------------------------------------------------------ field values

  /** The numbers and texts that are read. */
  lemma NumberIsRead(v: Option<Json>, n: nat)
    ensures ReadUsize(v) == Some(n) <==> v == Some(Number(n)) && n < TWO_TO_THE_64
    ensures ReadU8(v) == Some(n) <==> v == Some(Number(n)) && n < 256
  {
  }

  lemma TextIsRead(v: Option<Json>, s: string)
    ensures ReadText(v) == Some(s) <==> v == Some(String(s))
  {
  }

  lemma OptionalIsRead(v: Option<Json>, o: Option<string>)
    ensures ReadOptionalText(v) == Some(o) <==>
            if o.None? then v == None || v == Some(Null) else v == Some(String(o.value))
  {
  }

  lemma {:induction false} ByteItemsAreRead(items: seq<Json>, b: bytes)
    ensures ReadByteItems(items) == Some(b) <==> Array(items) == ByteArray(b)
  {
    if items == [] {
      assert b == [] || ByteArray(b).items[0] == Number(b[0]);
    } else if b != [] {
      ByteItemsAreRead(items[1..], b[1..]);
      assert items == [items[0]] + items[1..] && b == [b[0]] + b[1..];
      assert ByteArray(b).items == [Number(b[0])] + ByteArray(b[1..]).items;
      if ReadByteItems(items) == Some(b) {
        assert ReadByteItems(items).value[1..] == ReadByteItems(items[1..]).value;
      }
    }
  }

  lemma {:induction false} TextItemsAreRead(items: seq<Json>, ss: seq<string>)
    ensures ReadTextItems(items) == Some(ss) <==> Array(items) == Texts(ss)
  {
    if items == [] {
      assert ss == [] || Texts(ss).items[0] == String(ss[0]);
    } else if ss != [] {
      TextItemsAreRead(items[1..], ss[1..]);
      assert items == [items[0]] + items[1..] && ss == [ss[0]] + ss[1..];
      assert Texts(ss).items == [String(ss[0])] + Texts(ss[1..]).items;
      if ReadTextItems(items) == Some(ss) {
        assert ReadTextItems(items).value[1..] == ReadTextItems(items[1..]).value;
      }
    }
  }

  /** The arrays that are read as bytes and as lists of texts; where a blob is
      expected, a text means its UTF-8. */
  lemma BytesAreRead(v: Option<Json>, b: bytes)
    ensures ReadByteVec(v) == Some(b) <==> v == Some(ByteArray(b))
    ensures ReadByteBuf(v) == Some(b) <==> v.Some? && IsBlob(v.value, b)
  {
    if v.Some? && v.value.Array? {
      ByteItemsAreRead(v.value.items, b);
    }
  }

  lemma CommitmentIsRead(v: Option<Json>, c: Commitment)
    ensures ReadCommitment(v) == Some(c) <==> v == Some(ByteArray(c))
  {
    BytesAreRead(v, c);
  }

  lemma TextsAreRead(v: Option<Json>, ss: seq<string>)
    ensures ReadTexts(v) == Some(ss) <==> v == Some(Texts(ss))
  {
    if v.Some? && v.value.Array? {
      TextItemsAreRead(v.value.items, ss);
    }
  }

  // ------------------------------------------------------- struct <-> object

  /** What stands under a key, when it is not there twice. */
  function Slot(fields: seq<Field>, key: string): Option<Json> {
    match Find(fields, key)
    case Once(v) => Some(v)
    case _ => None
  }

  predicate Repeats(fields: seq<Field>, key: string) {
    Find(fields, key).Repeated?
  }

  lemma SlotsAreRead(fields: seq<Field>, keys: seq<string>)
    ensures Fields(Object(fields), keys) ==
            if exists i | 0 <= i < |keys| :: Repeats(fields, keys[i]) then None
            else Some(seq(|keys|, i requires 0 <= i < |keys| => Slot(fields, keys[i])))
  {
    if !exists i | 0 <= i < |keys| :: Repeats(fields, keys[i]) {
      assert forall i | 0 <= i < |keys| :: !Repeats(fields, keys[i]);
      var slots := seq(|keys|, i requires 0 <= i < |keys| => Slot(fields, keys[i]));
      assert Fields(Object(fields), keys).value == slots;
    }
  }

  lemma SixSlots(fields: seq<Field>, keys: seq<string>)
    requires |keys| == 6
    ensures
      var f := Fields(Object(fields), keys);
      && (f.Some? <==>
            !Repeats(fields, keys[0]) && !Repeats(fields, keys[1]) && !Repeats(fields, keys[2])
            && !Repeats(fields, keys[3]) && !Repeats(fields, keys[4]) && !Repeats(fields, keys[5]))
      && (f.Some? ==>
            f.value == [Slot(fields, keys[0]), Slot(fields, keys[1]), Slot(fields, keys[2]),
                        Slot(fields, keys[3]), Slot(fields, keys[4]), Slot(fields, keys[5])])
  {
    SlotsAreRead(fields, keys);
    if Fields(Object(fields), keys).None? {
      var i :| 0 <= i < 6 && Repeats(fields, keys[i]);
      assert keys[i] in [keys[0], keys[1], keys[2], keys[3], keys[4], keys[5]];
    }
  }

  /** Nothing else is read as a struct: an array needs one element a field. */
  lemma OnlyStructsAreRead(v: Json, keys: seq<string>)
    ensures Fields(v, keys).Some? ==> v.Object? || (v.Array? && |v.items| == |keys|)
  {
  }

  /** A blob, given as numbers or as text. */
  predicate IsBlob(v: Json, b: bytes) {
    v == ByteArray(b) || (v.String? && Utf8.Encode(v.s) == b)
  }

  predicate HasBlob(fields: seq<Field>, key: string, b: bytes) {
    Find(fields, key).Once? && IsBlob(Find(fields, key).value, b)
  }

  /** An optional text: missing, null, or there. */
  predicate HasOptional(fields: seq<Field>, key: string, o: Option<string>) {
    if o.None? then Find(fields, key) in {Absent, Once(Null)} else Find(fields, key) == Once(String(o.value))
  }

  // ----------------------------------------------------------------- records

  // For each record: the object it is written as, and the objects read as it.
  // Keys may come in any order and others may stand between them.

  lemma StatementIsWritten(s: ProofStatement)
    ensures StatementToJson(s) == Object([
              Field("state_commitment", ByteArray(s.stateCommitment)),
              Field("context", ByteArray(s.context)),
              Field("public_inputs", Texts(s.publicInputs))])
  {
    assert StatementToJson(s).fields == [
      Field("state_commitment", ByteArray(s.stateCommitment)),
      Field("context", ByteArray(s.context)),
      Field("public_inputs", Texts(s.publicInputs))];
  }

  lemma StatementIsRead(fields: seq<Field>, s: ProofStatement)
    ensures StatementFromJson(Some(Object(fields))) == Some(s) <==>
            && Find(fields, "state_commitment") == Once(ByteArray(s.stateCommitment))
            && Find(fields, "context") == Once(ByteArray(s.context))
            && Find(fields, "public_inputs") == Once(Texts(s.publicInputs))
  {
    SlotsAreRead(fields, STATEMENT_KEYS);
    CommitmentIsRead(Slot(fields, "state_commitment"), s.stateCommitment);
    BytesAreRead(Slot(fields, "context"), s.context);
    TextsAreRead(Slot(fields, "public_inputs"), s.publicInputs);
  }

  predicate HasStatement(fields: seq<Field>, key: string, s: ProofStatement) {
    Find(fields, key).Once? && StatementFromJson(Some(Find(fields, key).value)) == Some(s)
  }

  lemma DescriptorIsWritten(d: ProofSystemDescriptor)
    ensures DescriptorToJson(d) == Object([
              Field("name", String(d.name)),
              Field("version", String(d.version))])
  {
    assert DescriptorToJson(d).fields == [
      Field("name", String(d.name)),
      Field("version", String(d.version))];
  }

  lemma DescriptorIsRead(fields: seq<Field>, d: ProofSystemDescriptor)
    ensures DescriptorFromJson(Some(Object(fields))) == Some(d) <==>
            && Find(fields, "name") == Once(String(d.name))
            && Find(fields, "version") == Once(String(d.version))
  {
    SlotsAreRead(fields, DESCRIPTOR_KEYS);
    TextIsRead(Slot(fields, "name"), d.name);
    TextIsRead(Slot(fields, "version"), d.version);
  }

  predicate HasDescriptor(fields: seq<Field>, key: string, d: ProofSystemDescriptor) {
    Find(fields, key).Once? && DescriptorFromJson(Some(Find(fields, key).value)) == Some(d)
  }

  lemma BundleIsWritten(p: ProofBundle)
    ensures BundleToJson(p) == Object([
              Field("system", DescriptorToJson(p.system)),
              Field("proof_bytes", ByteArray(p.proofBytes)),
              Field("public_inputs", Texts(p.publicInputs))])
  {
    assert BundleToJson(p).fields == [
      Field("system", DescriptorToJson(p.system)),
      Field("proof_bytes", ByteArray(p.proofBytes)),
      Field("public_inputs", Texts(p.publicInputs))];
  }

  lemma BundleIsRead(fields: seq<Field>, p: ProofBundle)
    ensures BundleFromJson(Some(Object(fields))) == Some(p) <==>
            && HasDescriptor(fields, "system", p.system)
            && HasBlob(fields, "proof_bytes", p.proofBytes)
            && Find(fields, "public_inputs") == Once(Texts(p.publicInputs))
  {
    SlotsAreRead(fields, BUNDLE_KEYS);
    BytesAreRead(Slot(fields, "proof_bytes"), p.proofBytes);
    TextsAreRead(Slot(fields, "public_inputs"), p.publicInputs);
  }

  predicate HasBundle(fields: seq<Field>, key: string, p: ProofBundle) {
    Find(fields, key).Once? && BundleFromJson(Some(Find(fields, key).value)) == Some(p)
  }

  lemma MetadataIsWritten(m: PayloadMetadata)
    ensures MetadataToJson(m) == Object([
              Field("protocol_version", Number(m.protocolVersion)),
              Field("content_type", String(m.contentType)),
              Field("encryption_scheme", String(m.encryptionScheme)),
              Field("commitment_scheme", String(m.commitmentScheme)),
              Field("proof_system", String(m.proofSystem))])
  {
    assert MetadataToJson(m).fields == [
      Field("protocol_version", Number(m.protocolVersion)),
      Field("content_type", String(m.contentType)),
      Field("encryption_scheme", String(m.encryptionScheme)),
      Field("commitment_scheme", String(m.commitmentScheme)),
      Field("proof_system", String(m.proofSystem))];
  }

  lemma MetadataIsRead(fields: seq<Field>, m: PayloadMetadata)
    ensures MetadataFromJson(Some(Object(fields))) == Some(m) <==>
            && Find(fields, "protocol_version") == Once(Number(m.protocolVersion))
            && Find(fields, "content_type") == Once(String(m.contentType))
            && Find(fields, "encryption_scheme") == Once(String(m.encryptionScheme))
            && Find(fields, "commitment_scheme") == Once(String(m.commitmentScheme))
            && Find(fields, "proof_system") == Once(String(m.proofSystem))
  {
    SlotsAreRead(fields, METADATA_KEYS);
    NumberIsRead(Slot(fields, "protocol_version"), m.protocolVersion);
    TextIsRead(Slot(fields, "content_type"), m.contentType);
    TextIsRead(Slot(fields, "encryption_scheme"), m.encryptionScheme);
    TextIsRead(Slot(fields, "commitment_scheme"), m.commitmentScheme);
    TextIsRead(Slot(fields, "proof_system"), m.proofSystem);
  }

  predicate HasMetadata(fields: seq<Field>, key: string, m: PayloadMetadata) {
    Find(fields, key).Once? && MetadataFromJson(Some(Find(fields, key).value)) == Some(m)
  }

  lemma PayloadIsWritten(p: UploadPayload)
    ensures PayloadToJson(p) == Object([
              Field("version", Number(p.version)),
              Field("encrypted_blob", ByteArray(p.encryptedBlob)),
              Field("state_commitment", ByteArray(p.stateCommitment)),
              Field("proof_statement", StatementToJson(p.proofStatement)),
              Field("proof", BundleToJson(p.proof)),
              Field("metadata", MetadataToJson(p.metadata))])
  {
    assert PayloadToJson(p).fields == [
      Field("version", Number(p.version)),
      Field("encrypted_blob", ByteArray(p.encryptedBlob)),
      Field("state_commitment", ByteArray(p.stateCommitment)),
      Field("proof_statement", StatementToJson(p.proofStatement)),
      Field("proof", BundleToJson(p.proof)),
      Field("metadata", MetadataToJson(p.metadata))];
  }

  lemma PayloadIsRead(fields: seq<Field>, p: UploadPayload)
    ensures PayloadFromJson(Some(Object(fields))) == Some(p) <==>
            && Find(fields, "version") == Once(Number(p.version))
            && HasBlob(fields, "encrypted_blob", p.encryptedBlob)
            && Find(fields, "state_commitment") == Once(ByteArray(p.stateCommitment))
            && HasStatement(fields, "proof_statement", p.proofStatement)
            && HasBundle(fields, "proof", p.proof)
            && HasMetadata(fields, "metadata", p.metadata)
  {
    SixSlots(fields, PAYLOAD_KEYS);
    NumberIsRead(Slot(fields, "version"), p.version);
    BytesAreRead(Slot(fields, "encrypted_blob"), p.encryptedBlob);
    CommitmentIsRead(Slot(fields, "state_commitment"), p.stateCommitment);
  }

  lemma SummaryIsWritten(s: UploadPayloadSummary)
    ensures SummaryToJson(s) == Object([
              Field("version", Number(s.version)),
              Field("encrypted_blob_bytes", Number(s.encryptedBlobBytes)),
              Field("state_commitment_hex", String(s.stateCommitmentHex)),
              Field("proof_system", String(s.proofSystem))])
  {
    assert SummaryToJson(s).fields == [
      Field("version", Number(s.version)),
      Field("encrypted_blob_bytes", Number(s.encryptedBlobBytes)),
      Field("state_commitment_hex", String(s.stateCommitmentHex)),
      Field("proof_system", String(s.proofSystem))];
  }

  lemma SummaryIsRead(fields: seq<Field>, s: UploadPayloadSummary)
    ensures SummaryFromJson(Some(Object(fields))) == Some(s) <==>
            && Find(fields, "version") == Once(Number(s.version))
            && Find(fields, "encrypted_blob_bytes") == Once(Number(s.encryptedBlobBytes))
            && s.encryptedBlobBytes < TWO_TO_THE_64
            && Find(fields, "state_commitment_hex") == Once(String(s.stateCommitmentHex))
            && Find(fields, "proof_system") == Once(String(s.proofSystem))
  {
    SlotsAreRead(fields, SUMMARY_KEYS);
    NumberIsRead(Slot(fields, "version"), s.version);
    NumberIsRead(Slot(fields, "encrypted_blob_bytes"), s.encryptedBlobBytes);
    TextIsRead(Slot(fields, "state_commitment_hex"), s.stateCommitmentHex);
    TextIsRead(Slot(fields, "proof_system"), s.proofSystem);
  }

  predicate HasSummary(fields: seq<Field>, key: string, s: UploadPayloadSummary) {
    Find(fields, key).Once? && SummaryFromJson(Some(Find(fields, key).value)) == Some(s)
  }

  lemma StorageIsWritten(s: StorageReceiptRef)
    ensures StorageToJson(s) == Object([
              Field("network", String(s.network)),
              Field("merkle_root", String(s.merkleRoot)),
              Field("tx_hash", OptionalText(s.txHash))])
  {
    assert StorageToJson(s).fields == [
      Field("network", String(s.network)),
      Field("merkle_root", String(s.merkleRoot)),
      Field("tx_hash", OptionalText(s.txHash))];
  }

  lemma StorageIsRead(fields: seq<Field>, s: StorageReceiptRef)
    ensures StorageFromJson(Some(Object(fields))) == Some(s) <==>
            && Find(fields, "network") == Once(String(s.network))
            && Find(fields, "merkle_root") == Once(String(s.merkleRoot))
            && HasOptional(fields, "tx_hash", s.txHash)
  {
    SlotsAreRead(fields, STORAGE_KEYS);
    TextIsRead(Slot(fields, "network"), s.network);
    TextIsRead(Slot(fields, "merkle_root"), s.merkleRoot);
    OptionalIsRead(Slot(fields, "tx_hash"), s.txHash);
  }

  predicate HasStorage(fields: seq<Field>, key: string, s: StorageReceiptRef) {
    Find(fields, key).Once? && StorageFromJson(Some(Find(fields, key).value)) == Some(s)
  }

  lemma ReceiptIsWritten(r: UploadReceipt)
    ensures ReceiptToJson(r) == Object([
              Field("storage", StorageToJson(r.storage)),
              Field("state_commitment", ByteArray(r.stateCommitment)),
              Field("payload_bytes", Number(r.payloadBytes))])
  {
    assert ReceiptToJson(r).fields == [
      Field("storage", StorageToJson(r.storage)),
      Field("state_commitment", ByteArray(r.stateCommitment)),
      Field("payload_bytes", Number(r.payloadBytes))];
  }

  lemma ReceiptIsRead(fields: seq<Field>, r: UploadReceipt)
    ensures ReceiptFromJson(Some(Object(fields))) == Some(r) <==>
            && HasStorage(fields, "storage", r.storage)
            && Find(fields, "state_commitment") == Once(ByteArray(r.stateCommitment))
            && Find(fields, "payload_bytes") == Once(Number(r.payloadBytes))
            && r.payloadBytes < TWO_TO_THE_64
  {
    SlotsAreRead(fields, RECEIPT_KEYS);
    CommitmentIsRead(Slot(fields, "state_commitment"), r.stateCommitment);
    NumberIsRead(Slot(fields, "payload_bytes"), r.payloadBytes);
  }

  predicate HasReceipt(fields: seq<Field>, key: string, r: UploadReceipt) {
    Find(fields, key).Once? && ReceiptFromJson(Some(Find(fields, key).value)) == Some(r)
  }

  lemma InputIsWritten(i: VerifierInput)
    ensures InputToJson(i) == Object([
              Field("proof_statement", StatementToJson(i.proofStatement)),
              Field("proof", BundleToJson(i.proof)),
              Field("storage", StorageToJson(i.storage))])
  {
    assert InputToJson(i).fields == [
      Field("proof_statement", StatementToJson(i.proofStatement)),
      Field("proof", BundleToJson(i.proof)),
      Field("storage", StorageToJson(i.storage))];
  }

  lemma InputIsRead(fields: seq<Field>, i: VerifierInput)
    ensures InputFromJson(Some(Object(fields))) == Some(i) <==>
            && HasStatement(fields, "proof_statement", i.proofStatement)
            && HasBundle(fields, "proof", i.proof)
            && HasStorage(fields, "storage", i.storage)
  {
    SlotsAreRead(fields, INPUT_KEYS);

  }

  predicate HasInput(fields: seq<Field>, key: string, i: VerifierInput) {
    Find(fields, key).Once? && InputFromJson(Some(Find(fields, key).value)) == Some(i)
  }

  lemma SubmissionIsWritten(s: CommitmentSubmission)
    ensures SubmissionToJson(s) == Object([
              Field("application_id", String(s.applicationId)),
              Field("verifier_input", InputToJson(s.verifierInput)),
              Field("submitter", OptionalText(s.submitter)),
              Field("memo", OptionalText(s.memo))])
  {
    assert SubmissionToJson(s).fields == [
      Field("application_id", String(s.applicationId)),
      Field("verifier_input", InputToJson(s.verifierInput)),
      Field("submitter", OptionalText(s.submitter)),
      Field("memo", OptionalText(s.memo))];
  }

  lemma SubmissionIsRead(fields: seq<Field>, s: CommitmentSubmission)
    ensures SubmissionFromJson(Some(Object(fields))) == Some(s) <==>
            && Find(fields, "application_id") == Once(String(s.applicationId))
            && HasInput(fields, "verifier_input", s.verifierInput)
            && HasOptional(fields, "submitter", s.submitter)
            && HasOptional(fields, "memo", s.memo)
  {
    SlotsAreRead(fields, SUBMISSION_KEYS);
    TextIsRead(Slot(fields, "application_id"), s.applicationId);
    OptionalIsRead(Slot(fields, "submitter"), s.submitter);
    OptionalIsRead(Slot(fields, "memo"), s.memo);
  }

  predicate HasSubmission(fields: seq<Field>, key: string, s: CommitmentSubmission) {
    Find(fields, key).Once? && SubmissionFromJson(Some(Find(fields, key).value)) == Some(s)
  }

  lemma ArtifactIsWritten(a: VerificationArtifact)
    ensures ArtifactToJson(a) == Object([
              Field("version", Number(a.version)),
              Field("source_file", String(a.sourceFile)),
              Field("storage_mode", String(a.storageMode)),
              Field("payload_summary", SummaryToJson(a.payloadSummary)),
              Field("upload_receipt", ReceiptToJson(a.uploadReceipt)),
              Field("commitment_submission", SubmissionToJson(a.commitmentSubmission))])
  {
    assert ArtifactToJson(a).fields == [
      Field("version", Number(a.version)),
      Field("source_file", String(a.sourceFile)),
      Field("storage_mode", String(a.storageMode)),
      Field("payload_summary", SummaryToJson(a.payloadSummary)),
      Field("upload_receipt", ReceiptToJson(a.uploadReceipt)),
      Field("commitment_submission", SubmissionToJson(a.commitmentSubmission))];
  }

  lemma ArtifactIsRead(fields: seq<Field>, a: VerificationArtifact)
    ensures ArtifactFromJson(Some(Object(fields))) == Some(a) <==>
            && Find(fields, "version") == Once(Number(a.version))
            && Find(fields, "source_file") == Once(String(a.sourceFile))
            && Find(fields, "storage_mode") == Once(String(a.storageMode))
            && HasSummary(fields, "payload_summary", a.payloadSummary)
            && HasReceipt(fields, "upload_receipt", a.uploadReceipt)
            && HasSubmission(fields, "commitment_submission", a.commitmentSubmission)
  {
    SixSlots(fields, ARTIFACT_KEYS);
    NumberIsRead(Slot(fields, "version"), a.version);
    TextIsRead(Slot(fields, "source_file"), a.sourceFile);
    TextIsRead(Slot(fields, "storage_mode"), a.storageMode);
  }
}
