/** Reading undoes writing for every record, down to the bytes of the files. */
module RecordLaws {
  import opened Common
  import opened Types
  import opened Json
  import opened Records
  import JsonGrammar
  import JsonLaws
  import Utf8

  // ------------------------------------------------------- struct <-> object

  ghost predicate Distinct(keys: seq<string>) {
    forall i, j | 0 <= i < j < |keys| :: keys[i] != keys[j]
  }

  lemma {:induction false} FindInRecord(keys: seq<string>, values: seq<Json>, key: string)
    requires |keys| == |values| && Distinct(keys)
    ensures key !in keys ==> Find(Record(keys, values).fields, key) == Absent
    ensures forall i | 0 <= i < |keys| && keys[i] == key ::
              Find(Record(keys, values).fields, key) == Once(values[i])
  {
    if keys == [] {
    } else {
      FindInRecord(keys[1..], values[1..], key);
      assert Record(keys, values).fields[1..] == Record(keys[1..], values[1..]).fields;
      assert forall i | 0 < i < |keys| :: keys[i] == keys[1..][i - 1] && values[i] == values[1..][i - 1];
    }
  }

  lemma FieldsOfRecord(keys: seq<string>, values: seq<Json>)
    requires |keys| == |values| && Distinct(keys)
    ensures Fields(Record(keys, values), keys).Some?
    ensures forall i | 0 <= i < |keys| :: Fields(Record(keys, values), keys).value[i] == Some(values[i])
  {
    forall i | 0 <= i < |keys|
      ensures Find(Record(keys, values).fields, keys[i]) == Once(values[i])
    {
      FindInRecord(keys, values, keys[i]);
    }
  }

  /** The values that stand under a key, in order. */
  function ValuesOf(fields: seq<Field>, key: string): seq<Json> {
    if fields == [] then []
    else (if fields[0].key == key then [fields[0].value] else []) + ValuesOf(fields[1..], key)
  }

  lemma {:induction false} FindExactly(fields: seq<Field>, key: string)
    ensures
      var values := ValuesOf(fields, key);
      Find(fields, key) == if values == [] then Absent else if |values| == 1 then Once(values[0]) else Repeated
  {
    if fields != [] {
      FindExactly(fields[1..], key);
    }
  }

  /** An object is read as a struct exactly when no field is given twice; fields
      under other keys, and the order of all of them, make no difference. */
  lemma FieldsExactly(fields: seq<Field>, keys: seq<string>)
    ensures Fields(Object(fields), keys).Some? <==>
            forall i | 0 <= i < |keys| :: |ValuesOf(fields, keys[i])| <= 1
    ensures forall i | 0 <= i < |keys| && Fields(Object(fields), keys).Some? ::
              Fields(Object(fields), keys).value[i] ==
              if ValuesOf(fields, keys[i]) == [] then None else Some(ValuesOf(fields, keys[i])[0])
  {
    forall i | 0 <= i < |keys|
      ensures Find(fields, keys[i]).Repeated? <==> |ValuesOf(fields, keys[i])| > 1
    {
      FindExactly(fields, keys[i]);
    }
    forall i | 0 <= i < |keys| && Fields(Object(fields), keys).Some?
      ensures Fields(Object(fields), keys).value[i] ==
              if ValuesOf(fields, keys[i]) == [] then None else Some(ValuesOf(fields, keys[i])[0])
    {
      FindExactly(fields, keys[i]);
    }
  }

  /** The bare values of a struct read like the object written for it. */
  lemma ArrayReadsLikeObject(keys: seq<string>, values: seq<Json>)
    requires |keys| == |values| && Distinct(keys)
    ensures Fields(Array(values), keys) == Fields(Record(keys, values), keys)
  {
    FieldsOfRecord(keys, values);
    assert Fields(Array(values), keys).value == Fields(Record(keys, values), keys).value;
  }

  // ------------------------------------------------------------ field values

  lemma {:induction false} ReadByteArray(b: bytes)
    ensures ReadByteVec(Some(ByteArray(b))) == Some(b)
  {
    if b == [] {
    } else {
      ReadByteArray(b[1..]);
      assert ByteArray(b).items[1..] == ByteArray(b[1..]).items;
      assert [b[0]] + b[1..] == b;
    }
  }

  lemma {:induction false} ReadTextArray(ss: seq<string>)
    ensures ReadTexts(Some(Texts(ss))) == Some(ss)
  {
    if ss == [] {
    } else {
      ReadTextArray(ss[1..]);
      assert Texts(ss).items[1..] == Texts(ss[1..]).items;
      assert [ss[0]] + ss[1..] == ss;
    }
  }

  lemma OptionalTextRoundTrip(s: Option<string>)
    ensures ReadOptionalText(Some(OptionalText(s))) == Some(s)
  {
  }

  // ----------------------------------------------------------------- structs

  lemma StatementRoundTrip(s: ProofStatement)
    ensures StatementFromJson(Some(StatementToJson(s))) == Some(s)
  {
    FieldsOfRecord(STATEMENT_KEYS, [ByteArray(s.stateCommitment), ByteArray(s.context), Texts(s.publicInputs)]);
    ReadByteArray(s.stateCommitment);
    ReadByteArray(s.context);
    ReadTextArray(s.publicInputs);
  }

  lemma DescriptorRoundTrip(d: ProofSystemDescriptor)
    ensures DescriptorFromJson(Some(DescriptorToJson(d))) == Some(d)
  {
    FieldsOfRecord(DESCRIPTOR_KEYS, [String(d.name), String(d.version)]);
  }

  lemma BundleRoundTrip(p: ProofBundle)
    ensures BundleFromJson(Some(BundleToJson(p))) == Some(p)
  {
    FieldsOfRecord(BUNDLE_KEYS, [DescriptorToJson(p.system), ByteArray(p.proofBytes), Texts(p.publicInputs)]);
    DescriptorRoundTrip(p.system);
    ReadByteArray(p.proofBytes);
    ReadTextArray(p.publicInputs);
  }

  lemma MetadataRoundTrip(m: PayloadMetadata)
    ensures MetadataFromJson(Some(MetadataToJson(m))) == Some(m)
  {
    FieldsOfRecord(METADATA_KEYS, [
      Number(m.protocolVersion), String(m.contentType), String(m.encryptionScheme),
      String(m.commitmentScheme), String(m.proofSystem)]);
  }

  lemma PayloadRoundTrip(p: UploadPayload)
    ensures PayloadFromJson(Some(PayloadToJson(p))) == Some(p)
  {
    FieldsOfRecord(PAYLOAD_KEYS, [
      Number(p.version), ByteArray(p.encryptedBlob), ByteArray(p.stateCommitment),
      StatementToJson(p.proofStatement), BundleToJson(p.proof), MetadataToJson(p.metadata)]);
    ReadByteArray(p.encryptedBlob);
    ReadByteArray(p.stateCommitment);
    StatementRoundTrip(p.proofStatement);
    BundleRoundTrip(p.proof);
    MetadataRoundTrip(p.metadata);
  }

  lemma SummaryRoundTrip(s: UploadPayloadSummary)
    ensures SummaryFromJson(Some(SummaryToJson(s))) ==
            if s.encryptedBlobBytes < TWO_TO_THE_64 then Some(s) else None
  {
    FieldsOfRecord(SUMMARY_KEYS, [
      Number(s.version), Number(s.encryptedBlobBytes), String(s.stateCommitmentHex), String(s.proofSystem)]);
  }

  lemma StorageRoundTrip(s: StorageReceiptRef)
    ensures StorageFromJson(Some(StorageToJson(s))) == Some(s)
  {
    FieldsOfRecord(STORAGE_KEYS, [String(s.network), String(s.merkleRoot), OptionalText(s.txHash)]);
  }

  lemma ReceiptRoundTrip(r: UploadReceipt)
    ensures ReceiptFromJson(Some(ReceiptToJson(r))) ==
            if r.payloadBytes < TWO_TO_THE_64 then Some(r) else None
  {
    FieldsOfRecord(RECEIPT_KEYS, [StorageToJson(r.storage), ByteArray(r.stateCommitment), Number(r.payloadBytes)]);
    StorageRoundTrip(r.storage);
    ReadByteArray(r.stateCommitment);
  }

  lemma InputRoundTrip(i: VerifierInput)
    ensures InputFromJson(Some(InputToJson(i))) == Some(i)
  {
    FieldsOfRecord(INPUT_KEYS, [
      StatementToJson(i.proofStatement), BundleToJson(i.proof), StorageToJson(i.storage)]);
    StatementRoundTrip(i.proofStatement);
    BundleRoundTrip(i.proof);
    StorageRoundTrip(i.storage);
  }

  lemma SubmissionFromParts(s: CommitmentSubmission, input: Json)
    requires InputFromJson(Some(input)) == Some(s.verifierInput)
    ensures
      SubmissionFromJson(Some(Record(SUBMISSION_KEYS, [
        String(s.applicationId), input, OptionalText(s.submitter), OptionalText(s.memo)]))) == Some(s)
  {
    var values := [String(s.applicationId), input, OptionalText(s.submitter), OptionalText(s.memo)];
    FieldsOfRecord(SUBMISSION_KEYS, values);
    OptionalTextRoundTrip(s.submitter);
    OptionalTextRoundTrip(s.memo);
    var f := Fields(Record(SUBMISSION_KEYS, values), SUBMISSION_KEYS).value;
    assert f[0] == Some(values[0]) && f[1] == Some(input) && f[2] == Some(values[2]) && f[3] == Some(values[3]);
  }

  lemma SubmissionRoundTrip(s: CommitmentSubmission)
    ensures SubmissionFromJson(Some(SubmissionToJson(s))) == Some(s)
  {
    InputRoundTrip(s.verifierInput);
    SubmissionFromParts(s, InputToJson(s.verifierInput));
  }

  /** Optional fields may be missing, and then mean `None`. */
  lemma OptionalFieldsMayBeMissing(s: StorageReceiptRef, c: CommitmentSubmission)
    ensures
      StorageFromJson(Some(Record(["network", "merkle_root"], [String(s.network), String(s.merkleRoot)])))
      == Some(s.(txHash := None))
    ensures
      SubmissionFromJson(Some(Record(
        ["application_id", "verifier_input"], [String(c.applicationId), InputToJson(c.verifierInput)])))
      == Some(c.(submitter := None, memo := None))
  {
    MissingTxHash(s);
    InputRoundTrip(c.verifierInput);
    MissingNotes(c, InputToJson(c.verifierInput));
  }

  lemma MissingTxHash(s: StorageReceiptRef)
    ensures
      StorageFromJson(Some(Record(["network", "merkle_root"], [String(s.network), String(s.merkleRoot)])))
      == Some(s.(txHash := None))
  {
    var keys, values := ["network", "merkle_root"], [String(s.network), String(s.merkleRoot)];
    FindInRecord(keys, values, "network");
    FindInRecord(keys, values, "merkle_root");
    FindInRecord(keys, values, "tx_hash");
  }

  lemma MissingNotes(c: CommitmentSubmission, input: Json)
    requires InputFromJson(Some(input)) == Some(c.verifierInput)
    ensures
      SubmissionFromJson(Some(Record(["application_id", "verifier_input"], [String(c.applicationId), input])))
      == Some(c.(submitter := None, memo := None))
  {
    var keys, values := ["application_id", "verifier_input"], [String(c.applicationId), input];
    FindInRecord(keys, values, "application_id");
    FindInRecord(keys, values, "verifier_input");
    FindInRecord(keys, values, "submitter");
    FindInRecord(keys, values, "memo");
  }

  /** A blob and proof bytes may also be given as text, which means its UTF-8. */
  lemma BytesMayBeText(p: ProofBundle, text: string)
    requires p.proofBytes == Utf8.Encode(text)
    ensures
      BundleFromJson(Some(Record(BUNDLE_KEYS, [DescriptorToJson(p.system), String(text), Texts(p.publicInputs)])))
      == Some(p)
  {
    FieldsOfRecord(BUNDLE_KEYS, [DescriptorToJson(p.system), String(text), Texts(p.publicInputs)]);
    DescriptorRoundTrip(p.system);
    ReadTextArray(p.publicInputs);
  }

  /** The counters of an artifact are `usize`s; this is where that matters. */
  predicate CountersFit(a: VerificationArtifact) {
    && a.payloadSummary.encryptedBlobBytes < TWO_TO_THE_64
    && a.uploadReceipt.payloadBytes < TWO_TO_THE_64
  }

  lemma ArtifactFields(values: seq<Json>)
    requires |values| == 6
    ensures Fields(Record(ARTIFACT_KEYS, values), ARTIFACT_KEYS) ==
            Some([Some(values[0]), Some(values[1]), Some(values[2]),
                  Some(values[3]), Some(values[4]), Some(values[5])])
  {
    FieldsOfRecord(ARTIFACT_KEYS, values);
    var f := Fields(Record(ARTIFACT_KEYS, values), ARTIFACT_KEYS).value;
    assert f == [f[0], f[1], f[2], f[3], f[4], f[5]];
  }

  /** An artifact from the JSON of its parts, however those were written. */
  lemma ArtifactFromParts(
    a: VerificationArtifact, summary: Json, receipt: Json, submission: Json,
    s: Option<UploadPayloadSummary>, r: Option<UploadReceipt>)
    requires SummaryFromJson(Some(summary)) == s && ReceiptFromJson(Some(receipt)) == r
    requires SubmissionFromJson(Some(submission)) == Some(a.commitmentSubmission)
    ensures
      ArtifactFromJson(Some(Record(ARTIFACT_KEYS, [
        Number(a.version), String(a.sourceFile), String(a.storageMode), summary, receipt, submission]))) ==
      match (s, r)
      case (Some(s), Some(r)) => Some(a.(payloadSummary := s, uploadReceipt := r))
      case _ => None
  {
    ArtifactFields([Number(a.version), String(a.sourceFile), String(a.storageMode), summary, receipt, submission]);
  }

  lemma ArtifactRoundTrip(a: VerificationArtifact)
    ensures ArtifactFromJson(Some(ArtifactToJson(a))) == if CountersFit(a) then Some(a) else None
  {
    SummaryRoundTrip(a.payloadSummary);
    ReceiptRoundTrip(a.uploadReceipt);
    SubmissionRoundTrip(a.commitmentSubmission);
    var summary, receipt := SummaryToJson(a.payloadSummary), ReceiptToJson(a.uploadReceipt);
    ArtifactFromParts(
      a, summary, receipt, SubmissionToJson(a.commitmentSubmission),
      SummaryFromJson(Some(summary)), ReceiptFromJson(Some(receipt)));
  }

  // ------------------------------------------------------------ byte strings

  lemma FromSliceToBytes(v: Json, layout: Layout)
    ensures FromSlice(ToBytes(v, layout)) == Some(v)
  {
    Utf8.DecodeEncode(Print(v, layout));
    JsonLaws.ParsePrint(v, layout);
  }

  /** The byte strings read as a tree: the UTF-8 of its documents. */
  lemma FromSliceExactly(b: bytes, v: Json)
    ensures FromSlice(b) == Some(v) <==> exists text :: b == Utf8.Encode(text) && JsonGrammar.IsDocument(v, text)
  {
    if FromSlice(b) == Some(v) {
      var text := Utf8.Decode(b).value;
      Utf8.EncodeDecode(b);
      JsonLaws.ParseExactly(text, v);
    }
    if text :| b == Utf8.Encode(text) && JsonGrammar.IsDocument(v, text) {
      Utf8.DecodeEncode(text);
      JsonLaws.ParseExactly(text, v);
    }
  }

  /** Every upload payload survives the file it is stored in. */
  lemma DecodeEncodePayload(p: UploadPayload)
    ensures DecodePayload(EncodePayload(p)) == Some(p)
  {
    FromSliceToBytes(PayloadToJson(p), Pretty);
    PayloadRoundTrip(p);
  }

  /** Every artifact survives its file, exactly when its counters are `usize`s. */
  lemma DecodeEncodeArtifact(a: VerificationArtifact)
    ensures DecodeArtifact(EncodeArtifact(a)) == if CountersFit(a) then Some(a) else None
  {
    FromSliceToBytes(ArtifactToJson(a), Pretty);
    ArtifactRoundTrip(a);
  }

  /** The bytes hashed into a proof determine the whole statement. */
  lemma CanonicalStatementInjective(s: ProofStatement, t: ProofStatement)
    requires CanonicalStatement(s) == CanonicalStatement(t)
    ensures s == t
  {
    FromSliceToBytes(StatementToJson(s), Compact);
    FromSliceToBytes(StatementToJson(t), Compact);
    StatementRoundTrip(s);
    StatementRoundTrip(t);
  }

  /** JSON written for a struct starts with an opening brace. */
  lemma RecordStartsWithBrace(keys: seq<string>, values: seq<Json>, layout: Layout)
    requires |keys| == |values|
    ensures ToBytes(Record(keys, values), layout) != []
    ensures ToBytes(Record(keys, values), layout)[0] == '{' as int
  {
    var s := Print(Record(keys, values), layout);
    assert s[0] == '{';
    assert Utf8.Encode(s)[0] == Utf8.EncodeChar('{')[0];
  }

  /** Bytes whose first is a control character that is no white space are not
      JSON at all. */
  lemma ControlByteIsNotJson(b: bytes)
    requires b != [] && b[0] < 32 && !IsSpace(b[0] as char)
    ensures FromSlice(b) == None
  {
    if Utf8.Decode(b).Some? {
      var text := Utf8.Decode(b).value;
      assert text[0] == b[0] as char;
      assert SkipSpace(text) == text;
      assert NumberRun(text).0 == "";
    }
  }
}
