/** What the commands undo, agree on and count. */
module PipelineLaws {
  import opened Common
  import opened Primitives
  import opened Types
  import opened Encryption
  import opened Pipeline
  import Config
  import Decimal
  import Env
  import Hex
  import Json
  import Records
  import RecordLaws
  import Registry
  import Transcript
  import TranscriptLaws
  import Utf8
  import Verifier
  import Zk

  /** Files are told apart exactly: an envelope is never JSON, so the raw branch
      takes all envelopes and the JSON branch all payloads that hold one. */
  lemma SniffingIsExact(file: bytes, envelope: EncryptedPayload)
    ensures ParseEncryptedPayload(file) == Ok((envelope, RawEncryptedPayload)) <==> Opened(file) == Ok(envelope)
    ensures ParseEncryptedPayload(file) == Ok((envelope, UploadPayloadJson)) <==>
            Records.DecodePayload(file).Some?
            && Opened(Records.DecodePayload(file).value.encryptedBlob) == Ok(envelope)
  {
    if Opened(file).Ok? {
      SealOpened(file);
      RecordLaws.ControlByteIsNotJson(file);
    }
  }

  /** An envelope is recovered from itself and from any payload around it. */
  lemma EnvelopeIsRecovered(envelope: EncryptedPayload, payload: UploadPayload)
    requires envelope.version == 1 && payload.encryptedBlob == Sealed(envelope)
    ensures ParseEncryptedPayload(Sealed(envelope)) == Ok((envelope, RawEncryptedPayload))
    ensures ParseEncryptedPayload(Records.EncodePayload(payload)) == Ok((envelope, UploadPayloadJson))
  {
    OpenSealed(envelope);
    SniffingIsExact(Sealed(envelope), envelope);
    RecordLaws.DecodeEncodePayload(payload);
  }

  /** What is prepared for upload, by any committer and with any bytes as
      associated data, is recovered from its JSON and decrypts under the printed
      key to exactly what was encrypted. */
  lemma PreparedDecrypts(
    p: Primitives, domain: bytes, key: Key, nonce: Bytes24, plaintext: bytes, aad: bytes)
    ensures PrepareUpload(p, domain, key, nonce, plaintext, aad).Ok? <==> |plaintext| <= p.maxPlaintext
    ensures PrepareUpload(p, domain, key, nonce, plaintext, aad).Ok? ==>
              var prepared := PrepareUpload(p, domain, key, nonce, plaintext, aad).value;
              && ParseEncryptedPayload(prepared.encodedPayload) == Ok((prepared.envelope, UploadPayloadJson))
              && ParseEncryptedPayload(Sealed(prepared.envelope)) == Ok((prepared.envelope, RawEncryptedPayload))
              && KeyOfHex(KeyToHex(key)) == Ok(key)
              && Decrypt(p, key, prepared.envelope, aad) == Ok(plaintext)
  {
    if PrepareUpload(p, domain, key, nonce, plaintext, aad).Ok? {
      var prepared := PrepareUpload(p, domain, key, nonce, plaintext, aad).value;
      EnvelopeIsRecovered(prepared.envelope, prepared.uploadPayload);
      KeyHexRoundTrip(key);
      DecryptIsInverse(p, key, prepared.envelope, aad, plaintext);
    }
  }

  /** What is uploaded decrypts, under the printed key and the same associated
      data, to exactly what was encrypted. */
  lemma Lifecycle(p: Primitives, r: UploadRequest)
    ensures Prepare(p, r).Ok? <==> |r.plaintext| <= p.maxPlaintext
    ensures Prepare(p, r).Ok? ==>
              var prepared := Prepare(p, r).value;
              && RunDecrypt(p, prepared.encodedPayload, KeyToHex(r.key), r.aad) == Ok(r.plaintext)
              && RunDecrypt(p, Sealed(prepared.envelope), KeyToHex(r.key), r.aad) == Ok(r.plaintext)
  {
    PreparedDecrypts(p, Transcript.COMMITMENT_DOMAIN, r.key, r.nonce, r.plaintext, Utf8.Encode(r.aad));
  }

  /** Whatever decrypts, under whatever key text and associated data, is what
      encrypting it with the file's nonce would have put into the file. */
  lemma OnlyGenuineDecrypts(p: Primitives, file: bytes, keyHex: string, aad: string, plaintext: bytes)
    ensures RunDecrypt(p, file, keyHex, aad) == Ok(plaintext) <==>
            && ParseEncryptedPayload(file).Ok?
            && KeyOfHex(keyHex).Ok?
            && var envelope := ParseEncryptedPayload(file).value.0;
               Encrypt(p, KeyOfHex(keyHex).value, envelope.nonce, plaintext, Utf8.Encode(aad)) == Ok(envelope)
  {
    if ParseEncryptedPayload(file).Ok? && KeyOfHex(keyHex).Ok? {
      DecryptIsInverse(
        p, KeyOfHex(keyHex).value, ParseEncryptedPayload(file).value.0, Utf8.Encode(aad), plaintext);
    }
  }

  /** The sizes that a receipt, a summary and a public input report. */
  lemma SizesAdd(p: Primitives, r: UploadRequest, config: Config.ZeroGStorageConfig, tx: Option<Bytes32>)
    requires Prepare(p, r).Ok?
    ensures
      var prepared := Prepare(p, r).value;
      var prefix := "ciphertext_bytes=";
      && |prepared.envelope.ciphertext| == |r.plaintext| + 16
      && Summary(prepared.uploadPayload).encryptedBlobBytes == |r.plaintext| + 41
      && StartsWith(prepared.proofStatement.publicInputs[1], prefix)
      && Decimal.Parse(StripPrefix(prepared.proofStatement.publicInputs[1], prefix)) == Some(|r.plaintext| + 16)
    ensures
      var prepared := Prepare(p, r).value;
      var receipt := UploadPrepared(p, Transcript.COMMITMENT_DOMAIN, config, prepared, tx);
      receipt.Ok? ==>
        && receipt.value.payloadBytes == |Records.EncodePayload(prepared.uploadPayload)|
        && Records.DecodePayload(Records.EncodePayload(prepared.uploadPayload)) == Some(prepared.uploadPayload)
  {
    var prepared := Prepare(p, r).value;
    var prefix, digits := "ciphertext_bytes=", Decimal.Print(|r.plaintext| + 16);
    Sizes(p, r.key, r.nonce, r.plaintext, Utf8.Encode(r.aad));
    StripPrefixed(prefix, digits);
    Decimal.ParsePrint(|r.plaintext| + 16);
    RecordLaws.DecodeEncodePayload(prepared.uploadPayload);
  }

  /** The texts derived from an upload name its commitment and proof system. */
  lemma TextsNameTheUpload(p: Primitives, r: UploadRequest)
    requires Prepare(p, r).Ok?
    ensures
      var prepared := Prepare(p, r).value;
      var summary := Summary(prepared.uploadPayload);
      && StartsWith(prepared.proofStatement.publicInputs[0], "state_commitment=")
      && StripPrefix(prepared.proofStatement.publicInputs[0], "state_commitment=") == summary.stateCommitmentHex
      && Hex.Decode(StripPrefix(summary.stateCommitmentHex, "0x")) == Some(prepared.stateCommitment)
      && summary.proofSystem == prepared.uploadPayload.metadata.proofSystem
      && summary.version == prepared.uploadPayload.version
  {
    var prepared := Prepare(p, r).value;
    StripPrefixed("state_commitment=", Verifier.CommitmentToHex(prepared.stateCommitment));
    StripPrefixed("0x", Hex.Encode(prepared.stateCommitment));
    Hex.DecodeEncode(prepared.stateCommitment);
  }

  /** Two messages with the same 32 bytes of hash. */
  predicate HashCollision(p: Primitives, a: bytes, b: bytes) {
    a != b && p.Digest(a, 32) == p.Digest(b, 32)
  }

  /** One commitment stands for one envelope, one associated data and, for a key,
      one plaintext; anything else would be a collision of the hash. */
  lemma CommitmentBindsUpload(p: Primitives, r: UploadRequest, t: UploadRequest)
    requires Prepare(p, r).Ok? && Prepare(p, t).Ok?
    requires Prepare(p, r).value.stateCommitment == Prepare(p, t).value.stateCommitment
    requires |r.plaintext| + 41 < TWO_TO_THE_64 && |t.plaintext| + 41 < TWO_TO_THE_64
    requires Transcript.Fits(Utf8.Encode(r.aad)) && Transcript.Fits(Utf8.Encode(t.aad))
    ensures
      var a, b := Prepare(p, r).value, Prepare(p, t).value;
      || HashCollision(
           p,
           Transcript.CommitTranscript(Transcript.COMMITMENT_DOMAIN, Sealed(a.envelope), Utf8.Encode(r.aad)),
           Transcript.CommitTranscript(Transcript.COMMITMENT_DOMAIN, Sealed(b.envelope), Utf8.Encode(t.aad)))
      || (a.envelope == b.envelope && r.aad == t.aad && (r.key == t.key ==> r.plaintext == t.plaintext))
  {
    var a, b := Prepare(p, r).value, Prepare(p, t).value;
    var domain, aad, aad' := Transcript.COMMITMENT_DOMAIN, Utf8.Encode(r.aad), Utf8.Encode(t.aad);
    Sizes(p, r.key, r.nonce, r.plaintext, aad);
    Sizes(p, t.key, t.nonce, t.plaintext, aad');
    if Transcript.CommitTranscript(domain, Sealed(a.envelope), aad)
       == Transcript.CommitTranscript(domain, Sealed(b.envelope), aad') {
      TranscriptLaws.CommitTranscriptInjective(
        domain, Sealed(a.envelope), aad, domain, Sealed(b.envelope), aad');
      Utf8.EncodeInjective(r.aad, t.aad);
      OpenSealed(a.envelope);
      OpenSealed(b.envelope);
      DecryptIsInverse(p, r.key, a.envelope, aad, r.plaintext);
      DecryptIsInverse(p, t.key, b.envelope, aad', t.plaintext);
    }
  }

  /** The texts that name a root: its 64 digits in either case, optionally
      prefixed, and so the text in every receipt. */
  lemma RootSpellings(text: string, root: Bytes32)
    ensures RootOf(text) == Some(root) <==>
            && Hex.AllHexDigits(StripPrefix(text, "0x"))
            && Hex.Lower(StripPrefix(text, "0x")) == Hex.Encode(root)
    ensures RootOf("0x" + Hex.Encode(root)) == Some(root)
  {
    Hex.DecodesTo(StripPrefix(text, "0x"), root);
    StripPrefixed("0x", Hex.Encode(root));
    Hex.DecodeEncode(root);
  }

  /** Different roots are downloaded to different files. */
  lemma DownloadNamesDiffer(root: Bytes32, other: Bytes32)
    requires DownloadName("0x" + Hex.Encode(root)) == DownloadName("0x" + Hex.Encode(other))
    ensures root == other
  {
    DownloadNameOfRoot(root);
    DownloadNameOfRoot(other);
    var a, b := Hex.Encode(root), Hex.Encode(other);
    assert (a + ".json")[..64] == a && (b + ".json")[..64] == b;
    Hex.EncodeInjective(root, other);
  }

  lemma DownloadNameOfRoot(root: Bytes32)
    ensures DownloadName("0x" + Hex.Encode(root)) == Hex.Encode(root) + ".json"
  {
    var digits := Hex.Encode(root);
    Hex.DecodeEncode(root);
    Hex.DecodesExactly(digits);
    Hex.PrefixIsOptional(digits);
    forall i | 0 <= i < |digits|
      ensures FileNameChar(digits[i]) == digits[i]
    {
      assert Hex.IsHexDigit(digits[i]);
    }
  }

  /** With a configuration that `upload` builds for itself, no upload fails for
      want of credentials or a target; when it fails otherwise, and that the
      artifact has a transaction exactly when it does not say `dry_run`. */
  lemma BuiltConfigsUpload(p: Primitives, vars: Env.Vars, network: string, r: UploadRequest, tx: Option<Bytes32>)
    ensures
      var (config, mode) := Config.BuildStorageConfig(vars, network);
      var outcome := RunUpload(p, r, config, mode, tx);
      && (outcome == Err(StorageClientError.Encryption(AeadFailure)) <==> |r.plaintext| > p.maxPlaintext)
      && (outcome == Err(ZeroGSdk) <==> |r.plaintext| <= p.maxPlaintext && mode != "dry_run" && tx.None?)
      && (outcome.Err? ==> outcome.error in {StorageClientError.Encryption(AeadFailure), ZeroGSdk})
      && (outcome.Ok? ==>
            var a := outcome.value.1;
            && a.storageMode == mode
            && a.uploadReceipt.storage.network == network
            && (a.uploadReceipt.storage.txHash.None? <==> mode == "dry_run"))
  {
    var (config, mode) := Config.BuildStorageConfig(vars, network);
    Config.ConfigExactly(vars, network);
    if config.mode == Config.Live {
      Config.BuiltConfigsHaveTargets(vars, network);
    }
  }

  /** An artifact loads exactly when its counters are `usize`s, and gives back
      what the user said. */
  lemma ArtifactLoads(
    p: Primitives, r: UploadRequest, config: Config.ZeroGStorageConfig, mode: string, tx: Option<Bytes32>)
    requires RunUpload(p, r, config, mode, tx).Ok?
    ensures
      var (file, a) := RunUpload(p, r, config, mode, tx).value;
      var loaded := LoadSubmission(Records.EncodeArtifact(a));
      if RecordLaws.CountersFit(a) then
        && loaded == Ok(a.commitmentSubmission)
        && Records.DecodeArtifact(Records.EncodeArtifact(a)).value.sourceFile == r.sourceFile
        && Records.DecodeArtifact(Records.EncodeArtifact(a)).value.storageMode == mode
        && loaded.value.applicationId == r.applicationId
        && loaded.value.submitter == r.submitter
        && loaded.value.memo == r.memo
        && loaded.value.verifierInput.proofStatement.context == Utf8.Encode(r.aad)
        && loaded.value.verifierInput.storage.network == config.networkLabel
        && loaded.value.verifierInput.storage.txHash ==
           if config.mode == Config.DryRun then None else Some("0x" + Hex.Encode(tx.value))
      else loaded == Err(NotAnArtifact)
  {
    var a := RunUpload(p, r, config, mode, tx).value.1;
    RecordLaws.DecodeEncodeArtifact(a);
  }

  lemma MockSubmitAccepts(p: Primitives, s: CommitmentSubmission)
    requires Verifier.MockValidate(p, s.verifierInput).Ok?
    ensures
      var receipt := Verifier.MockSubmit(p, s);
      && receipt.Ok? && receipt.value.accepted
      && receipt.value.verifierTxHash
         == Some(Verifier.CommitmentToHex(s.verifierInput.proofStatement.stateCommitment))
  {
  }

  /** What `verify` makes of the file of any artifact, in either layout: which
      artifacts it goes on with, and which of the three errors others cause. */
  lemma WrittenArtifactLoads(a: VerificationArtifact, layout: Json.Layout)
    ensures
      var loaded := LoadSubmission(Records.ToBytes(Records.ArtifactToJson(a), layout));
      var statement := a.commitmentSubmission.verifierInput.proofStatement;
      var same := a.uploadReceipt.stateCommitment == statement.stateCommitment;
      && (loaded.Ok? <==> RecordLaws.CountersFit(a) && a.version == 1 && same)
      && (loaded.Ok? ==> loaded.value == a.commitmentSubmission)
      && (loaded == Err(NotAnArtifact) <==> !RecordLaws.CountersFit(a))
      && (loaded == Err(UnsupportedArtifact(a.version)) <==> RecordLaws.CountersFit(a) && a.version != 1)
      && (loaded == Err(CommitmentMismatch) <==> RecordLaws.CountersFit(a) && a.version == 1 && !same)
  {
    RecordLaws.FromSliceToBytes(Records.ArtifactToJson(a), layout);
    RecordLaws.ArtifactRoundTrip(a);
  }

  /** What local verification accepts, and the receipt it then gives. */
  lemma VerifiesLocallyExactly(p: Primitives, file: bytes)
    ensures
      var loaded, outcome := LoadSubmission(file), VerifyLocally(p, file);
      && (outcome.Ok? <==>
            && loaded.Ok?
            && var input := loaded.value.verifierInput;
               && StartsWith(input.storage.merkleRoot, "0x")
               && IsMockProof(p, input.proofStatement, input.proof))
      && (outcome.Ok? ==>
            outcome.value == VerificationReceipt(
              true,
              Some("0x" + Hex.Encode(loaded.value.verifierInput.proofStatement.stateCommitment)),
              Some("mock verifier accepted the commitment and proof")))
  {
    if LoadSubmission(file).Ok? {
      var input := LoadSubmission(file).value.verifierInput;
      Zk.VerifyExactly(p, input.proofStatement, input.proof, []);
    }
  }

  /** The prover's own bundle, up to the system version. */
  predicate IsMockProof(p: Primitives, s: ProofStatement, proof: ProofBundle) {
    proof == Zk.Prove(p, s, []).(system := ProofSystemDescriptor("mock-zk", proof.system.version))
  }

  /** What verification on chain accepts, and the call it then sends. */
  lemma VerifiesOnChainExactly(p: Primitives, sender: Registry.Address, file: bytes, call: Registry.Call)
    ensures
      var loaded, root := LoadSubmission(file), call.data.storageMerkleRoot;
      VerifyOnChain(p, sender, file) == Ok(call) <==>
      && loaded.Ok?
      && var input := loaded.value.verifierInput;
         var digits := StripPrefix(input.storage.merkleRoot, "0x");
         && call == Registry.Call(
              sender, Verifier.CallData(input.proofStatement.stateCommitment, root, input.proof.proofBytes))
         && !Verifier.AllZero(input.proofStatement.stateCommitment)
         && !Verifier.AllZero(root)
         && Hex.AllHexDigits(digits) && Hex.Lower(digits) == Hex.Encode(root)
         && IsMockProof(p, input.proofStatement, input.proof)
  {
    if LoadSubmission(file).Ok? {
      var input := LoadSubmission(file).value.verifierInput;
      Zk.VerifyExactly(p, input.proofStatement, input.proof, []);
      Verifier.ParseBytes32Accepts(input.storage.merkleRoot, call.data.storageMerkleRoot);
    }
  }

  /** Whoever holds the stored file can check it: the commitment is that of the
      blob in it, and the proof is genuine for a statement about it. */
  lemma StoredPayloadChecks(p: Primitives, r: UploadRequest)
    requires Prepare(p, r).Ok?
    ensures
      var stored := Records.DecodePayload(Prepare(p, r).value.encodedPayload);
      && stored.Some?
      && var payload := stored.value;
         && payload.version == 1
         && payload.metadata == PayloadMetadata(
              1, "application/json", "XChaCha20Poly1305", "SHAKE256-256", SystemLabel(Zk.MOCK_SYSTEM))
         && payload.stateCommitment == payload.proofStatement.stateCommitment
         && payload.stateCommitment
            == Transcript.CommitTo(
                 p, Transcript.COMMITMENT_DOMAIN, payload.encryptedBlob, payload.proofStatement.context)
         && payload.proofStatement.context == Utf8.Encode(r.aad)
         && Zk.Verify(p, payload.proofStatement, payload.proof)
  {
    RecordLaws.DecodeEncodePayload(Prepare(p, r).value.uploadPayload);
  }

  /** Every upload, dry run or live, can be replayed locally from its artifact:
      the mock verifier accepts it under the hash its receipt names. */
  lemma ArtifactReplays(
    p: Primitives, r: UploadRequest, config: Config.ZeroGStorageConfig, mode: string, tx: Option<Bytes32>)
    requires RunUpload(p, r, config, mode, tx).Ok?
    requires RecordLaws.CountersFit(RunUpload(p, r, config, mode, tx).value.1)
    ensures
      var a := RunUpload(p, r, config, mode, tx).value.1;
      var replayed := VerifyLocally(p, Records.EncodeArtifact(a));
      && replayed.Ok? && replayed.value.accepted
      && replayed.value.verifierTxHash == Some(Verifier.CommitmentToHex(a.uploadReceipt.stateCommitment))
  {
    var a := RunUpload(p, r, config, mode, tx).value.1;
    ArtifactLoads(p, r, config, mode, tx);
    UploadsVerify(p, r, config, mode, tx);
    MockSubmitAccepts(p, a.commitmentSubmission);
  }

  /** The verifier input of every upload carries a genuine proof and a root. */
  lemma UploadsVerify(
    p: Primitives, r: UploadRequest, config: Config.ZeroGStorageConfig, mode: string, tx: Option<Bytes32>)
    requires RunUpload(p, r, config, mode, tx).Ok?
    ensures
      var input := RunUpload(p, r, config, mode, tx).value.1.commitmentSubmission.verifierInput;
      && Verifier.MockValidate(p, input).Ok?
      && Zk.Verify(p, input.proofStatement, input.proof)
      && input.proofStatement == Prepare(p, r).value.proofStatement
  {
    var root := RunUpload(p, r, config, mode, tx).value.1.uploadReceipt.storage.merkleRoot;
    assert root[..2] == "0x";
  }

  /** The root in the receipt of an upload, as bytes. */
  function RootBytes(
    p: Primitives, config: Config.ZeroGStorageConfig, file: bytes): Bytes32
  {
    if config.mode == Config.DryRun then
      Transcript.CommitTo(p, Transcript.COMMITMENT_DOMAIN, file, Transcript.DRY_RUN_ROOT_CONTEXT)
    else p.merkleRoot(file)
  }

  /** An upload verifies on chain exactly when its artifact loads and neither
      hash is zero; the call then names its commitment, root and proof. */
  lemma UploadsVerifyOnChain(
    p: Primitives, r: UploadRequest, config: Config.ZeroGStorageConfig, mode: string, tx: Option<Bytes32>,
    sender: Registry.Address)
    requires RunUpload(p, r, config, mode, tx).Ok?
    ensures
      var (file, a) := RunUpload(p, r, config, mode, tx).value;
      var c, root := a.uploadReceipt.stateCommitment, RootBytes(p, config, file);
      var call := VerifyOnChain(p, sender, Records.EncodeArtifact(a));
      && (call.Ok? <==> RecordLaws.CountersFit(a) && !Verifier.AllZero(c) && !Verifier.AllZero(root))
      && (call.Ok? ==>
            call.value == Registry.Call(
              sender,
              Verifier.CallData(c, root, Transcript.MockProof(p, Prepare(p, r).value.proofStatement))))
  {
    var (file, a) := RunUpload(p, r, config, mode, tx).value;
    ArtifactLoads(p, r, config, mode, tx);
    UploadsVerify(p, r, config, mode, tx);
    UploadNamesHashes(p, r, config, mode, tx);
    if RecordLaws.CountersFit(a) {
      LoadedVerifiesOnChain(
        p, sender, Records.EncodeArtifact(a), a.commitmentSubmission, RootBytes(p, config, file));
    }
  }

  lemma UploadNamesHashes(
    p: Primitives, r: UploadRequest, config: Config.ZeroGStorageConfig, mode: string, tx: Option<Bytes32>)
    requires RunUpload(p, r, config, mode, tx).Ok?
    ensures
      var (file, a) := RunUpload(p, r, config, mode, tx).value;
      var input := a.commitmentSubmission.verifierInput;
      && input.storage.merkleRoot == Verifier.CommitmentToHex(RootBytes(p, config, file))
      && input.proofStatement.stateCommitment == a.uploadReceipt.stateCommitment
      && input.proof.proofBytes == Transcript.MockProof(p, Prepare(p, r).value.proofStatement)
  {
  }

  lemma LoadedVerifiesOnChain(
    p: Primitives, sender: Registry.Address, file: bytes, s: CommitmentSubmission, root: Bytes32)
    requires LoadSubmission(file) == Ok(s)
    requires s.verifierInput.storage.merkleRoot == Verifier.CommitmentToHex(root)
    requires Zk.Verify(p, s.verifierInput.proofStatement, s.verifierInput.proof)
    ensures
      var c, call := s.verifierInput.proofStatement.stateCommitment, VerifyOnChain(p, sender, file);
      && (call.Ok? <==> !Verifier.AllZero(c) && !Verifier.AllZero(root))
      && (call.Ok? ==>
            call.value == Registry.Call(sender, Verifier.CallData(c, root, s.verifierInput.proof.proofBytes)))
  {
    Verifier.PrintedRootEncodes(p, s, root);
  }

  /** Whatever call the adapter sends, for whatever artifact file it was given,
      carries the mock proof of the statement in that file, and goes through. */
  lemma AdapterCallsAreGenuine(p: Primitives, sender: Registry.Address, file: bytes)
    requires VerifyOnChain(p, sender, file).Ok?
    ensures
      var call := VerifyOnChain(p, sender, file).value;
      && LoadSubmission(file).Ok?
      && var statement := LoadSubmission(file).value.verifierInput.proofStatement;
         && Registry.Accepted(call)
         && call.sender == sender
         && call.data.stateCommitment == statement.stateCommitment
         && call.data.proofContext == Transcript.MockProof(p, statement)
  {
    Verifier.ValidatedEncodes(p, LoadSubmission(file).value);
  }

  /** The contract never reverts a call of the adapter: in any state of the
      registry it verifies the commitment and logs the sender. */
  lemma AdapterCallsSucceed(p: Primitives, sender: Registry.Address, file: bytes, s: Registry.State)
    requires VerifyOnChain(p, sender, file).Ok?
    ensures
      var c := LoadSubmission(file).value.verifierInput.proofStatement.stateCommitment;
      var (next, outcome) := Registry.Submit(s, VerifyOnChain(p, sender, file).value);
      && outcome == Ok(())
      && next.Verified(c)
      && next.log == s.log + [Registry.CommitmentVerified(c, sender)]
  {
    AdapterCallsAreGenuine(p, sender, file);
    Registry.SubmitExactly(s, VerifyOnChain(p, sender, file).value);
  }
}
