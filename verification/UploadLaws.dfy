/** What the commands write and report, in full: every field of every result and
    every error, down to the primitives. */
module UploadLaws {
  import opened Common
  import opened Primitives
  import opened Types
  import opened Encryption
  import opened Pipeline
  import Config
  import Decimal
  import Hex
  import Records
  import Registry
  import Transcript
  import TranscriptLaws
  import Utf8
  import Verifier
  import Zk

  /** What a committer hashes: domain, context and message behind their lengths. */
  function Hashed(domain: bytes, context: bytes, message: bytes): bytes {
    Transcript.Le64(|domain|) + domain + Transcript.Le64(|context|) + context
    + Transcript.Le64(|message|) + message
  }

  lemma CommitIsHash(p: Primitives, domain: bytes, message: bytes, context: bytes)
    ensures Transcript.CommitTo(p, domain, message, context) == p.Digest(Hashed(domain, context, message), 32)
  {
    TranscriptLaws.CommitExactly(p, domain, message, context);
  }

  // ------------------------------------------------------------------ upload

  /** Everything that is prepared for an upload. */
  lemma PrepareExactly(p: Primitives, domain: bytes, key: Key, nonce: Bytes24, plaintext: bytes, aad: bytes)
    requires |plaintext| <= p.maxPlaintext
    ensures Encrypt(p, key, nonce, plaintext, aad).Ok?
    ensures PrepareUpload(p, domain, key, nonce, plaintext, aad).Ok?
    ensures
      var envelope := Encrypt(p, key, nonce, plaintext, aad).value;
      var blob := [1] + nonce + envelope.ciphertext;
      var c := p.Digest(Hashed(domain, aad, blob), 32);
      var inputs := ["state_commitment=0x" + Hex.Encode(c), "ciphertext_bytes=" + Decimal.Print(|plaintext| + 16)];
      var statement := ProofStatement(c, aad, inputs);
      var proof := ProofBundle(
        ProofSystemDescriptor("mock-zk", "0.1.0"), Transcript.MockProof(p, statement), inputs);
      var metadata := PayloadMetadata(
        1, "application/json", "XChaCha20Poly1305", "SHAKE256-256", "mock-zk@0.1.0");
      var payload := UploadPayload(1, blob, c, statement, proof, metadata);
      PrepareUpload(p, domain, key, nonce, plaintext, aad)
      == Ok(PreparedUpload(envelope, statement, proof, c, payload, Records.EncodePayload(payload)))
  {
    var envelope := Encrypt(p, key, nonce, plaintext, aad).value;
    assert Sealed(envelope) == [1] + nonce + envelope.ciphertext;
    CommitIsHash(p, domain, Sealed(envelope), aad);
    var c := Transcript.CommitTo(p, domain, Sealed(envelope), aad);
    assert "state_commitment=" + ("0x" + Hex.Encode(c)) == "state_commitment=0x" + Hex.Encode(c);
    assert SystemLabel(Zk.MOCK_SYSTEM) == "mock-zk@0.1.0";
  }

  /** The receipt of an upload by any committer, and each of its errors. */
  lemma UploadPreparedExactly(
    p: Primitives, domain: bytes, config: Config.ZeroGStorageConfig, prepared: PreparedUpload, tx: Option<Bytes32>)
    ensures
      var file, outcome := prepared.encodedPayload, UploadPrepared(p, domain, config, prepared, tx);
      var dryRoot := p.Digest(Hashed(domain, Transcript.DRY_RUN_ROOT_CONTEXT, file), 32);
      var credentials := config.chainRpcUrl.Some? && config.privateKeyHex.Some?;
      var target := config.indexerUrl.Some? || config.nodeUrls != [];
      var live := config.mode == Config.Live;
      && (outcome == Err(Target(Config.MissingChainCredentials)) <==> live && !credentials)
      && (outcome == Err(Target(Config.MissingUploadTarget)) <==> live && credentials && !target)
      && (outcome == Err(ZeroGSdk) <==> live && credentials && target && tx.None?)
      && (outcome.Ok? <==> !live || (credentials && target && tx.Some?))
      && (outcome.Ok? ==>
            outcome.value == UploadReceipt(
              StorageReceiptRef(
                config.networkLabel, "0x" + Hex.Encode(if live then p.merkleRoot(file) else dryRoot),
                if live then Some("0x" + Hex.Encode(tx.value)) else None),
              prepared.stateCommitment, |file|))
  {
    CommitIsHash(p, domain, prepared.encodedPayload, Transcript.DRY_RUN_ROOT_CONTEXT);
  }

  /** The file that an upload sends, and every field of its artifact. */
  lemma UploadExactly(
    p: Primitives, r: UploadRequest, config: Config.ZeroGStorageConfig, mode: string, tx: Option<Bytes32>)
    requires RunUpload(p, r, config, mode, tx).Ok?
    ensures
      var (file, a) := RunUpload(p, r, config, mode, tx).value;
      var prepared := Prepare(p, r).value;
      var c, live := prepared.stateCommitment, config.mode == Config.Live;
      var dryRoot := p.Digest(
        Hashed(Transcript.COMMITMENT_DOMAIN, Transcript.DRY_RUN_ROOT_CONTEXT, file), 32);
      var storage := StorageReceiptRef(
        config.networkLabel, "0x" + Hex.Encode(if live then p.merkleRoot(file) else dryRoot),
        if live then Some("0x" + Hex.Encode(tx.value)) else None);
      && file == prepared.encodedPayload
      && (live ==> tx.Some?)
      && a == VerificationArtifact(
           1, r.sourceFile, mode,
           UploadPayloadSummary(1, |r.plaintext| + 41, "0x" + Hex.Encode(c), "mock-zk@0.1.0"),
           UploadReceipt(storage, c, |file|),
           CommitmentSubmission(
             r.applicationId, VerifierInput(prepared.proofStatement, prepared.proof, storage), r.submitter, r.memo))
  {
    var prepared := Prepare(p, r).value;
    UploadPreparedExactly(p, Transcript.COMMITMENT_DOMAIN, config, prepared, tx);
    PrepareExactly(p, Transcript.COMMITMENT_DOMAIN, r.key, r.nonce, r.plaintext, Utf8.Encode(r.aad));
    SummaryExactly(prepared.uploadPayload);
    Sizes(p, r.key, r.nonce, r.plaintext, Utf8.Encode(r.aad));
  }

  /** The summary of any payload. */
  lemma SummaryExactly(payload: UploadPayload)
    ensures Summary(payload) == UploadPayloadSummary(
              payload.version, |payload.encryptedBlob|, "0x" + Hex.Encode(payload.stateCommitment),
              payload.proof.system.name + "@" + payload.proof.system.version)
  {
  }

  // ------------------------------------------------------------------ verify

  /** Why `verify` refuses a file, with either verifier. */
  lemma VerifyErrors(p: Primitives, sender: Registry.Address, file: bytes)
    ensures LoadSubmission(file) == Err(NotAnArtifact) <==> Records.DecodeArtifact(file).None?
    ensures
      var loaded, locally, onChain := LoadSubmission(file), VerifyLocally(p, file), VerifyOnChain(p, sender, file);
      if loaded.Err? then locally == Err(loaded.error) && onChain == Err(loaded.error)
      else
        var input := loaded.value.verifierInput;
        var root := input.storage.merkleRoot;
        && (locally.Err? ==>
              locally.error == Rejected(
                if StartsWith(root, "0x") then Verifier.InvalidProof else Verifier.InvalidStorageRoot))
        && (onChain.Err? ==>
              onChain.error == Rejected(
                if input.proofStatement.stateCommitment == seq(32, i => 0) then Verifier.InvalidCommitment
                else if !Verifier.NamesRoot(root) then Verifier.InvalidStorageRoot
                else Verifier.InvalidProof))
  {
    if LoadSubmission(file).Ok? {
      var s := LoadSubmission(file).value;
      Verifier.AllZeroExactly(s.verifierInput.proofStatement.stateCommitment);
      Verifier.EncodeExactly(s);
      Verifier.ParseBytes32Total(s.verifierInput.storage.merkleRoot);
    }
  }

  // ----------------------------------------------------------------- decrypt

  /** What `decrypt` takes for the envelope: the blob of a payload, or the file. */
  function BlobIn(file: bytes): bytes {
    var payload := Records.DecodePayload(file);
    if payload.Some? then payload.value.encryptedBlob else file
  }

  /** Why `decrypt` fails: the envelope is looked at first, then the key's text,
      then the tag. */
  lemma DecryptErrors(p: Primitives, file: bytes, keyHex: string, aad: string)
    ensures
      var blob, digits := BlobIn(file), StripPrefix(keyHex, "0x");
      var outcome := RunDecrypt(p, file, keyHex, aad);
      && (outcome == Err(MalformedEnvelope) <==> |blob| < 25)
      && (outcome.Err? ==>
            outcome.error ==
            if |blob| < 25 then MalformedEnvelope
            else if blob[0] != 1 then UnsupportedVersion(blob[0])
            else if |digits| % 2 == 1 || !Hex.AllHexDigits(digits) then InvalidKeyHex
            else if |digits| != 64 then InvalidKeyLength(|digits| / 2)
            else AeadFailure)
      && (outcome.Ok? ==> |blob| >= 25 && blob[0] == 1 && |digits| == 64 && Hex.AllHexDigits(digits))
  {
    var digits := StripPrefix(keyHex, "0x");
    SealOpened(BlobIn(file));
    Hex.DecodesExactly(digits);
    if ParseEncryptedPayload(file).Ok? && KeyOfHex(keyHex).Ok? {
      DecryptIsInverse(p, KeyOfHex(keyHex).value, ParseEncryptedPayload(file).value.0, Utf8.Encode(aad), []);
    }
  }

  // ---------------------------------------------------------------- download

  /** The ASCII codes of letters and digits, of the dash and of the underscore. */
  predicate IsKept(code: int) {
    48 <= code <= 57 || 65 <= code <= 90 || 97 <= code <= 122 || code == 45 || code == 95
  }

  /** The default name of a downloaded file, for any text that is given as root:
      everything else becomes an underscore. */
  lemma DownloadNameExactly(root: string)
    ensures
      var stem, name := StripPrefix(root, "0x"), DownloadName(root);
      && |name| == |stem| + 5 && name[|stem|..] == ".json"
      && forall i | 0 <= i < |stem| :: name[i] == if IsKept(stem[i] as int) then stem[i] else '_'
  {
  }
}
