/** The commands as functions on bytes: upload, verify and decrypt. */
module Pipeline {
  import opened Common
  import opened Primitives
  import opened Types
  import opened Encryption
  import Config
  import Decimal
  import Hex
  import Records
  import Registry
  import Transcript
  import Utf8
  import Verifier
  import Zk

  datatype StorageClientError =
    | Encryption(error: EncryptionError)
    | Target(missing: Config.ConfigError)
    | ZeroGSdk

  datatype PreparedUpload = PreparedUpload(
    envelope: EncryptedPayload,
    proofStatement: ProofStatement,
    proof: ProofBundle,
    stateCommitment: Commitment,
    uploadPayload: UploadPayload,
    encodedPayload: bytes)

  // ------------------------------------------------------------------ upload

  function Statement(c: Commitment, aad: bytes, ciphertextLength: nat): ProofStatement {
    ProofStatement(c, aad, [
      "state_commitment=" + Verifier.CommitmentToHex(c),
      "ciphertext_bytes=" + Decimal.Print(ciphertextLength)])
  }

  function SystemLabel(d: ProofSystemDescriptor): string {
    d.name + "@" + d.version
  }

  function PayloadOf(blob: bytes, s: ProofStatement, proof: ProofBundle): UploadPayload {
    UploadPayload(
      1, blob, s.stateCommitment, s, proof,
      PayloadMetadata(1, "application/json", "XChaCha20Poly1305", "SHAKE256-256", SystemLabel(proof.system)))
  }

  /** `prepare_upload` with the mock prover. The nonce is the one the cipher
      draws; `domain` is the committer's domain separator. */
  function PrepareUpload(p: Primitives, domain: bytes, key: Key, nonce: Bytes24, plaintext: bytes, aad: bytes)
    : Result<PreparedUpload, StorageClientError>
  {
    match Encrypt(p, key, nonce, plaintext, aad)
    case Err(e) => Err(Encryption(e))
    case Ok(envelope) =>
      var blob := Sealed(envelope);
      var c := Transcript.CommitTo(p, domain, blob, aad);
      var statement := Statement(c, aad, |envelope.ciphertext|);
      var proof := Zk.Prove(p, statement, plaintext);
      var payload := PayloadOf(blob, statement, proof);
      Ok(PreparedUpload(envelope, statement, proof, c, payload, Records.EncodePayload(payload)))
  }

  /** The root a file has in the storage network. */
  function LiveRoot(p: Primitives, file: bytes): string {
    "0x" + Hex.Encode(p.merkleRoot(file))
  }

  function DryRunRoot(p: Primitives, domain: bytes, file: bytes): string {
    Verifier.CommitmentToHex(Transcript.CommitTo(p, domain, file, Transcript.DRY_RUN_ROOT_CONTEXT))
  }

  /** `upload_prepared`; `tx` is what the storage network answers to a live
      upload, `None` being any of its errors. */
  function UploadPrepared(
    p: Primitives, domain: bytes, config: Config.ZeroGStorageConfig, prepared: PreparedUpload, tx: Option<Bytes32>)
    : Result<UploadReceipt, StorageClientError>
  {
    var file := prepared.encodedPayload;
    if config.mode == Config.DryRun then
      Ok(UploadReceipt(
           StorageReceiptRef(config.networkLabel, DryRunRoot(p, domain, file), None),
           prepared.stateCommitment, |file|))
    else if Config.LiveTarget(config).Err? then Err(Target(Config.LiveTarget(config).error))
    else if tx.None? then Err(ZeroGSdk)
    else
      Ok(UploadReceipt(
           StorageReceiptRef(config.networkLabel, LiveRoot(p, file), Some("0x" + Hex.Encode(tx.value))),
           prepared.stateCommitment, |file|))
  }

  /** `UploadPayload::summary`. */
  function Summary(payload: UploadPayload): UploadPayloadSummary {
    UploadPayloadSummary(
      payload.version, |payload.encryptedBlob|, Verifier.CommitmentToHex(payload.stateCommitment),
      SystemLabel(payload.proof.system))
  }

  /** What a user says when uploading, and the random key and nonce drawn then. */
  datatype UploadRequest = UploadRequest(
    key: Key,
    nonce: Bytes24,
    plaintext: bytes,
    aad: string,
    sourceFile: string,
    applicationId: string,
    submitter: Option<string>,
    memo: Option<string>)

  function Prepare(p: Primitives, r: UploadRequest): Result<PreparedUpload, StorageClientError> {
    PrepareUpload(p, Transcript.COMMITMENT_DOMAIN, r.key, r.nonce, r.plaintext, Utf8.Encode(r.aad))
  }

  function ArtifactOf(r: UploadRequest, mode: string, prepared: PreparedUpload, receipt: UploadReceipt)
    : VerificationArtifact
  {
    VerificationArtifact(
      1, r.sourceFile, mode, Summary(prepared.uploadPayload), receipt,
      CommitmentSubmission(
        r.applicationId,
        VerifierInput(prepared.proofStatement, prepared.proof, receipt.storage),
        r.submitter, r.memo))
  }

  /** `run_upload`: the file sent to storage, and the artifact written. */
  function RunUpload(
    p: Primitives, r: UploadRequest, config: Config.ZeroGStorageConfig, mode: string, tx: Option<Bytes32>)
    : Result<(bytes, VerificationArtifact), StorageClientError>
  {
    var prepared :- Prepare(p, r);
    var receipt :- UploadPrepared(p, Transcript.COMMITMENT_DOMAIN, config, prepared, tx);
    Ok((prepared.encodedPayload, ArtifactOf(r, mode, prepared, receipt)))
  }

  // ------------------------------------------------------------------ verify

  datatype VerifyError =
    | NotAnArtifact
    | UnsupportedArtifact(version: byte)
    | CommitmentMismatch
    | Rejected(error: Verifier.VerifierError)

  function ValidateArtifact(a: VerificationArtifact): Result<(), VerifyError> {
    if a.version != 1 then Err(UnsupportedArtifact(a.version))
    else if a.uploadReceipt.stateCommitment != a.commitmentSubmission.verifierInput.proofStatement.stateCommitment
    then Err(CommitmentMismatch)
    else Ok(())
  }

  /** The first half of `run_verify`. */
  function LoadSubmission(file: bytes): Result<CommitmentSubmission, VerifyError> {
    match Records.DecodeArtifact(file)
    case None => Err(NotAnArtifact)
    case Some(a) =>
      if ValidateArtifact(a).Err? then Err(ValidateArtifact(a).error) else Ok(a.commitmentSubmission)
  }

  /** `run_verify` in local mock mode. */
  function VerifyLocally(p: Primitives, file: bytes): Result<VerificationReceipt, VerifyError> {
    var s :- LoadSubmission(file);
    match Verifier.MockSubmit(p, s)
    case Err(e) => Err(Rejected(e))
    case Ok(receipt) => Ok(receipt)
  }

  /** `run_verify` against a contract, up to the call it sends. */
  function VerifyOnChain(p: Primitives, sender: Registry.Address, file: bytes): Result<Registry.Call, VerifyError> {
    var s :- LoadSubmission(file);
    if Verifier.EvmValidate(p, s.verifierInput).Err? then
      Err(Rejected(Verifier.EvmValidate(p, s.verifierInput).error))
    else
      match Verifier.EncodeSubmission(s)
      case Err(e) => Err(Rejected(e))
      case Ok(data) => Ok(Registry.Call(sender, data))
  }

  // ---------------------------------------------------------------- download

  /** The Merkle root that a root text names: the `0x` is optional. */
  function RootOf(text: string): Option<Bytes32> {
    match Hex.Decode(StripPrefix(text, "0x"))
    case None => None
    case Some(b) => if |b| == 32 then Some(b) else None
  }

  function FileNameChar(c: char): char {
    if '0' <= c <= '9' || 'a' <= c <= 'z' || 'A' <= c <= 'Z' || c == '-' || c == '_' then c else '_'
  }

  /** `default_download_path`. */
  function DownloadName(root: string): string {
    var name := StripPrefix(root, "0x");
    seq(|name|, i requires 0 <= i < |name| => FileNameChar(name[i])) + ".json"
  }

  // ----------------------------------------------------------------- decrypt

  datatype InputFormat = UploadPayloadJson | RawEncryptedPayload

  function ParseEncryptedPayload(file: bytes): Result<(EncryptedPayload, InputFormat), EncryptionError> {
    match Records.DecodePayload(file)
    case Some(payload) =>
      var envelope :- Opened(payload.encryptedBlob);
      Ok((envelope, UploadPayloadJson))
    case None =>
      var envelope :- Opened(file);
      Ok((envelope, RawEncryptedPayload))
  }

  /** `run_decrypt`. */
  function RunDecrypt(p: Primitives, file: bytes, keyHex: string, aad: string): Result<bytes, EncryptionError> {
    var (envelope, format) :- ParseEncryptedPayload(file);
    var key :- KeyOfHex(keyHex);
    Decrypt(p, key, envelope, Utf8.Encode(aad))
  }
}
