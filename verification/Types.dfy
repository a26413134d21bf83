/** The records that travel between upload, verify, download and decrypt. */
module Types {
  import opened Common

  /** `StateCommitment`: 32 bytes of hash output. */
  type Commitment = Bytes32

  datatype ProofStatement = ProofStatement(
    stateCommitment: Commitment,
    context: bytes,
    publicInputs: seq<string>)

  datatype ProofSystemDescriptor = ProofSystemDescriptor(name: string, version: string)

  datatype ProofBundle = ProofBundle(
    system: ProofSystemDescriptor,
    proofBytes: bytes,
    publicInputs: seq<string>)

  datatype PayloadMetadata = PayloadMetadata(
    protocolVersion: byte,
    contentType: string,
    encryptionScheme: string,
    commitmentScheme: string,
    proofSystem: string)

  datatype UploadPayload = UploadPayload(
    version: byte,
    encryptedBlob: bytes,
    stateCommitment: Commitment,
    proofStatement: ProofStatement,
    proof: ProofBundle,
    metadata: PayloadMetadata)

  datatype UploadPayloadSummary = UploadPayloadSummary(
    version: byte,
    encryptedBlobBytes: nat,
    stateCommitmentHex: string,
    proofSystem: string)

  datatype StorageReceiptRef = StorageReceiptRef(
    network: string,
    merkleRoot: string,
    txHash: Option<string>)

  datatype UploadReceipt = UploadReceipt(
    storage: StorageReceiptRef,
    stateCommitment: Commitment,
    payloadBytes: nat)

  datatype VerifierInput = VerifierInput(
    proofStatement: ProofStatement,
    proof: ProofBundle,
    storage: StorageReceiptRef)

  datatype CommitmentSubmission = CommitmentSubmission(
    applicationId: string,
    verifierInput: VerifierInput,
    submitter: Option<string>,
    memo: Option<string>)

  datatype VerificationReceipt = VerificationReceipt(
    accepted: bool,
    verifierTxHash: Option<string>,
    reason: Option<string>)

  datatype VerificationArtifact = VerificationArtifact(
    version: byte,
    sourceFile: string,
    storageMode: string,
    payloadSummary: UploadPayloadSummary,
    uploadReceipt: UploadReceipt,
    commitmentSubmission: CommitmentSubmission)
}
