/** Equal transcripts mean equal inputs, and no two uses of the hash share one. */
module TranscriptLaws {
  import opened Common
  import opened Json
  import opened Primitives
  import opened Types
  import opened Transcript
  import Records
  import RecordLaws

  // ---------------------------------------------------------- what is hashed

  /** The eight bytes of a length, the lowest first. */
  lemma Le64Exactly(n: nat)
    ensures Le64(n) == [
              n % 256, n / 0x100 % 256, n / 0x1_0000 % 256, n / 0x100_0000 % 256, n / 0x1_0000_0000 % 256,
              n / 0x100_0000_0000 % 256, n / 0x1_0000_0000_0000 % 256, n / 0x100_0000_0000_0000 % 256]
  {
    LowBytes(n, 8);
    LowBytes(n / 0x100 / 0x100, 6);
    LowBytes(n / 0x100 / 0x100 / 0x100 / 0x100, 4);
    LowBytes(n / 0x100 / 0x100 / 0x100 / 0x100 / 0x100 / 0x100, 2);
    Quarters(n);
  }

  lemma LowBytes(n: nat, width: nat)
    requires width >= 2
    ensures LittleEndian(n, width) == [n % 256, n / 0x100 % 256] + LittleEndian(n / 0x100 / 0x100, width - 2)
  {
    assert LittleEndian(n / 0x100, width - 1) == [n / 0x100 % 256] + LittleEndian(n / 0x100 / 0x100, width - 2);
  }

  lemma Quarters(n: nat)
    ensures n / 0x100 / 0x100 == n / 0x1_0000
    ensures n / 0x1_0000 / 0x100 == n / 0x100_0000
    ensures n / 0x100_0000 / 0x100 == n / 0x1_0000_0000
    ensures n / 0x1_0000_0000 / 0x100 == n / 0x100_0000_0000
    ensures n / 0x100_0000_0000 / 0x100 == n / 0x1_0000_0000_0000
    ensures n / 0x1_0000_0000_0000 / 0x100 == n / 0x100_0000_0000_0000
  {
  }

  lemma LiteralAppends(s: string, t: string)
    ensures Literal(s + t) == Literal(s) + Literal(t)
  {
  }

  lemma CommitmentDomainBytes()
    ensures COMMITMENT_DOMAIN ==
            [112, 113, 115, 112, 58, 118, 49, 58]
            + [115, 116, 97, 116, 101, 45, 99, 111]
            + [109, 109, 105, 116, 109, 101, 110, 116]
  {
    LiteralAppends("pqsp:v1:", "state-co");
    assert "pqsp:v1:" + "state-co" == "pqsp:v1:state-co";
    LiteralAppends("pqsp:v1:state-co", "mmitment");
    assert "pqsp:v1:state-co" + "mmitment" == "pqsp:v1:state-commitment";
    assert Literal("pqsp:v1:") == [112, 113, 115, 112, 58, 118, 49, 58];
    assert Literal("state-co") == [115, 116, 97, 116, 101, 45, 99, 111];
    assert Literal("mmitment") == [109, 109, 105, 116, 109, 101, 110, 116];
  }

  lemma MockProofDomainBytes()
    ensures MOCK_PROOF_DOMAIN ==
            [112, 113, 115, 112, 58, 118, 49, 58]
            + [109, 111, 99, 107, 45, 112, 114, 111]
            + [111, 102]
  {
    LiteralAppends("pqsp:v1:", "mock-pro");
    assert "pqsp:v1:" + "mock-pro" == "pqsp:v1:mock-pro";
    LiteralAppends("pqsp:v1:mock-pro", "of");
    assert "pqsp:v1:mock-pro" + "of" == "pqsp:v1:mock-proof";
    assert Literal("pqsp:v1:") == [112, 113, 115, 112, 58, 118, 49, 58];
    assert Literal("mock-pro") == [109, 111, 99, 107, 45, 112, 114, 111];
    assert Literal("of") == [111, 102];
  }

  lemma DryRunContextBytes()
    ensures DRY_RUN_ROOT_CONTEXT ==
            [112, 113, 115, 112, 58, 118, 49, 58]
            + [100, 114, 121, 45, 114, 117, 110, 45]
            + [115, 116, 111, 114, 97, 103, 101, 45]
            + [114, 111, 111, 116]
  {
    LiteralAppends("pqsp:v1:", "dry-run-");
    assert "pqsp:v1:" + "dry-run-" == "pqsp:v1:dry-run-";
    LiteralAppends("pqsp:v1:dry-run-", "storage-");
    assert "pqsp:v1:dry-run-" + "storage-" == "pqsp:v1:dry-run-storage-";
    LiteralAppends("pqsp:v1:dry-run-storage-", "root");
    assert "pqsp:v1:dry-run-storage-" + "root" == "pqsp:v1:dry-run-storage-root";
    assert Literal("pqsp:v1:") == [112, 113, 115, 112, 58, 118, 49, 58];
    assert Literal("dry-run-") == [100, 114, 121, 45, 114, 117, 110, 45];
    assert Literal("storage-") == [115, 116, 111, 114, 97, 103, 101, 45];
    assert Literal("root") == [114, 111, 111, 116];
  }

  /** The domain separators and the dry-run context, byte by byte. */
  lemma DomainBytes()
    ensures COMMITMENT_DOMAIN ==
            [112, 113, 115, 112, 58, 118, 49, 58]
            + [115, 116, 97, 116, 101, 45, 99, 111]
            + [109, 109, 105, 116, 109, 101, 110, 116]
    ensures MOCK_PROOF_DOMAIN ==
            [112, 113, 115, 112, 58, 118, 49, 58]
            + [109, 111, 99, 107, 45, 112, 114, 111]
            + [111, 102]
    ensures DRY_RUN_ROOT_CONTEXT ==
            [112, 113, 115, 112, 58, 118, 49, 58]
            + [100, 114, 121, 45, 114, 117, 110, 45]
            + [115, 116, 111, 114, 97, 103, 101, 45]
            + [114, 111, 111, 116]
  {
    CommitmentDomainBytes();
    MockProofDomainBytes();
    DryRunContextBytes();
  }

  /** A commitment is the hash of domain, context and message, in this order and
      each behind its length. */
  lemma CommitExactly(p: Primitives, domain: bytes, message: bytes, context: bytes)
    ensures
      var hashed := Le64(|domain|) + domain + Le64(|context|) + context + Le64(|message|) + message;
      CommitTo(p, domain, message, context) == seq<byte>(32, i requires 0 <= i < 32 => p.squeeze(hashed, i))
  {
    var none: bytes := [];
    assert none + Le64(|domain|) == Le64(|domain|);
    FrameThree(domain, context, message);
  }

  /** A mock proof is 64 bytes of the hash of its domain and the canonical
      statement, each behind its length. */
  lemma MockProofExactly(p: Primitives, s: ProofStatement)
    ensures
      var canonical := Records.CanonicalStatement(s);
      var hashed := Le64(18) + MOCK_PROOF_DOMAIN + Le64(|canonical|) + canonical;
      MockProof(p, s) == seq<byte>(64, i requires 0 <= i < 64 => p.squeeze(hashed, i))
  {
    var none: bytes := [];
    assert none + Le64(18) == Le64(18);
    FrameTwo(MOCK_PROOF_DOMAIN, Records.CanonicalStatement(s));
  }

  // ------------------------------------------------------------- injectivity

  /** A commitment transcript determines domain, message and context. */
  lemma CommitTranscriptInjective(
    domain: bytes, message: bytes, context: bytes, domain': bytes, message': bytes, context': bytes)
    requires Fits(domain) && Fits(message) && Fits(context)
    requires Fits(domain') && Fits(message') && Fits(context')
    requires CommitTranscript(domain, message, context) == CommitTranscript(domain', message', context')
    ensures domain == domain' && message == message' && context == context'
  {
    FrameInjective([domain, context, message], [domain', context', message']);
    assert [domain, context, message][1] == [domain', context', message'][1];
    assert [domain, context, message][2] == [domain', context', message'][2];
  }

  lemma CanonicalTranscriptInjective(canonical: bytes, canonical': bytes)
    requires Fits(canonical) && Fits(canonical')
    requires CanonicalTranscript(canonical) == CanonicalTranscript(canonical')
    ensures canonical == canonical'
  {
    FrameInjective([MOCK_PROOF_DOMAIN, canonical], [MOCK_PROOF_DOMAIN, canonical']);
    assert [MOCK_PROOF_DOMAIN, canonical][1] == [MOCK_PROOF_DOMAIN, canonical'][1];
  }

  /** A proof transcript determines commitment, context and every public input. */
  lemma ProofTranscriptInjective(s: ProofStatement, t: ProofStatement)
    requires Fits(Records.CanonicalStatement(s)) && Fits(Records.CanonicalStatement(t))
    requires ProofTranscript(s) == ProofTranscript(t)
    ensures s == t
  {
    CanonicalTranscriptInjective(Records.CanonicalStatement(s), Records.CanonicalStatement(t));
    RecordLaws.CanonicalStatementInjective(s, t);
  }

  /** No committer, whatever its domain separator, shares a transcript with the
      mock prover: three framed fields are never two. */
  lemma CommitIsNotProof(domain: bytes, message: bytes, context: bytes, canonical: bytes)
    requires Fits(domain) && Fits(message) && Fits(context) && Fits(canonical)
    ensures CommitTranscript(domain, message, context) != CanonicalTranscript(canonical)
  {
    if CommitTranscript(domain, message, context) == CanonicalTranscript(canonical) {
      FrameInjective([domain, context, message], [MOCK_PROOF_DOMAIN, canonical]);
      assert false;
    }
  }

  /** A commitment to an envelope and the dry-run root of a payload never share a
      transcript, even when the user's associated data is the dry-run context:
      an envelope starts with its version, a payload with a brace. */
  lemma StateIsNotDryRunRoot(
    domain: bytes, envelope: bytes, aad: bytes, rootDomain: bytes, payload: UploadPayload)
    requires Fits(domain) && Fits(envelope) && Fits(aad) && Fits(rootDomain)
    requires Fits(Records.EncodePayload(payload))
    requires envelope != [] && envelope[0] == 1
    ensures CommitTranscript(domain, envelope, aad)
            != CommitTranscript(rootDomain, Records.EncodePayload(payload), DRY_RUN_ROOT_CONTEXT)
  {
    var encoded := Records.EncodePayload(payload);
    PayloadStartsWithBrace(payload);
    if CommitTranscript(domain, envelope, aad) == CommitTranscript(rootDomain, encoded, DRY_RUN_ROOT_CONTEXT) {
      CommitTranscriptInjective(domain, envelope, aad, rootDomain, encoded, DRY_RUN_ROOT_CONTEXT);
      assert false;
    }
  }

  lemma PayloadStartsWithBrace(payload: UploadPayload)
    ensures Records.EncodePayload(payload) != []
    ensures Records.EncodePayload(payload)[0] == '{' as int
  {
    RecordLaws.RecordStartsWithBrace(
      Records.PAYLOAD_KEYS,
      [Number(payload.version), Records.ByteArray(payload.encryptedBlob),
       Records.ByteArray(payload.stateCommitment), Records.StatementToJson(payload.proofStatement),
       Records.BundleToJson(payload.proof), Records.MetadataToJson(payload.metadata)],
      Pretty);
  }

  /** The three uses of the hash in one upload never share a transcript. */
  lemma TranscriptsAreSeparate(
    domain: bytes, envelope: bytes, aad: bytes, payload: UploadPayload, s: ProofStatement)
    requires Fits(domain) && Fits(envelope) && Fits(aad)
    requires Fits(Records.EncodePayload(payload)) && Fits(Records.CanonicalStatement(s))
    requires envelope != [] && envelope[0] == 1
    ensures
      var state := CommitTranscript(domain, envelope, aad);
      var root := CommitTranscript(domain, Records.EncodePayload(payload), DRY_RUN_ROOT_CONTEXT);
      state != root && state != ProofTranscript(s) && root != ProofTranscript(s)
  {
    var encoded, canonical := Records.EncodePayload(payload), Records.CanonicalStatement(s);
    StateIsNotDryRunRoot(domain, envelope, aad, domain, payload);
    CommitIsNotProof(domain, envelope, aad, canonical);
    CommitIsNotProof(domain, encoded, DRY_RUN_ROOT_CONTEXT, canonical);
  }
}
