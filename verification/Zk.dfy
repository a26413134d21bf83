/** The deterministic mock prover and its verifier. */
module Zk {
  import opened Common
  import opened Primitives
  import opened Types
  import Records
  import Transcript
  import TranscriptLaws

  const MOCK_SYSTEM := ProofSystemDescriptor("mock-zk", "0.1.0")

  /** `MockZkProver::prove`. The witness takes no part in a mock proof. */
  function Prove(p: Primitives, s: ProofStatement, secret: bytes): ProofBundle {
    ProofBundle(MOCK_SYSTEM, Transcript.MockProof(p, s), s.publicInputs)
  }

  /** `MockZkVerifier::verify` returns `Ok`. */
  predicate Verify(p: Primitives, s: ProofStatement, proof: ProofBundle) {
    && proof.system.name == "mock-zk"
    && proof.proofBytes == Transcript.MockProof(p, s)
    && proof.publicInputs == s.publicInputs
  }

  /** The accepted bundles are the prover's own, up to the system version that
      the verifier never looks at. */
  lemma VerifyExactly(p: Primitives, s: ProofStatement, proof: ProofBundle, secret: bytes)
    ensures Verify(p, s, proof) <==>
            proof == Prove(p, s, secret).(system := ProofSystemDescriptor("mock-zk", proof.system.version))
    ensures Verify(p, s, Prove(p, s, secret))
  {
    var own := Prove(p, s, secret);
    if Verify(p, s, proof) {
      assert proof.system == ProofSystemDescriptor("mock-zk", proof.system.version);
    }
  }

  /** A bundle accepted for two statements exhibits a hash collision between
      two different transcripts, or the statements are the same. */
  lemma ProofBindsStatement(p: Primitives, s: ProofStatement, t: ProofStatement, proof: ProofBundle)
    requires Transcript.Fits(Records.CanonicalStatement(s))
    requires Transcript.Fits(Records.CanonicalStatement(t))
    requires Verify(p, s, proof) && Verify(p, t, proof)
    ensures s == t ||
            (Transcript.ProofTranscript(s) != Transcript.ProofTranscript(t) &&
             p.Digest(Transcript.ProofTranscript(s), 64) == p.Digest(Transcript.ProofTranscript(t), 64))
  {
    if Transcript.ProofTranscript(s) == Transcript.ProofTranscript(t) {
      TranscriptLaws.ProofTranscriptInjective(s, t);
    }
  }
}
