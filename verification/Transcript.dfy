/** Length-prefixed hash transcripts and the hasher that absorbs them. */
module Transcript {
  import opened Common
  import opened Primitives
  import opened Types
  import Records

  // ----------------------------------------------------------------- framing

  /** The low `width` bytes of a number, least significant first. */
  function LittleEndian(n: nat, width: nat): (b: bytes)
    ensures |b| == width
  {
    if width == 0 then [] else [n % 256] + LittleEndian(n / 256, width - 1)
  }

  /** `(n as u64).to_le_bytes()`. */
  function Le64(n: nat): (b: bytes)
    ensures |b| == 8
  {
    LittleEndian(n, 8)
  }

  function FromLittleEndian(b: bytes): nat {
    if b == [] then 0 else b[0] as nat + 256 * FromLittleEndian(b[1..])
  }

  /** The fields one after the other, each behind its length. */
  function Frame(fields: seq<bytes>): bytes {
    if fields == [] then [] else Le64(|fields[0]|) + fields[0] + Frame(fields[1..])
  }

  /** Takes framed fields apart again. */
  function Unframe(b: bytes): Option<seq<bytes>> {
    if b == [] then Some([])
    else if |b| < 8 then None
    else
      var n := FromLittleEndian(b[..8]);
      if |b| - 8 < n then None
      else
        var rest :- Unframe(b[8 + n..]);
        Some([b[8..8 + n]] + rest)
  }

  /** A `u64` can say how long it is. */
  predicate Fits(b: bytes) {
    |b| < TWO_TO_THE_64
  }

  predicate Framable(fields: seq<bytes>) {
    forall i | 0 <= i < |fields| :: Fits(fields[i])
  }

  function Pow256(k: nat): nat {
    if k == 0 then 1 else 256 * Pow256(k - 1)
  }

  lemma {:induction false} FromLittleEndianUndoes(n: nat, width: nat)
    requires n < Pow256(width)
    ensures FromLittleEndian(LittleEndian(n, width)) == n
  {
    if width == 0 {
    } else {
      FromLittleEndianUndoes(n / 256, width - 1);
      assert LittleEndian(n, width)[1..] == LittleEndian(n / 256, width - 1);
    }
  }

  lemma FromLe64(n: nat)
    requires n < TWO_TO_THE_64
    ensures FromLittleEndian(Le64(n)) == n
  {
    assert Pow256(8) == TWO_TO_THE_64 by {
      assert Pow256(4) == 0x1_0000_0000;
    }
    FromLittleEndianUndoes(n, 8);
  }

  lemma {:induction false} UnframeFrame(fields: seq<bytes>)
    requires Framable(fields)
    ensures Unframe(Frame(fields)) == Some(fields)
  {
    if fields == [] {
    } else {
      var head, rest := fields[0], Frame(fields[1..]);
      var b := Le64(|head|) + head + rest;
      FromLe64(|head|);
      UnframeFrame(fields[1..]);
      assert b[..8] == Le64(|head|);
      assert b[8..8 + |head|] == head;
      assert b[8 + |head|..] == rest;
      assert [head] + fields[1..] == fields;
    }
  }

  /** Framing is unambiguous, the number of fields included. */
  lemma FrameInjective(fields: seq<bytes>, others: seq<bytes>)
    requires Framable(fields) && Framable(others)
    requires Frame(fields) == Frame(others)
    ensures fields == others
  {
    UnframeFrame(fields);
    UnframeFrame(others);
  }

  // ---------------------------------------------------------------- the uses

  /** A byte-string literal: one byte an (ASCII) character. */
  function Literal(s: string): (b: bytes)
    ensures |b| == |s|
  {
    seq(|s|, i requires 0 <= i < |s| => s[i] as int % 256)
  }

  const COMMITMENT_DOMAIN := Literal("pqsp:v1:state-commitment")
  const MOCK_PROOF_DOMAIN := Literal("pqsp:v1:mock-proof")
  const DRY_RUN_ROOT_CONTEXT := Literal("pqsp:v1:dry-run-storage-root")

  /** What a committer with the given domain separator hashes. */
  function CommitTranscript(domain: bytes, message: bytes, context: bytes): bytes {
    Frame([domain, context, message])
  }

  function CommitTo(p: Primitives, domain: bytes, message: bytes, context: bytes): Commitment {
    p.Digest(CommitTranscript(domain, message, context), 32)
  }

  /** What `mock_proof_bytes` hashes for a statement in canonical form. */
  function CanonicalTranscript(canonical: bytes): bytes {
    Frame([MOCK_PROOF_DOMAIN, canonical])
  }

  function ProofTranscript(s: ProofStatement): bytes {
    CanonicalTranscript(Records.CanonicalStatement(s))
  }

  function MockProof(p: Primitives, s: ProofStatement): bytes {
    p.Digest(ProofTranscript(s), 64)
  }

  // -------------------------------------------------------------- the hasher

  class Shake256 {
    var absorbed: bytes

    constructor ()
      ensures absorbed == []
    {
      absorbed := [];
    }

    method Update(data: bytes)
      modifies this
      ensures absorbed == old(absorbed) + data
    {
      absorbed := absorbed + data;
    }

    method FinalizeXof() returns (r: XofReader)
      ensures fresh(r) && r.message == absorbed && r.position == 0
    {
      r := new XofReader(absorbed);
    }
  }

  class XofReader {
    const message: bytes
    var position: nat

    constructor (message: bytes)
      ensures this.message == message && position == 0
    {
      this.message := message;
      position := 0;
    }

    /** Fills the buffer with the next bytes of the output stream. */
    method Read(p: Primitives, output: array<byte>)
      modifies this, output
      ensures position == old(position) + output.Length
      ensures output[..] == p.Digest(message, position)[old(position)..]
    {
      var start := position;
      forall i | 0 <= i < output.Length {
        output[i] := p.squeeze(message, start + i);
      }
      position := start + output.Length;
    }
  }

  /** `Shake256Committer::commit`. */
  method Commit(p: Primitives, domain: bytes, message: bytes, context: bytes) returns (c: Commitment)
    ensures c == CommitTo(p, domain, message, context)
  {
    var hasher := new Shake256();
    hasher.Update(Le64(|domain|));
    hasher.Update(domain);
    hasher.Update(Le64(|context|));
    hasher.Update(context);
    hasher.Update(Le64(|message|));
    hasher.Update(message);
    FrameThree(domain, context, message);
    assert hasher.absorbed == CommitTranscript(domain, message, context);

    var reader := hasher.FinalizeXof();
    var output := new byte[32](i => 0);
    reader.Read(p, output);
    c := output[..];
  }

  lemma FrameTwo(a: bytes, b: bytes)
    ensures [] + Le64(|a|) + a + Le64(|b|) + b == Frame([a, b])
  {
    assert [a, b][1..] == [b];
    assert Frame([b]) == Le64(|b|) + b + Frame([]);
  }

  lemma FrameThree(a: bytes, b: bytes, c: bytes)
    ensures [] + Le64(|a|) + a + Le64(|b|) + b + Le64(|c|) + c == Frame([a, b, c])
  {
    assert [a, b, c][1..] == [b, c];
    FrameTwo(b, c);
  }

  /** `mock_proof_bytes`. */
  method MockProofBytes(p: Primitives, s: ProofStatement) returns (proof: bytes)
    ensures proof == MockProof(p, s)
  {
    var hasher := new Shake256();
    var canonical := Records.CanonicalStatement(s);
    hasher.Update(Le64(|MOCK_PROOF_DOMAIN|));
    hasher.Update(MOCK_PROOF_DOMAIN);
    hasher.Update(Le64(|canonical|));
    hasher.Update(canonical);
    FrameTwo(MOCK_PROOF_DOMAIN, canonical);
    assert hasher.absorbed == CanonicalTranscript(canonical);

    var reader := hasher.FinalizeXof();
    var output := new byte[64](i => 0);
    reader.Read(p, output);
    proof := output[..];
  }
}
