/** The verifier boundary: local mock verification, and the checks and the
    encoding in front of the contract call. */
module Verifier {
  import opened Common
  import opened Primitives
  import opened Types
  import Hex
  import Zk

  datatype VerifierError = InvalidCommitment | InvalidStorageRoot | InvalidProof

  predicate AllZero(b: bytes) {
    forall i | 0 <= i < |b| :: b[i] == 0
  }

  /** `StateCommitment::to_hex`. */
  function CommitmentToHex(c: Commitment): string {
    "0x" + Hex.Encode(c)
  }

  /** 32 bytes, not all of them zero; the `0x` is optional. */
  function ParseBytes32Hex(text: string): Result<Bytes32, VerifierError> {
    match Hex.Decode(StripPrefix(text, "0x"))
    case None => Err(InvalidStorageRoot)
    case Some(b) =>
      if |b| != 32 || AllZero(b) then Err(InvalidStorageRoot)
      else Ok(b)
  }

  // --------------------------------------------------------- mock verification

  function MockValidate(p: Primitives, input: VerifierInput): Result<(), VerifierError> {
    if !StartsWith(input.storage.merkleRoot, "0x") then Err(InvalidStorageRoot)
    else if !Zk.Verify(p, input.proofStatement, input.proof) then Err(InvalidProof)
    else Ok(())
  }

  function MockSubmit(p: Primitives, s: CommitmentSubmission): Result<VerificationReceipt, VerifierError> {
    if MockValidate(p, s.verifierInput).Err? then Err(MockValidate(p, s.verifierInput).error)
    else Ok(VerificationReceipt(
         true,
         Some("0x" + Hex.Encode(s.verifierInput.proofStatement.stateCommitment)),
         Some("mock verifier accepted the commitment and proof")))
  }

  // ---------------------------------------------------------- contract adapter

  function EvmValidate(p: Primitives, input: VerifierInput): Result<(), VerifierError> {
    if AllZero(input.proofStatement.stateCommitment) then Err(InvalidCommitment)
    else if ParseBytes32Hex(input.storage.merkleRoot).Err? then Err(InvalidStorageRoot)
    else if !Zk.Verify(p, input.proofStatement, input.proof) then Err(InvalidProof)
    else Ok(())
  }

  /** The arguments of `submitCommitment`. */
  datatype CallData = CallData(stateCommitment: Bytes32, storageMerkleRoot: Bytes32, proofContext: bytes)

  function EncodeSubmission(s: CommitmentSubmission): Result<CallData, VerifierError> {
    var input := s.verifierInput;
    if AllZero(input.proofStatement.stateCommitment) then Err(InvalidCommitment)
    else
      var root :- ParseBytes32Hex(input.storage.merkleRoot);
      Ok(CallData(input.proofStatement.stateCommitment, root, input.proof.proofBytes))
  }

  // -------------------------------------------------------------------- laws

  /** A printed commitment is read back exactly when it is not zero. */
  lemma ParseCommitmentHex(c: Commitment)
    ensures ParseBytes32Hex(CommitmentToHex(c)) == if AllZero(c) then Err(InvalidStorageRoot) else Ok(c)
    ensures ParseBytes32Hex(Hex.Encode(c)) == ParseBytes32Hex(CommitmentToHex(c))
  {
    Hex.DecodeEncode(c);
    Hex.PrefixIsOptional(Hex.Encode(c));
  }

  /** What is accepted as a root, without saying how it is decoded. */
  lemma ParseBytes32Accepts(text: string, root: Bytes32)
    ensures ParseBytes32Hex(text) == Ok(root) <==>
            && !AllZero(root)
            && Hex.AllHexDigits(StripPrefix(text, "0x"))
            && Hex.Lower(StripPrefix(text, "0x")) == Hex.Encode(root)
  {
    Hex.DecodesTo(StripPrefix(text, "0x"), root);
  }

  lemma AllZeroExactly(c: Bytes32)
    ensures AllZero(c) <==> c == seq(32, i => 0)
  {
  }

  /** What is encoded for the contract, and why it may fail. */
  lemma EncodeExactly(s: CommitmentSubmission)
    ensures
      var input, encoded := s.verifierInput, EncodeSubmission(s);
      var c, text := input.proofStatement.stateCommitment, input.storage.merkleRoot;
      && (encoded == Err(InvalidCommitment) <==> c == seq(32, i => 0))
      && (encoded == Err(InvalidStorageRoot) <==> c != seq(32, i => 0) && !NamesRoot(text))
      && (encoded.Ok? <==> c != seq(32, i => 0) && NamesRoot(text))
      && (encoded.Ok? ==>
            && encoded.value.stateCommitment == c
            && encoded.value.proofContext == input.proof.proofBytes
            && Hex.Encode(encoded.value.storageMerkleRoot) == Hex.Lower(StripPrefix(text, "0x")))
  {
    var text := s.verifierInput.storage.merkleRoot;
    AllZeroExactly(s.verifierInput.proofStatement.stateCommitment);
    ParseBytes32Total(text);
    if ParseBytes32Hex(text).Ok? {
      ParseBytes32Accepts(text, ParseBytes32Hex(text).value);
    }
  }

  /** Once validated, a submission always encodes, to arguments that the
      contract's own checks let through and that carry a genuine proof. */
  lemma ValidatedEncodes(p: Primitives, s: CommitmentSubmission)
    requires EvmValidate(p, s.verifierInput).Ok?
    ensures EncodeSubmission(s).Ok?
    ensures
      var call := EncodeSubmission(s).value;
      && call.stateCommitment == s.verifierInput.proofStatement.stateCommitment
      && !AllZero(call.stateCommitment)
      && !AllZero(call.storageMerkleRoot)
      && call.proofContext == Zk.Prove(p, s.verifierInput.proofStatement, []).proofBytes
  {
    var root := ParseBytes32Hex(s.verifierInput.storage.merkleRoot).value;
    ParseBytes32Accepts(s.verifierInput.storage.merkleRoot, root);
  }

  /** With a printed root and a genuine proof, only zeros stand in the way. */
  lemma PrintedRootEncodes(p: Primitives, s: CommitmentSubmission, root: Bytes32)
    requires s.verifierInput.storage.merkleRoot == CommitmentToHex(root)
    requires Zk.Verify(p, s.verifierInput.proofStatement, s.verifierInput.proof)
    ensures
      var c := s.verifierInput.proofStatement.stateCommitment;
      && (EvmValidate(p, s.verifierInput).Ok? <==> !AllZero(c) && !AllZero(root))
      && (EvmValidate(p, s.verifierInput).Ok? ==>
            EncodeSubmission(s) == Ok(CallData(c, root, s.verifierInput.proof.proofBytes)))
  {
    ParseCommitmentHex(root);
  }

  /** 64 hex digits that are not all zero, optionally prefixed. */
  predicate NamesRoot(text: string) {
    var digits := StripPrefix(text, "0x");
    && |digits| == 64
    && Hex.AllHexDigits(digits)
    && exists i | 0 <= i < |digits| :: digits[i] != '0'
  }

  lemma AllZeroSplits(b: bytes)
    requires b != []
    ensures AllZero(b) <==> b[0] == 0 && AllZero(b[1..])
  {
    assert b == [b[0]] + b[1..];
  }

  /** Bytes are zero when their digits are. */
  lemma {:induction false} ZeroDigits(digits: string)
    requires Hex.Decode(digits).Some?
    ensures AllZero(Hex.Decode(digits).value) <==> forall i | 0 <= i < |digits| :: digits[i] == '0'
  {
    if digits != "" {
      var b := Hex.Decode(digits).value;
      ZeroDigits(digits[2..]);
      AllZeroSplits(b);
      assert digits == [digits[0], digits[1]] + digits[2..];
      assert b[0] == 0 <==> digits[0] == '0' && digits[1] == '0';
    }
  }

  /** The texts that are parsed to some root. */
  lemma ParseBytes32Total(text: string)
    ensures ParseBytes32Hex(text).Ok? <==> NamesRoot(text)
  {
    var digits := StripPrefix(text, "0x");
    Hex.DecodesExactly(digits);
    if Hex.Decode(digits).Some? {
      ZeroDigits(digits);
    }
  }

  /** The two verifiers disagree exactly on genuine proofs for which the root
      has its prefix, or else commitment and root are what the contract needs,
      but not both. */
  lemma VerifiersDisagree(p: Primitives, input: VerifierInput)
    ensures
      var root := input.storage.merkleRoot;
      (MockValidate(p, input).Ok? != EvmValidate(p, input).Ok?) <==>
      && Zk.Verify(p, input.proofStatement, input.proof)
      && StartsWith(root, "0x") != (!AllZero(input.proofStatement.stateCommitment) && NamesRoot(root))
  {
    ParseBytes32Total(input.storage.merkleRoot);
  }

  /** An input with a genuine proof of a bare statement. */
  function GenuineInput(p: Primitives, c: Commitment, root: string): VerifierInput {
    var s := ProofStatement(c, [], []);
    VerifierInput(s, Zk.Prove(p, s, []), StorageReceiptRef("", root, None))
  }

  /** Inputs on which they do, in both directions: a root that is no more than
      its prefix, the zero commitment, and a root without its prefix. */
  lemma DisagreementsExist(p: Primitives)
    ensures
      var one, zero: Bytes32 := seq(32, i => 1), seq(32, i => 0);
      && MockValidate(p, GenuineInput(p, one, "0x")).Ok?
      && EvmValidate(p, GenuineInput(p, one, "0x")) == Err(InvalidStorageRoot)
      && MockValidate(p, GenuineInput(p, zero, CommitmentToHex(one))).Ok?
      && EvmValidate(p, GenuineInput(p, zero, CommitmentToHex(one))) == Err(InvalidCommitment)
      && MockValidate(p, GenuineInput(p, one, Hex.Encode(one))) == Err(InvalidStorageRoot)
      && EvmValidate(p, GenuineInput(p, one, Hex.Encode(one))).Ok?
  {
    var one, zero: Bytes32 := seq(32, i => 1), seq(32, i => 0);
    var s, t := ProofStatement(one, [], []), ProofStatement(zero, [], []);
    Zk.VerifyExactly(p, s, Zk.Prove(p, s, []), []);
    Zk.VerifyExactly(p, t, Zk.Prove(p, t, []), []);
    assert one[0] == 1;
    ParseCommitmentHex(one);
    StripPrefixed("0x", Hex.Encode(one));
    Hex.DecodeEncode(one);
    Hex.PrefixIsOptional(Hex.Encode(one));
  }
}
