/** Safety over whole runs, whatever the clients do and in whatever order. */
module SystemLaws {
  import opened Common
  import opened Primitives
  import opened Types
  import opened Pipeline
  import opened System
  import Config
  import Encryption
  import Hex
  import PipelineLaws
  import RecordLaws
  import Records
  import Registry
  import Transcript
  import Utf8
  import Verifier

  /** The states that some run reaches. */
  function Reached(p: Primitives, steps: seq<Step>): State {
    Run(p, INITIAL, steps)
  }

  lemma ReachedHolds(p: Primitives, steps: seq<Step>)
    ensures Inv(p, Reached(p, steps))
  {
    assert Calls([]) == [];
    RunKeepsInv(p, INITIAL, steps);
  }

  // -------------------------------------------------------------------- steps

  /** What one step adds to each history, and which roots it adds to storage. */
  lemma StepExactly(p: Primitives, s: State, step: Step)
    ensures
      var next := Apply(p, s, step);
      && next.uploads == s.uploads + UploadsOf(p, step)
      && next.sent == s.sent + SentBy(p, step)
      && next.downloads == s.downloads + (
           if step.DownloadStep? then [Download(step.root, Lookup(s.store, step.root))] else [])
      && next.decryptions == s.decryptions + (
           if step.DecryptStep? then
             [Decryption(step.file, step.keyHex, step.aad, RunDecrypt(p, step.file, step.keyHex, step.aad))]
           else [])
      && (forall root: Bytes32 ::
            root in next.store <==>
            root in s.store || exists file | file in FilesOf(p, step) :: root == p.merkleRoot(file))
  {
  }

  /** A finished live upload; a dry run and a failure leave none. */
  function UploadsOf(p: Primitives, step: Step): seq<Upload> {
    if !step.UploadStep? || step.config.mode == Config.DryRun then []
    else
      match RunUpload(p, step.request, step.config, step.mode, step.tx)
      case Err(_) => []
      case Ok((file, artifact)) => [Upload(step.request, step.config, step.mode, step.tx, file, artifact)]
  }

  function FilesOf(p: Primitives, step: Step): seq<bytes> {
    match step
    case UploadStep(_, _, _, _) => if UploadsOf(p, step) == [] then [] else [UploadsOf(p, step)[0].file]
    case StoreStep(file) => [file]
    case _ => []
  }

  function SentBy(p: Primitives, step: Step): seq<Sent> {
    match step
    case VerifyStep(sender, file) =>
      (match VerifyOnChain(p, sender, file)
       case Err(_) => []
       case Ok(call) => [Sent(call, Adapter(file))])
    case CallStep(call) => [Sent(call, Direct)]
    case _ => []
  }

  /** Which texts find which stored file. */
  lemma LookupExactly(store: map<Bytes32, bytes>, text: string, file: bytes)
    ensures Lookup(store, text) == Some(file) <==>
            exists root: Bytes32 ::
              && root in store && store[root] == file
              && Hex.AllHexDigits(StripPrefix(text, "0x"))
              && Hex.Lower(StripPrefix(text, "0x")) == Hex.Encode(root)
  {
    if Lookup(store, text) == Some(file) {
      PipelineLaws.RootSpellings(text, RootOf(text).value);
    }
    if root: Bytes32 :|
      && root in store && store[root] == file
      && Hex.AllHexDigits(StripPrefix(text, "0x"))
      && Hex.Lower(StripPrefix(text, "0x")) == Hex.Encode(root)
    {
      PipelineLaws.RootSpellings(text, root);
    }
  }

  // ----------------------------------------------------------- recoverability

  /** Two different files with one Merkle root. */
  predicate Collide(p: Primitives, a: bytes, b: bytes) {
    a != b && p.merkleRoot(a) == p.merkleRoot(b)
  }

  /** Any spelling of the root in an upload's receipt. */
  predicate NamesUpload(u: Upload, text: string) {
    RootOf(text) == RootOf(u.artifact.uploadReceipt.storage.merkleRoot)
  }

  /** Any spelling of an upload's key, and its associated data. */
  predicate Unlocks(u: Upload, keyHex: string, aad: string) {
    Encryption.KeyOfHex(keyHex) == Ok(u.request.key) && aad == u.request.aad
  }

  /** After any run, any text for the root in the receipt of any upload finds a
      file, and that decrypts under any text for the key to the plaintext, unless
      another file with the same Merkle root had been stored before. */
  lemma UploadsStayRecoverable(p: Primitives, steps: seq<Step>, i: nat, root: string, keyHex: string, aad: string)
    requires i < |Reached(p, steps).uploads|
    requires NamesUpload(Reached(p, steps).uploads[i], root)
    requires Unlocks(Reached(p, steps).uploads[i], keyHex, aad)
    ensures
      var s := Reached(p, steps);
      var u := s.uploads[i];
      && Lookup(s.store, root).Some?
      && var file := Lookup(s.store, root).value;
         && Apply(p, s, DownloadStep(root)).downloads == s.downloads + [Download(root, Some(file))]
         && (Collide(p, file, u.file) || RunDecrypt(p, file, keyHex, aad) == Ok(u.request.plaintext))
  {
    var s := Reached(p, steps);
    ReachedHolds(p, steps);
    assert UploadHolds(p, s.store, s.uploads[i]);
    FoundDecrypts(p, s, s.uploads[i], root, keyHex, aad);
    ReadSteps(p, s, root, Lookup(s.store, root).value, keyHex, aad);
  }

  /** Whatever a run has downloaded under an upload's root, and decrypted since
      with its key and associated data, gave the plaintext, or else shows a
      collision: a statement about the past alone. */
  lemma DownloadsRecover(p: Primitives, steps: seq<Step>, u: Upload, dl: Download, d: Decryption)
    requires
      var s := Reached(p, steps);
      u in s.uploads && dl in s.downloads && d in s.decryptions
    requires NamesUpload(u, dl.root) && dl.file == Some(d.file) && Unlocks(u, d.keyHex, d.aad)
    ensures Collide(p, d.file, u.file) || d.result == Ok(u.request.plaintext)
  {
    var s := Reached(p, steps);
    ReachedHolds(p, steps);
    assert UploadHolds(p, s.store, u);
    FoundDecrypts(p, s, u, dl.root, d.keyHex, d.aad);
  }

  lemma FoundDecrypts(p: Primitives, s: State, u: Upload, root: string, keyHex: string, aad: string)
    requires Inv(p, s) && UploadHolds(p, s.store, u) && NamesUpload(u, root) && Unlocks(u, keyHex, aad)
    ensures Lookup(s.store, root).Some?
    ensures
      var file := Lookup(s.store, root).value;
      Collide(p, file, u.file) || RunDecrypt(p, file, keyHex, aad) == Ok(u.request.plaintext)
  {
    UploadIsFound(p, s, u, root);
    UploadDecrypts(p, u, keyHex, aad);
  }

  lemma UploadIsFound(p: Primitives, s: State, u: Upload, root: string)
    requires Inv(p, s) && UploadHolds(p, s.store, u) && NamesUpload(u, root)
    ensures Lookup(s.store, root).Some?
    ensures var file := Lookup(s.store, root).value; Collide(p, file, u.file) || file == u.file
  {
    ReceiptRoot(p, u);
  }

  lemma ReceiptRoot(p: Primitives, u: Upload)
    requires u.config.mode == Config.Live
    requires RunUpload(p, u.request, u.config, u.mode, u.tx) == Ok((u.file, u.artifact))
    ensures RootOf(u.artifact.uploadReceipt.storage.merkleRoot) == Some(p.merkleRoot(u.file))
    ensures Prepare(p, u.request).Ok? && u.file == Prepare(p, u.request).value.encodedPayload
  {
    PipelineLaws.RootSpellings("", p.merkleRoot(u.file));
  }

  lemma UploadDecrypts(p: Primitives, u: Upload, keyHex: string, aad: string)
    requires u.config.mode == Config.Live
    requires RunUpload(p, u.request, u.config, u.mode, u.tx) == Ok((u.file, u.artifact))
    requires Unlocks(u, keyHex, aad)
    ensures RunDecrypt(p, u.file, keyHex, aad) == Ok(u.request.plaintext)
  {
    ReceiptRoot(p, u);
    PipelineLaws.Lifecycle(p, u.request);
    Encryption.KeyHexRoundTrip(u.request.key);
  }

  /** Every plaintext that a run ever produced is what its file was encrypted
      from, for the key and associated data that were given. */
  lemma DecryptionsAreGenuine(p: Primitives, steps: seq<Step>, d: Decryption)
    requires d in Reached(p, steps).decryptions && d.result.Ok?
    ensures
      && ParseEncryptedPayload(d.file).Ok?
      && Encryption.KeyOfHex(d.keyHex).Ok?
      && var envelope := ParseEncryptedPayload(d.file).value.0;
         Encryption.Encrypt(
           p, Encryption.KeyOfHex(d.keyHex).value, envelope.nonce, d.result.value, Utf8.Encode(d.aad))
         == Ok(envelope)
  {
    ReachedHolds(p, steps);
    PipelineLaws.OnlyGenuineDecrypts(p, d.file, d.keyHex, d.aad, d.result.value);
  }

  // ---------------------------------------------------------------- provenance

  /** The call came from an artifact whose statement is about the commitment,
      and carries the mock proof of that very statement. */
  predicate Genuine(p: Primitives, sent: Sent) {
    && sent.origin.Adapter?
    && LoadSubmission(sent.origin.artifactFile).Ok?
    && var statement := LoadSubmission(sent.origin.artifactFile).value.verifierInput.proofStatement;
       && sent.call.data.stateCommitment == statement.stateCommitment
       && sent.call.data.proofContext == Transcript.MockProof(p, statement)
  }

  /** What can make a commitment verified: a genuine call by the adapter, or a
      direct call with a nonzero commitment and root. */
  predicate Verifies(p: Primitives, sent: Sent, c: Bytes32) {
    && sent.call.data.stateCommitment == c
    && (Genuine(p, sent) || (sent.origin.Direct? && Registry.Accepted(sent.call)))
  }

  /** After any run, a commitment is verified exactly when the history holds a
      call that can have done it. */
  lemma VerifiedExactly(p: Primitives, steps: seq<Step>, c: Bytes32)
    ensures
      var s := Reached(p, steps);
      s.registry.Verified(c) <==> exists i | 0 <= i < |s.sent| :: Verifies(p, s.sent[i], c)
  {
    var s := Reached(p, steps);
    var calls := Calls(s.sent);
    ReachedHolds(p, steps);
    Registry.RunVerifies(Registry.DEPLOYED, calls, c);
    forall i | 0 <= i < |s.sent|
      ensures Registry.Accepted(calls[i]) && calls[i].data.stateCommitment == c <==> Verifies(p, s.sent[i], c)
    {
      AcceptedVerifies(p, s.sent[i]);
    }
    if Registry.Submitted(calls, c) {
      var i :| 0 <= i < |calls| && Registry.Accepted(calls[i]) && calls[i].data.stateCommitment == c;
      assert Verifies(p, s.sent[i], c);
    }
    if i :| 0 <= i < |s.sent| && Verifies(p, s.sent[i], c) {
      assert Registry.Accepted(calls[i]);
    }
  }

  lemma AcceptedVerifies(p: Primitives, sent: Sent)
    requires SentHolds(p, sent)
    ensures Registry.Accepted(sent.call) <==> Verifies(p, sent, sent.call.data.stateCommitment)
  {
    if sent.origin.Adapter? {
      PipelineLaws.AdapterCallsAreGenuine(p, sent.call.sender, sent.origin.artifactFile);
    }
  }

  /** The registry's mapping and log agree after any run. */
  lemma RegistryStaysConsistent(p: Primitives, steps: seq<Step>)
    ensures Registry.Consistent(Reached(p, steps).registry)
    ensures Reached(p, steps).registry.log == Registry.Events(Calls(Reached(p, steps).sent))
  {
    var s := Reached(p, steps);
    ReachedHolds(p, steps);
    assert Registry.Consistent(Registry.DEPLOYED);
    Registry.RunKeepsConsistent(Registry.DEPLOYED, Calls(s.sent));
    Registry.RunLogs(Registry.DEPLOYED, Calls(s.sent));
  }

  // ------------------------------------------------------------------ progress

  /** Nothing is ever lost: files, verified commitments, and the histories. */
  ghost predicate Keeps(s: State, later: State) {
    && (forall root | root in s.store :: root in later.store && later.store[root] == s.store[root])
    && s.uploads <= later.uploads
    && s.sent <= later.sent
    && s.downloads <= later.downloads
    && s.decryptions <= later.decryptions
    && (forall c: Bytes32 | s.registry.Verified(c) :: later.registry.Verified(c))
  }

  lemma SendKeeps(s: State, call: Registry.Call, origin: Origin)
    ensures Keeps(s, SendCall(s, call, origin))
  {
    Registry.SubmitExactly(s.registry, call);
  }

  lemma AddUploadKeeps(p: Primitives, s: State, u: Upload)
    ensures Keeps(s, AddUpload(p, s, u))
  {
  }

  lemma ApplyKeeps(p: Primitives, s: State, step: Step)
    ensures Keeps(s, Apply(p, s, step))
  {
    match step
    case UploadStep(request, config, mode, tx) =>
      if RunUpload(p, request, config, mode, tx).Ok? {
        var (file, artifact) := RunUpload(p, request, config, mode, tx).value;
        AddUploadKeeps(p, s, Upload(request, config, mode, tx, file, artifact));
      }
    case VerifyStep(sender, artifactFile) =>
      if VerifyOnChain(p, sender, artifactFile).Ok? {
        SendKeeps(s, VerifyOnChain(p, sender, artifactFile).value, Adapter(artifactFile));
      }
    case CallStep(call) => SendKeeps(s, call, Direct);
    case _ =>
  }

  lemma {:induction false} RunKeeps(p: Primitives, s: State, steps: seq<Step>)
    ensures Keeps(s, Run(p, s, steps))
    decreases |steps|
  {
    if steps != [] {
      ApplyKeeps(p, s, steps[0]);
      RunKeeps(p, Apply(p, s, steps[0]), steps[1..]);
    }
  }

  /** After any run, any upload whose hashes are not zero can be verified by
      anyone who has its artifact, and then stays verified for good. */
  lemma UploadsCanBeVerified(
    p: Primitives, steps: seq<Step>, i: nat, sender: Registry.Address, more: seq<Step>)
    requires i < |Reached(p, steps).uploads|
    requires
      var u := Reached(p, steps).uploads[i];
      && RecordLaws.CountersFit(u.artifact)
      && !Verifier.AllZero(u.artifact.uploadReceipt.stateCommitment)
      && !Verifier.AllZero(p.merkleRoot(u.file))
    ensures
      var s := Reached(p, steps);
      var u := s.uploads[i];
      var next := Apply(p, s, VerifyStep(sender, Records.EncodeArtifact(u.artifact)));
      Run(p, next, more).registry.Verified(u.artifact.uploadReceipt.stateCommitment)
  {
    var s := Reached(p, steps);
    var u := s.uploads[i];
    var next := Apply(p, s, VerifyStep(sender, Records.EncodeArtifact(u.artifact)));
    ReachedHolds(p, steps);
    assert UploadHolds(p, s.store, u);
    VerifyStepVerifies(p, s, u, sender);
    RunKeeps(p, next, more);
  }

  lemma VerifyStepVerifies(p: Primitives, s: State, u: Upload, sender: Registry.Address)
    requires UploadHolds(p, s.store, u) && RecordLaws.CountersFit(u.artifact)
    requires !Verifier.AllZero(u.artifact.uploadReceipt.stateCommitment)
    requires !Verifier.AllZero(p.merkleRoot(u.file))
    ensures
      Apply(p, s, VerifyStep(sender, Records.EncodeArtifact(u.artifact)))
        .registry.Verified(u.artifact.uploadReceipt.stateCommitment)
  {
    PipelineLaws.UploadsVerifyOnChain(p, u.request, u.config, u.mode, u.tx, sender);
    VerifyStepSends(p, s, sender, Records.EncodeArtifact(u.artifact));
  }

  lemma VerifyStepSends(p: Primitives, s: State, sender: Registry.Address, artifactFile: bytes)
    requires VerifyOnChain(p, sender, artifactFile).Ok?
    ensures
      Apply(p, s, VerifyStep(sender, artifactFile))
        .registry.Verified(VerifyOnChain(p, sender, artifactFile).value.data.stateCommitment)
  {
    PipelineLaws.AdapterCallsAreGenuine(p, sender, artifactFile);
    Registry.SubmitExactly(s.registry, VerifyOnChain(p, sender, artifactFile).value);
  }

  // ---------------------------------------------------------------- end to end

  /** What is stored stays, or had been taken by a file with the same root. */
  lemma FilesLast(p: Primitives, s: State, file: bytes, more: seq<Step>)
    requires Inv(p, s) && p.merkleRoot(file) in s.store
    ensures
      var store, root := Run(p, s, more).store, p.merkleRoot(file);
      root in store && (Collide(p, store[root], file) || store[root] == file)
  {
    RunKeepsInv(p, s, more);
    RunKeeps(p, s, more);
  }

  /** Storing a file and calling the contract, by anyone and at any time, take
      effect at once and for good. */
  lemma StepsLast(p: Primitives, before: seq<Step>, file: bytes, call: Registry.Call, more: seq<Step>)
    ensures
      var store := Run(p, Apply(p, Reached(p, before), StoreStep(file)), more).store;
      var root := p.merkleRoot(file);
      root in store && (Collide(p, store[root], file) || store[root] == file)
    ensures
      var s, c := Reached(p, before), call.data.stateCommitment;
      var later := Run(p, Apply(p, s, CallStep(call)), more);
      && (Registry.Accepted(call) ==> later.registry.Verified(c))
      && s.sent + [Sent(call, Direct)] <= later.sent
  {
    var s := Reached(p, before);
    ReachedHolds(p, before);
    StoredKeeps(p, s, file);
    FilesLast(p, Apply(p, s, StoreStep(file)), file, more);
    Registry.SubmitExactly(s.registry, call);
    RunKeeps(p, Apply(p, s, CallStep(call)), more);
  }

  /** After an upload and anything else, its file is found. */
  lemma UploadIsStored(p: Primitives, before: seq<Step>, u: Upload, between: seq<Step>, root: string)
    requires u.config.mode == Config.Live
    requires RunUpload(p, u.request, u.config, u.mode, u.tx) == Ok((u.file, u.artifact))
    requires NamesUpload(u, root)
    ensures
      var step := UploadStep(u.request, u.config, u.mode, u.tx);
      var found := Lookup(Run(p, Apply(p, Reached(p, before), step), between).store, root);
      found.Some? && (Collide(p, found.value, u.file) || found.value == u.file)
  {
    var s := Reached(p, before);
    var next := Apply(p, s, UploadStep(u.request, u.config, u.mode, u.tx));
    assert next == AddUpload(p, s, u);
    ReachedHolds(p, before);
    AddUploadKeepsInv(p, s, u);
    StoredKeeps(p, s, u.file);
    FilesLast(p, next, u.file, between);
    ReceiptRoot(p, u);
  }

  /** Upload, let anything happen, download, let anything happen, decrypt: from
      any state that a run reaches the plaintext comes back, unless another file
      with the same Merkle root had been stored before the upload. */
  lemma EndToEnd(
    p: Primitives, before: seq<Step>, u: Upload, between: seq<Step>, root: string, after: seq<Step>,
    keyHex: string, aad: string)
    requires u.config.mode == Config.Live
    requires RunUpload(p, u.request, u.config, u.mode, u.tx) == Ok((u.file, u.artifact))
    requires NamesUpload(u, root) && Unlocks(u, keyHex, aad)
    ensures
      var step := UploadStep(u.request, u.config, u.mode, u.tx);
      var uploaded := Run(p, Apply(p, Reached(p, before), step), between);
      Lookup(uploaded.store, root).Some? &&
      var file := Lookup(uploaded.store, root).value;
      var downloaded := Apply(p, uploaded, DownloadStep(root));
      var later := Run(p, downloaded, after);
      && downloaded.downloads == uploaded.downloads + [Download(root, Some(file))]
      && (Collide(p, file, u.file) ||
          Apply(p, later, DecryptStep(file, keyHex, aad)).decryptions
          == later.decryptions + [Decryption(file, keyHex, aad, Ok(u.request.plaintext))])
  {
    var step := UploadStep(u.request, u.config, u.mode, u.tx);
    var uploaded := Run(p, Apply(p, Reached(p, before), step), between);
    UploadIsStored(p, before, u, between, root);
    UploadDecrypts(p, u, keyHex, aad);
    var file := Lookup(uploaded.store, root).value;
    ReadSteps(p, uploaded, root, file, keyHex, aad);
    ReadSteps(p, Run(p, Apply(p, uploaded, DownloadStep(root)), after), root, file, keyHex, aad);
  }

  lemma ReadSteps(p: Primitives, s: State, root: string, file: bytes, keyHex: string, aad: string)
    ensures Apply(p, s, DownloadStep(root)).downloads == s.downloads + [Download(root, Lookup(s.store, root))]
    ensures Apply(p, s, DecryptStep(file, keyHex, aad)).decryptions
            == s.decryptions + [Decryption(file, keyHex, aad, RunDecrypt(p, file, keyHex, aad))]
  {
  }
}
