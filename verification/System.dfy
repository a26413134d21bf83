/** Many clients, one storage network and one registry: every interleaving of
    uploads, verifications, downloads, decryptions and direct contract calls. */
module System {
  import opened Common
  import opened Primitives
  import opened Types
  import opened Pipeline
  import Config
  import Encryption
  import PipelineLaws
  import Registry

  // ------------------------------------------------------------------ states

  /** A finished live upload: what was asked, the file sent, the artifact kept. */
  datatype Upload = Upload(
    request: UploadRequest,
    config: Config.ZeroGStorageConfig,
    mode: string,
    tx: Option<Bytes32>,
    file: bytes,
    artifact: VerificationArtifact)

  /** Who made a contract call: the adapter, from an artifact file, or anyone. */
  datatype Origin = Adapter(artifactFile: bytes) | Direct

  datatype Sent = Sent(call: Registry.Call, origin: Origin)

  datatype Download = Download(root: string, file: Option<bytes>)

  datatype Decryption = Decryption(
    file: bytes, keyHex: string, aad: string, result: Result<bytes, Encryption.EncryptionError>)

  datatype State = State(
    store: map<Bytes32, bytes>,
    registry: Registry.State,
    uploads: seq<Upload>,
    sent: seq<Sent>,
    downloads: seq<Download>,
    decryptions: seq<Decryption>)

  const INITIAL := State(map[], Registry.DEPLOYED, [], [], [], [])

  datatype Step =
    | UploadStep(request: UploadRequest, config: Config.ZeroGStorageConfig, mode: string, tx: Option<Bytes32>)
    | StoreStep(file: bytes)
    | VerifyStep(sender: Registry.Address, artifactFile: bytes)
    | DownloadStep(root: string)
    | DecryptStep(file: bytes, keyHex: string, aad: string)
    | CallStep(call: Registry.Call)

  /** Storage only ever adds: a root that is taken stays as it is. */
  function Stored(p: Primitives, store: map<Bytes32, bytes>, file: bytes): map<Bytes32, bytes> {
    if p.merkleRoot(file) in store then store else store[p.merkleRoot(file) := file]
  }

  /** The stored file whose root a text names. */
  function Lookup(store: map<Bytes32, bytes>, text: string): Option<bytes> {
    var root :- RootOf(text);
    if root in store then Some(store[root]) else None
  }

  function AddUpload(p: Primitives, s: State, u: Upload): State {
    s.(store := Stored(p, s.store, u.file), uploads := s.uploads + [u])
  }

  function SendCall(s: State, call: Registry.Call, origin: Origin): State {
    s.(registry := Registry.Submit(s.registry, call).0, sent := s.sent + [Sent(call, origin)])
  }

  function Apply(p: Primitives, s: State, step: Step): State {
    match step
    case UploadStep(request, config, mode, tx) =>
      (match RunUpload(p, request, config, mode, tx)
       case Err(_) => s
       case Ok((file, artifact)) =>
         if config.mode == Config.DryRun then s
         else AddUpload(p, s, Upload(request, config, mode, tx, file, artifact)))
    case StoreStep(file) => s.(store := Stored(p, s.store, file))
    case VerifyStep(sender, artifactFile) =>
      (match VerifyOnChain(p, sender, artifactFile)
       case Err(_) => s
       case Ok(call) => SendCall(s, call, Adapter(artifactFile)))
    case DownloadStep(root) =>
      s.(downloads := s.downloads + [Download(root, Lookup(s.store, root))])
    case DecryptStep(file, keyHex, aad) =>
      s.(decryptions := s.decryptions + [Decryption(file, keyHex, aad, RunDecrypt(p, file, keyHex, aad))])
    case CallStep(call) => SendCall(s, call, Direct)
  }

  function Run(p: Primitives, s: State, steps: seq<Step>): State
    decreases |steps|
  {
    if steps == [] then s else Run(p, Apply(p, s, steps[0]), steps[1..])
  }

  // -------------------------------------------------------------- invariants

  /** The upload happened as recorded, and its root is stored. */
  ghost predicate UploadHolds(p: Primitives, store: map<Bytes32, bytes>, u: Upload) {
    && u.config.mode == Config.Live
    && RunUpload(p, u.request, u.config, u.mode, u.tx) == Ok((u.file, u.artifact))
    && p.merkleRoot(u.file) in store
  }

  /** An adapter's call is what `verify` makes of its artifact file. */
  ghost predicate SentHolds(p: Primitives, sent: Sent) {
    sent.origin.Adapter? ==> VerifyOnChain(p, sent.call.sender, sent.origin.artifactFile) == Ok(sent.call)
  }

  function Calls(sent: seq<Sent>): seq<Registry.Call> {
    seq(|sent|, i requires 0 <= i < |sent| => sent[i].call)
  }

  ghost predicate StoreHolds(p: Primitives, store: map<Bytes32, bytes>) {
    forall root | root in store :: root == p.merkleRoot(store[root])
  }

  ghost predicate UploadsHold(p: Primitives, store: map<Bytes32, bytes>, uploads: seq<Upload>) {
    forall i | 0 <= i < |uploads| :: UploadHolds(p, store, uploads[i])
  }

  ghost predicate CallsHold(p: Primitives, registry: Registry.State, sent: seq<Sent>) {
    && (forall i | 0 <= i < |sent| :: SentHolds(p, sent[i]))
    && registry == Registry.Run(Registry.DEPLOYED, Calls(sent))
  }

  /** What was downloaded is what its root is stored under. */
  ghost predicate DownloadsHold(store: map<Bytes32, bytes>, downloads: seq<Download>) {
    forall d | d in downloads && d.file.Some? :: Lookup(store, d.root) == d.file
  }

  ghost predicate DecryptionsHold(p: Primitives, decryptions: seq<Decryption>) {
    forall d | d in decryptions :: d.result == RunDecrypt(p, d.file, d.keyHex, d.aad)
  }

  ghost predicate Inv(p: Primitives, s: State) {
    && StoreHolds(p, s.store)
    && UploadsHold(p, s.store, s.uploads)
    && CallsHold(p, s.registry, s.sent)
    && DownloadsHold(s.store, s.downloads)
    && DecryptionsHold(p, s.decryptions)
  }

  lemma SendKeepsInv(p: Primitives, s: State, call: Registry.Call, origin: Origin)
    requires Inv(p, s) && SentHolds(p, Sent(call, origin))
    ensures Inv(p, SendCall(s, call, origin))
  {
    var calls := Calls(s.sent);
    assert Calls(s.sent + [Sent(call, origin)]) == calls + [call];
    Registry.RunAppends(Registry.DEPLOYED, calls, [call]);
    OneCall(s.registry, call);
  }

  lemma OneCall(r: Registry.State, call: Registry.Call)
    ensures Registry.Run(r, [call]) == Registry.Submit(r, call).0
  {
    var none: seq<Registry.Call> := [call][1..];
    assert Registry.Run(Registry.Submit(r, call).0, none) == Registry.Submit(r, call).0;
  }

  lemma StoredKeeps(p: Primitives, s: State, file: bytes)
    requires Inv(p, s)
    ensures Inv(p, s.(store := Stored(p, s.store, file)))
    ensures p.merkleRoot(file) in Stored(p, s.store, file)
  {
    forall i | 0 <= i < |s.uploads|
      ensures UploadHolds(p, Stored(p, s.store, file), s.uploads[i])
    {
      assert UploadHolds(p, s.store, s.uploads[i]);
    }
  }

  lemma AddUploadKeepsInv(p: Primitives, s: State, u: Upload)
    requires Inv(p, s) && u.config.mode == Config.Live
    requires RunUpload(p, u.request, u.config, u.mode, u.tx) == Ok((u.file, u.artifact))
    ensures Inv(p, AddUpload(p, s, u))
  {
    StoredKeeps(p, s, u.file);
    assert UploadHolds(p, Stored(p, s.store, u.file), u);
  }

  lemma UploadKeepsInv(
    p: Primitives, s: State, request: UploadRequest, config: Config.ZeroGStorageConfig, mode: string,
    tx: Option<Bytes32>)
    requires Inv(p, s)
    ensures Inv(p, Apply(p, s, UploadStep(request, config, mode, tx)))
  {
    var outcome := RunUpload(p, request, config, mode, tx);
    if outcome.Ok? && config.mode == Config.Live {
      var (file, artifact) := outcome.value;
      AddUploadKeepsInv(p, s, Upload(request, config, mode, tx, file, artifact));
    }
  }

  lemma VerifyKeepsInv(p: Primitives, s: State, sender: Registry.Address, artifactFile: bytes)
    requires Inv(p, s)
    ensures Inv(p, Apply(p, s, VerifyStep(sender, artifactFile)))
  {
    var outcome := VerifyOnChain(p, sender, artifactFile);
    if outcome.Ok? {
      PipelineLaws.AdapterCallsAreGenuine(p, sender, artifactFile);
      SendKeepsInv(p, s, outcome.value, Adapter(artifactFile));
    }
  }

  lemma ApplyKeepsInv(p: Primitives, s: State, step: Step)
    requires Inv(p, s)
    ensures Inv(p, Apply(p, s, step))
  {
    match step
    case UploadStep(request, config, mode, tx) => UploadKeepsInv(p, s, request, config, mode, tx);
    case StoreStep(file) => StoredKeeps(p, s, file);
    case VerifyStep(sender, artifactFile) => VerifyKeepsInv(p, s, sender, artifactFile);
    case DownloadStep(root) =>
    case DecryptStep(file, keyHex, aad) =>
    case CallStep(call) => SendKeepsInv(p, s, call, Direct);
  }

  lemma {:induction false} RunKeepsInv(p: Primitives, s: State, steps: seq<Step>)
    requires Inv(p, s)
    ensures Inv(p, Run(p, s, steps))
    decreases |steps|
  {
    if steps != [] {
      ApplyKeepsInv(p, s, steps[0]);
      RunKeepsInv(p, Apply(p, s, steps[0]), steps[1..]);
    }
  }
}
