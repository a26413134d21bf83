/** Node lists, and the storage configuration chosen from the environment. */
module Config {
  import opened Common
  import opened Strings
  import opened Env

  // --------------------------------------------------------------- node lists

  function TrimmedNonEmpty(parts: seq<string>): seq<string> {
    if parts == [] then []
    else
      var rest := TrimmedNonEmpty(parts[1..]);
      if Trim(parts[0]) == "" then rest else [Trim(parts[0])] + rest
  }

  function ParseNodeUrls(raw: string): seq<string> {
    TrimmedNonEmpty(Split(raw, ','))
  }

  function Join(urls: seq<string>): string {
    if urls == [] then ""
    else if |urls| == 1 then urls[0]
    else urls[0] + [','] + Join(urls[1..])
  }

  // ------------------------------------------------------------ configuration

  datatype UploadMode = DryRun | Live

  datatype UploadFinality = FileFinalized | TransactionPacked | WaitNothing

  datatype ZeroGStorageConfig = ZeroGStorageConfig(
    networkLabel: string,
    mode: UploadMode,
    chainRpcUrl: Option<string>,
    privateKeyHex: Option<string>,
    indexerUrl: Option<string>,
    nodeUrls: seq<string>,
    expectedReplica: nat,
    taskSize: nat,
    skipTx: bool,
    feeWei: nat,
    finality: UploadFinality)

  function DryRunConfig(network: string): ZeroGStorageConfig {
    ZeroGStorageConfig(network, DryRun, None, None, None, [], 1, 10, true, 0, TransactionPacked)
  }

  function LiveWithIndexer(network: string, rpc: string, key: string, indexer: string): ZeroGStorageConfig {
    ZeroGStorageConfig(network, Live, Some(rpc), Some(key), Some(indexer), [], 1, 10, true, 0, TransactionPacked)
  }

  function LiveWithNodes(network: string, rpc: string, key: string, nodes: seq<string>): ZeroGStorageConfig {
    ZeroGStorageConfig(network, Live, Some(rpc), Some(key), None, nodes, 1, 10, true, 0, TransactionPacked)
  }

  /** A variable that is set to something other than white space. */
  function NonBlank(vars: Vars, name: string): Option<string> {
    if name in vars && Trim(vars[name]) != "" then Some(vars[name]) else None
  }

  function BuildStorageConfig(vars: Vars, network: string): (ZeroGStorageConfig, string) {
    var rpc := NonBlank(vars, "0G_CHAIN_RPC_URL");
    var key := NonBlank(vars, "0G_PRIVATE_KEY");
    var indexer := NonBlank(vars, "0G_STORAGE_INDEXER_URL");
    var node := NonBlank(vars, "0G_STORAGE_NODE_URL");
    if rpc.Some? && key.Some? && indexer.Some? then
      (LiveWithIndexer(network, rpc.value, key.value, indexer.value), "live_with_indexer")
    else if rpc.Some? && key.Some? && node.Some? && ParseNodeUrls(node.value) != [] then
      (LiveWithNodes(network, rpc.value, key.value, ParseNodeUrls(node.value)), "live_with_nodes")
    else (DryRunConfig(network), "dry_run")
  }

  /** Where `download` would go: the indexer, which is trimmed here, comes first. */
  function FirstStorageIndexerUrl(vars: Vars): Option<string> {
    if "0G_STORAGE_INDEXER_URL" in vars && Trim(vars["0G_STORAGE_INDEXER_URL"]) != "" then
      Some(Trim(vars["0G_STORAGE_INDEXER_URL"]))
    else None
  }

  function FirstStorageNodeUrl(vars: Vars): Option<string> {
    if "0G_STORAGE_NODE_URL" in vars && ParseNodeUrls(vars["0G_STORAGE_NODE_URL"]) != [] then
      Some(ParseNodeUrls(vars["0G_STORAGE_NODE_URL"])[0])
    else None
  }

  datatype ConfigError = MissingChainCredentials | MissingUploadTarget

  /** The checks at the top of `upload_live_bytes`. */
  function LiveTarget(config: ZeroGStorageConfig): Result<(), ConfigError> {
    if config.chainRpcUrl.None? || config.privateKeyHex.None? then Err(MissingChainCredentials)
    else if config.indexerUrl.None? && config.nodeUrls == [] then Err(MissingUploadTarget)
    else Ok(())
  }

  /** The clients for explicit nodes, connected one by one until one fails;
      `connect` stands for the network. */
  method ConnectNodes<Client>(nodeUrls: seq<string>, connect: string -> Option<Client>)
    returns (clients: Option<seq<Client>>)
    ensures clients.Some? <==> forall i | 0 <= i < |nodeUrls| :: connect(nodeUrls[i]).Some?
    ensures clients.Some? ==>
              && |clients.value| == |nodeUrls|
              && forall i | 0 <= i < |nodeUrls| :: connect(nodeUrls[i]) == Some(clients.value[i])
  {
    var connected: seq<Client> := [];
    for i := 0 to |nodeUrls|
      invariant |connected| == i
      invariant forall j | 0 <= j < i :: connect(nodeUrls[j]) == Some(connected[j])
    {
      var client := connect(nodeUrls[i]);
      if client.None? {
        return None;
      }
      connected := connected + [client.value];
    }
    return Some(connected);
  }

  // -------------------------------------------------------------------- laws

  /** An element that a node list can hold. */
  predicate IsNodeUrl(url: string) {
    url != "" && Trimmed(url) && ',' !in url
  }

  lemma {:induction false} TrimKeeps(s: string, c: char)
    requires c !in s
    ensures c !in Trim(s)
  {
    TrimStartKeeps(s, c);
    var t := TrimStart(s);
    assert TrimEnd(t) == t[..|TrimEnd(t)|];
  }

  lemma {:induction false} TrimStartKeeps(s: string, c: char)
    requires c !in s
    ensures c !in TrimStart(s)
  {
    if s != "" && IsWhitespace(s[0]) {
      assert c !in s[1..];
      TrimStartKeeps(s[1..], c);
    }
  }

  lemma {:induction false} TrimmedNonEmptyAreUrls(parts: seq<string>)
    requires forall part | part in parts :: ',' !in part
    ensures forall url | url in TrimmedNonEmpty(parts) :: IsNodeUrl(url)
  {
    if parts != [] {
      TrimmedNonEmptyAreUrls(parts[1..]);
      TrimKeeps(parts[0], ',');
    }
  }

  lemma SplitJoined(url: string, rest: string)
    requires ',' !in url
    ensures Split(url, ',') == [url]
    ensures Split(url + [','] + rest, ',') == [url] + Split(rest, ',')
  {
    BeforeOf(url, ',', rest);
    assert (url + [','] + rest)[|url| + 1..] == rest;
  }

  lemma OnePart(part: string)
    ensures TrimmedNonEmpty([part]) == if Trim(part) == "" then [] else [Trim(part)]
  {
    var none: seq<string> := [part][1..];
    assert TrimmedNonEmpty(none) == [];
  }

  lemma ParseFirst(url: string, rest: string)
    requires IsNodeUrl(url)
    ensures ParseNodeUrls(url + [','] + rest) == [url] + ParseNodeUrls(rest)
  {
    var parts := Split(rest, ',');
    SplitJoined(url, rest);
    assert ([url] + parts)[1..] == parts;
  }

  lemma {:induction false} ParseJoined(urls: seq<string>)
    requires forall i | 0 <= i < |urls| :: IsNodeUrl(urls[i])
    ensures ParseNodeUrls(Join(urls)) == urls
  {
    if urls == [] {
      OnePart("");
    } else if |urls| == 1 {
      assert IsNodeUrl(urls[0]);
      SplitJoined(urls[0], "");
      OnePart(urls[0]);
    } else {
      assert IsNodeUrl(urls[0]);
      ParseJoined(urls[1..]);
      ParseFirst(urls[0], Join(urls[1..]));
    }
  }

  /** Parsing normalises: what it returns, joined with commas, parses to itself. */
  lemma NodeListsNormalise(raw: string)
    ensures forall url | url in ParseNodeUrls(raw) :: IsNodeUrl(url)
    ensures ParseNodeUrls(Join(ParseNodeUrls(raw))) == ParseNodeUrls(raw)
  {
    TrimmedNonEmptyAreUrls(Split(raw, ','));
    ParseJoined(ParseNodeUrls(raw));
  }

  lemma {:induction false} SplitAppends(a: string, b: string, c: char)
    ensures Split(a + [c] + b, c) == Split(a, c) + Split(b, c)
    decreases |a|
  {
    var head := Before(a, c);
    if |head| == |a| {
      BeforeOf(a, c, b);
      assert (a + [c] + b)[|a| + 1..] == b;
    } else {
      var rest := a[|head| + 1..];
      assert a == head + [c] + rest;
      assert a + [c] + b == head + [c] + (rest + [c] + b);
      BeforeOf(head, c, rest + [c] + b);
      assert (a + [c] + b)[|head| + 1..] == rest + [c] + b;
      SplitAppends(rest, b, c);
      assert [head] + (Split(rest, c) + Split(b, c)) == [head] + Split(rest, c) + Split(b, c);
    }
  }

  lemma {:induction false} TrimmedNonEmptyAppends(parts: seq<string>, more: seq<string>)
    ensures TrimmedNonEmpty(parts + more) == TrimmedNonEmpty(parts) + TrimmedNonEmpty(more)
  {
    if parts == [] {
      assert parts + more == more;
    } else {
      assert (parts + more)[1..] == parts[1..] + more;
      TrimmedNonEmptyAppends(parts[1..], more);
    }
  }

  /** Every list, element by element: text without a comma is one address, or
      none when it is blank, and a comma joins the addresses on both sides. */
  lemma NodeListsAppend(a: string, b: string)
    ensures ',' !in a ==> ParseNodeUrls(a) == if Trim(a) == "" then [] else [Trim(a)]
    ensures ParseNodeUrls(a + [','] + b) == ParseNodeUrls(a) + ParseNodeUrls(b)
  {
    SplitAppends(a, b, ',');
    TrimmedNonEmptyAppends(Split(a, ','), Split(b, ','));
    if ',' !in a {
      SplitJoined(a, "");
      OnePart(a);
    }
  }

  /** A blank list has no element, so asking for a nonblank one loses nothing. */
  lemma BlankHasNoUrl(raw: string)
    requires Trim(raw) == ""
    ensures ParseNodeUrls(raw) == []
  {
    AllSpace(raw);
    assert ',' !in raw;
    SplitJoined(raw, "");
    OnePart(raw);
  }

  lemma {:induction false} AllSpace(s: string)
    requires Trim(s) == ""
    ensures forall c | c in s :: IsWhitespace(c)
  {
    if s != "" {
      if IsWhitespace(s[0]) {
        assert TrimStart(s) == TrimStart(s[1..]);
        AllSpace(s[1..]);
      } else {
        TrimEndKeepsFirst(s);
      }
    }
  }

  lemma {:induction false} TrimEndKeepsFirst(s: string)
    requires s != "" && !IsWhitespace(s[0])
    ensures TrimEnd(s) != ""
    decreases |s|
  {
    if IsWhitespace(s[|s| - 1]) {
      TrimEndKeepsFirst(s[..|s| - 1]);
    }
  }

  /** Which mode is chosen, and what it was built from. */
  lemma ConfigExactly(vars: Vars, network: string)
    ensures
      var (config, mode) := BuildStorageConfig(vars, network);
      var credentials := NonBlank(vars, "0G_CHAIN_RPC_URL").Some? && NonBlank(vars, "0G_PRIVATE_KEY").Some?;
      && mode in {"live_with_indexer", "live_with_nodes", "dry_run"}
      && (mode == "live_with_indexer" <==> credentials && FirstStorageIndexerUrl(vars).Some?)
      && (mode == "live_with_nodes" <==>
            credentials && FirstStorageIndexerUrl(vars).None? && FirstStorageNodeUrl(vars).Some?)
      && (mode == "dry_run" <==> config.mode == DryRun)
      && (mode == "live_with_nodes" ==>
            config.nodeUrls != [] && FirstStorageNodeUrl(vars) == Some(config.nodeUrls[0]))
      && config.networkLabel == network
      && (config.mode == Live ==>
            && config.chainRpcUrl == NonBlank(vars, "0G_CHAIN_RPC_URL")
            && config.privateKeyHex == NonBlank(vars, "0G_PRIVATE_KEY")
            && config.indexerUrl == NonBlank(vars, "0G_STORAGE_INDEXER_URL"))
      && (mode == "live_with_nodes" ==> config.nodeUrls == ParseNodeUrls(vars["0G_STORAGE_NODE_URL"]))
      && (mode != "live_with_nodes" ==> config.nodeUrls == [])
      && (mode == "dry_run" ==>
            config.chainRpcUrl == None && config.privateKeyHex == None && config.indexerUrl == None)
      && config.expectedReplica == 1 && config.taskSize == 10 && config.skipTx && config.feeWei == 0
      && config.finality == TransactionPacked
  {
    if "0G_STORAGE_NODE_URL" in vars && Trim(vars["0G_STORAGE_NODE_URL"]) == "" {
      BlankHasNoUrl(vars["0G_STORAGE_NODE_URL"]);
    }
  }

  /** No live configuration that is built lacks credentials or a target. */
  lemma BuiltConfigsHaveTargets(vars: Vars, network: string)
    requires BuildStorageConfig(vars, network).0.mode == Live
    ensures LiveTarget(BuildStorageConfig(vars, network).0).Ok?
  {
  }

  /** What the check in front of a live upload says of each kind of configuration. */
  lemma TargetsOfConfigs(network: string, rpc: string, key: string, indexer: string, nodes: seq<string>)
    ensures LiveTarget(DryRunConfig(network)) == Err(MissingChainCredentials)
    ensures LiveTarget(LiveWithIndexer(network, rpc, key, indexer)) == Ok(())
    ensures LiveTarget(LiveWithNodes(network, rpc, key, nodes)) ==
            if nodes == [] then Err(MissingUploadTarget) else Ok(())
  {
  }

  /** Upload passes the indexer's address on as it is set, download trims it:
      they go to the same address exactly when there is nothing to trim. */
  lemma IndexerAddressesAgree(vars: Vars, network: string)
    requires BuildStorageConfig(vars, network).1 == "live_with_indexer"
    ensures BuildStorageConfig(vars, network).0.indexerUrl == FirstStorageIndexerUrl(vars)
            <==> Trimmed(vars["0G_STORAGE_INDEXER_URL"])
  {
  }

  /** An environment in which they do not. */
  lemma IndexerAddressesDiffer(network: string)
    ensures
      var vars :=
        map["0G_CHAIN_RPC_URL" := "r", "0G_PRIVATE_KEY" := "k", "0G_STORAGE_INDEXER_URL" := " u"];
      var (config, mode) := BuildStorageConfig(vars, network);
      && mode == "live_with_indexer"
      && config.indexerUrl == Some(" u")
      && FirstStorageIndexerUrl(vars) == Some("u")
  {
    assert Trim("r") == "r" && Trim("k") == "k";
    assert " u"[1..] == "u" && Trim("u") == "u";
    assert TrimStart(" u") == TrimStart("u");
  }
}
