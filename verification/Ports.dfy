/** Ports and peers of the multi-node testnet (cmd/mrphglobald/cmd/testnet_multi_node.go). */
module Ports {
  import opened Wrappers
  import opened Text

  // ---------- the allocation ----------

  datatype Service = Rpc | P2p | ProxyApp | Prometheus | Grpc | Api

  /** The default port of a service of the i-th node. */
  function Port(s: Service, i: nat): int {
    match s
    case Rpc => 26657 - 3 * i
    case P2p => 26656 - 3 * i
    case ProxyApp => 26658 - 3 * i
    case Prometheus => 26660 + i
    case Grpc => 9090 - 2 * i
    case Api => 1317 - i
  }

  ghost predicate Usable(n: nat) {
    forall s, i: nat, t, j: nat :: i < n && j < n ==>
      1 <= Port(s, i) <= 65535 && (Port(s, i) == Port(t, j) ==> s == t && i == j)
  }

  /** All ports of n nodes are valid and different exactly up to 1317 nodes; one more node gets
      API port 0. */
  lemma UsableIff(n: nat)
    ensures Usable(n) <==> n <= 1317
  {
    if n > 1317 {
      assert Port(Api, 1317) == 0;
    }
  }

  // ---------- the configuration files ----------

  /** The node configuration that the loops reuse for every node. */
  class NodeConfig {
    var moniker: string
    var persistentPeers: string
    var p2pAddress: string
    var rpcAddress: string
    var proxyApp: string
    var prometheusAddress: string

    function Written(): ConfigFile
      reads this
    {
      ConfigFile(moniker, persistentPeers, p2pAddress, rpcAddress, proxyApp, prometheusAddress)
    }
  }

  /** config.toml */
  datatype ConfigFile = ConfigFile(moniker: string, persistentPeers: string, p2pAddress: string,
                                   rpcAddress: string, proxyApp: string, prometheusAddress: string)

  /** app.toml */
  datatype AppFile = AppFile(grpcAddress: string, apiAddress: string)

  /** `args.ports` when no port list is given. */
  method DefaultPorts(n: nat) returns (ports: map<int, string>)
    ensures forall i :: 0 <= i < n ==> i in ports && ports[i] == Itoa(Port(Rpc, i))
    ensures forall i :: i in ports ==> 0 <= i < n
  {
    ports := map[];
    var top := 0;
    for i := 0 to n
      invariant top == i
      invariant forall k :: 0 <= k < i ==> k in ports && ports[k] == Itoa(Port(Rpc, k))
      invariant forall k :: k in ports ==> 0 <= k < i
    {
      ports := ports[top := Itoa(26657 - 3 * i)];
      top := top + 1;
    }
  }

  /** How a node is announced to the others. */
  function Memo(id: string, ip: string, port: int): string {
    id + "@" + ip + ":" + Itoa(port)
  }

  function Joined(memos: seq<string>): string {
    if memos == [] then ""
    else if |memos| == 1 then memos[0]
    else Joined(memos[..|memos| - 1]) + "," + memos[|memos| - 1]
  }

  function Memos(ids: seq<string>, ip: string): seq<string> {
    seq(|ids|, i requires 0 <= i < |ids| => Memo(ids[i], ip, Port(P2p, i)))
  }

  /** The part of the first loop that collects the peers and writes the app configurations. */
  method InitNodes(ids: seq<string>, ip: string) returns (persistentPeers: string, apps: map<int, AppFile>)
    ensures persistentPeers == Joined(Memos(ids, ip))
    ensures forall i :: 0 <= i < |ids| ==>
              i in apps && apps[i] == AppFile(ip + ":" + Itoa(Port(Grpc, i)), "tcp://localhost:" + Itoa(Port(Api, i)))
  {
    hide Itoa, Joined;
    persistentPeers := "";
    apps := map[];
    ghost var memos := Memos(ids, ip);
    JoinedNext(memos, 0);
    for i := 0 to |ids|
      invariant persistentPeers == Joined(memos[..i])
      invariant forall k :: 0 <= k < i ==>
                  k in apps && apps[k] == AppFile(ip + ":" + Itoa(Port(Grpc, k)), "tcp://localhost:" + Itoa(Port(Api, k)))
    {
      var memo := ids[i] + "@" + ip + ":" + Itoa(26656 - 3 * i);
      assert memo == memos[i];
      JoinedNext(memos, i);
      if persistentPeers == "" {
        persistentPeers := memo;
      } else {
        persistentPeers := persistentPeers + "," + memo;
      }
      apps := apps[i := AppFile(ip + ":" + Itoa(9090 - 2 * i), "tcp://localhost:" + Itoa(1317 - i))];
    }
    assert memos[..|ids|] == memos;
  }

  /** Memos are not empty, so an empty peer list means that there is none yet. */
  lemma JoinedNext(memos: seq<string>, i: nat)
    requires i <= |memos| && forall k :: 0 <= k < |memos| ==> memos[k] != ""
    ensures Joined(memos[..i]) == "" <==> i == 0
    ensures i < |memos| ==>
              Joined(memos[..i + 1]) == if i == 0 then memos[i] else Joined(memos[..i]) + "," + memos[i]
  {
    if i < |memos| {
      assert memos[..i + 1][..i] == memos[..i];
    }
    if i > 0 {
      assert memos[..i][..i - 1] == memos[..i - 1];
    }
  }

  /** `collectGenFiles`: one configuration object is rewritten for each node, and what it says then
      is that node's file. */
  method CollectConfigs(config: NodeConfig, nodeDirPrefix: string, n: nat, persistentPeers: string, ports: map<int, string>)
    returns (files: map<int, ConfigFile>)
    modifies config
    ensures forall i :: 0 <= i < n ==>
              && i in files
              && files[i] == ConfigFile(nodeDirPrefix + Dec(i), persistentPeers,
                                        "tcp://0.0.0.0:" + Itoa(Port(P2p, i)),
                                        "tcp://127.0.0.1:" + (if i in ports then ports[i] else ""),
                                        "tcp://127.0.0.1:" + Itoa(Port(ProxyApp, i)),
                                        ":" + Itoa(Port(Prometheus, i)))
  {
    files := map[];
    for i := 0 to n
      invariant forall k :: 0 <= k < i ==>
                  && k in files
                  && files[k] == ConfigFile(nodeDirPrefix + Dec(k), persistentPeers,
                                            "tcp://0.0.0.0:" + Itoa(Port(P2p, k)),
                                            "tcp://127.0.0.1:" + (if k in ports then ports[k] else ""),
                                            "tcp://127.0.0.1:" + Itoa(Port(ProxyApp, k)),
                                            ":" + Itoa(Port(Prometheus, k)))
    {
      config.moniker := nodeDirPrefix + Dec(i);
      config.persistentPeers := persistentPeers;
      config.p2pAddress := "tcp://0.0.0.0:" + Itoa(26656 - 3 * i);
      config.rpcAddress := "tcp://127.0.0.1:" + (if i in ports then ports[i] else "");
      config.proxyApp := "tcp://127.0.0.1:" + Itoa(26658 - 3 * i);
      config.prometheusAddress := ":" + Itoa(26660 + i);
      files := files[i := config.Written()];
    }
  }

  // ---------- what the peers read ----------

  lemma {:induction false} JoinedSplits(memos: seq<string>)
    requires memos != [] && forall i :: 0 <= i < |memos| ==> Free(memos[i], ',')
    ensures Split(Joined(memos), ',') == memos
  {
    if |memos| == 1 {
      SplitFree(memos[0], ',');
    } else {
      var n := |memos| - 1;
      JoinedSplits(memos[..n]);
      SplitLast(Joined(memos[..n]), memos[n]);
      assert memos[..n] + [memos[n]] == memos;
    }
  }

  lemma {:induction false} SplitLast(a: string, b: string)
    requires Free(b, ',')
    ensures Split(a + "," + b, ',') == Split(a, ',') + [b]
  {
    var s := a + "," + b;
    if a == "" {
      assert s == "" + [','] + b;
      SplitCons("", ',', b);
      SplitFree(b, ',');
      assert Split("", ',') == [""];
    } else {
      assert s[1..] == a[1..] + "," + b;
      SplitLast(a[1..], b);
    }
  }

  lemma ItoaFree(n: int, c: char)
    requires !IsDigit(c) && c != '-'
    ensures Free(Itoa(n), c)
  {
  }

  lemma MemoFree(id: string, ip: string, port: int)
    requires Free(id, ',') && Free(ip, ',')
    ensures Free(Memo(id, ip, port), ',')
  {
    ItoaFree(port, ',');
  }

  /** Reading the persistent peers back gives every node's id with the port that the same node's
      configuration listens on. */
  method ConfigureTestnet(config: NodeConfig, nodeDirPrefix: string, ids: seq<string>, ip: string)
    returns (files: map<int, ConfigFile>, apps: map<int, AppFile>)
    requires Free(ip, ',') && forall i :: 0 <= i < |ids| ==> Free(ids[i], ',')
    modifies config
    ensures forall i, j :: 0 <= i < |ids| && 0 <= j < |ids| ==>
              && i in files && j in files && j in apps
              && var peers := Split(files[i].persistentPeers, ',');
                 && |peers| == |ids|
                 && peers[j] == ids[j] + "@" + ip + ":" + Itoa(26656 - 3 * j)
                 && files[j].moniker == nodeDirPrefix + Dec(j)
                 && files[j].p2pAddress == "tcp://0.0.0.0:" + Itoa(26656 - 3 * j)
                 && files[j].rpcAddress == "tcp://127.0.0.1:" + Itoa(26657 - 3 * j)
                 && files[j].proxyApp == "tcp://127.0.0.1:" + Itoa(26658 - 3 * j)
                 && files[j].prometheusAddress == ":" + Itoa(26660 + j)
                 && apps[j].grpcAddress == ip + ":" + Itoa(9090 - 2 * j)
                 && apps[j].apiAddress == "tcp://localhost:" + Itoa(1317 - j)
  {
    hide Itoa, Dec, Split, Joined, Free;
    var ports := DefaultPorts(|ids|);
    var persistentPeers;
    persistentPeers, apps := InitNodes(ids, ip);
    files := CollectConfigs(config, nodeDirPrefix, |ids|, persistentPeers, ports);
    if ids != [] {
      forall i | 0 <= i < |ids|
        ensures Free(Memos(ids, ip)[i], ',')
      {
        MemoFree(ids[i], ip, Port(P2p, i));
      }
      JoinedSplits(Memos(ids, ip));
    }
  }
}
