/** The genesis files of the multi-node testnet (cmd/mrphglobald/cmd/testnet_multi_node.go). */
module Genesis {
  import opened Coins
  import opened Testnet

  const DEFAULT_POWER_REDUCTION: int := 1_000_000
  const BOND_DENOM := "stake"

  datatype Balance = Balance(address: string, coins: Coins)

  datatype GenesisDoc = GenesisDoc(chainId: string, balances: seq<Balance>, supply: Coins)

  function TokensFromConsensusPower(power: int): int {
    power * DEFAULT_POWER_REDUCTION
  }

  /** What every node's account is given. */
  function NodeCoins(): Coins {
    map["testtoken" := TokensFromConsensusPower(1000), BOND_DENOM := TokensFromConsensusPower(500)]
  }

  function NodeBalances(addresses: seq<string>): seq<Balance> {
    seq(|addresses|, i requires 0 <= i < |addresses| => Balance(addresses[i], NodeCoins()))
  }

  function Held(balances: seq<Balance>, d: Denom): int {
    if balances == [] then 0
    else Held(balances[..|balances| - 1], d) + AmountOf(balances[|balances| - 1].coins, d)
  }

  lemma {:induction false} HeldWithout(balances: seq<Balance>, k: nat, d: Denom)
    requires k < |balances|
    ensures Held(balances, d) == Held(balances[..k] + balances[k + 1..], d) + AmountOf(balances[k].coins, d)
  {
    var n := |balances| - 1;
    if k < n {
      HeldWithout(balances[..n], k, d);
      var rest := balances[..k] + balances[k + 1..];
      assert rest[..|rest| - 1] == balances[..n][..k] + balances[..n][k + 1..];
    } else {
      assert balances[..k] + balances[k + 1..] == balances[..n];
    }
  }

  lemma WithoutOne<T>(s: seq<T>, k: nat)
    requires k < |s|
    ensures multiset(s[..k] + s[k + 1..]) == multiset(s) - multiset{s[k]}
  {
    assert s == s[..k] + [s[k]] + s[k + 1..];
    assert multiset(s) == multiset(s[..k] + s[k + 1..]) + multiset{s[k]};
  }

  /** What is held does not depend on the order. */
  lemma {:induction false} HeldPermuted(a: seq<Balance>, b: seq<Balance>, d: Denom)
    requires multiset(a) == multiset(b)
    ensures Held(a, d) == Held(b, d)
  {
    hide AmountOf;
    if a == [] {
      assert |b| == |multiset(b)| == |multiset(a)| == 0;
    } else {
      var n := |a| - 1;
      assert a[n] in multiset(b);
      var k :| 0 <= k < |b| && b[k] == a[n];
      WithoutOne(a, n);
      WithoutOne(b, k);
      HeldWithout(b, k, d);
      assert a[..n] + a[n + 1..] == a[..n];
      HeldPermuted(a[..n], b[..k] + b[k + 1..], d);
    }
  }

  lemma {:induction false} HeldEqually(balances: seq<Balance>, coins: Coins, d: Denom)
    requires forall i :: 0 <= i < |balances| ==> balances[i].coins == coins
    ensures Held(balances, d) == |balances| * AmountOf(coins, d)
  {
    if balances != [] {
      HeldEqually(balances[..|balances| - 1], coins, d);
    }
  }

  /** `initGenFiles`. `sanitized` is what the bank module makes of the balances: the same ones,
      sorted by address. Every node is given the same document, whose supply is what the accounts
      hold. */
  method InitGenFiles(chainId: string, genBalances: seq<Balance>, sanitized: seq<Balance>, genFiles: seq<Path>)
    returns (files: map<Path, GenesisDoc>)
    requires multiset(sanitized) == multiset(genBalances)
    ensures files.Keys == set p | p in genFiles
    ensures forall p :: p in files ==>
              && files[p].chainId == chainId && files[p].balances == sanitized
              && forall d :: AmountOf(files[p].supply, d) == Held(genBalances, d)
  {
    var supply: Coins := map[];
    for i := 0 to |sanitized|
      invariant forall d :: AmountOf(supply, d) == Held(sanitized[..i], d)
    {
      assert sanitized[..i + 1][..i] == sanitized[..i];
      supply := Add(supply, sanitized[i].coins);
    }
    assert sanitized[..|sanitized|] == sanitized;
    forall d {
      HeldPermuted(sanitized, genBalances, d);
    }
    var doc := GenesisDoc(chainId, sanitized, supply);
    files := map[];
    for i := 0 to |genFiles|
      invariant files.Keys == set p | p in genFiles[..i]
      invariant forall p :: p in files ==> files[p] == doc
    {
      assert genFiles[..i + 1] == genFiles[..i] + [genFiles[i]];
      files := files[genFiles[i] := doc];
    }
    assert genFiles[..|genFiles|] == genFiles;
  }

  /** n nodes hold n times what one holds. */
  lemma NodeSupply(addresses: seq<string>)
    ensures |NodeBalances(addresses)| == |addresses|
    ensures forall i :: 0 <= i < |addresses| ==> NodeBalances(addresses)[i].address == addresses[i]
    ensures Held(NodeBalances(addresses), "testtoken") == |addresses| * 1_000_000_000
    ensures Held(NodeBalances(addresses), BOND_DENOM) == |addresses| * 500_000_000
    ensures forall d :: d != "testtoken" && d != BOND_DENOM ==> Held(NodeBalances(addresses), d) == 0
  {
    forall d
      ensures Held(NodeBalances(addresses), d) == |addresses| * AmountOf(NodeCoins(), d)
    {
      HeldEqually(NodeBalances(addresses), NodeCoins(), d);
    }
  }
}
