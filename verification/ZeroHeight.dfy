/** The zero-height export (app/export.go): distribution and staking state are prepared for a new
    genesis. The keepers of the Cosmos SDK are modelled by what they promise. */
module ZeroHeight {
  import opened Coins
  import opened Sums

  type Address = string
  /** Decimal coins; amounts count units of 10^-18. */
  type DecCoins = Coins

  /** What a withdrawal does: whole coins go to an account, the rest of the reward to the community
      pool. The export discards the errors, so any withdrawal may fail. */
  datatype Withdrawal = Failed | Paid(coins: DecCoins, remainder: DecCoins)

  /** The distribution keeper pays no more than what is outstanding for the validator. */
  predicate Covered(w: Withdrawal, outstanding: DecCoins) {
    w.Paid? && forall d :: d in w.coins.Keys + w.remainder.Keys ==>
      && AmountOf(w.coins, d) >= 0 && AmountOf(w.remainder, d) >= 0
      && AmountOf(w.coins, d) + AmountOf(w.remainder, d) <= AmountOf(outstanding, d)
  }

  /** No validator's outstanding rewards are negative. */
  ghost predicate NonNegative(outstanding: map<Address, DecCoins>) {
    forall a, d :: a in outstanding ==> AmountOf(outstanding[a], d) >= 0
  }

  datatype Validator = Validator(unbondingHeight: int, jailed: bool, rest: string)
  datatype Delegation = Delegation(delegator: Address, validator: Address)
  datatype Entry = Entry(creationHeight: int, rest: string)
  datatype SigningInfo = SigningInfo(startHeight: int, rest: string)

  // ---------- what the explicit loops compute ----------

  function Reset(entries: seq<Entry>): seq<Entry> {
    seq(|entries|, i requires 0 <= i < |entries| => entries[i].(creationHeight := 0))
  }

  function ResetStore(store: map<string, seq<Entry>>): map<string, seq<Entry>> {
    map k | k in store :: Reset(store[k])
  }

  /** A validator is jailed if it was, or if there is an allow list without it. */
  function Reopened(v: Validator, address: Address, allowed: seq<Address>): Validator {
    v.(unbondingHeight := 0, jailed := v.jailed || (|allowed| > 0 && address !in allowed))
  }

  function ReopenedStore(store: map<Address, Validator>, allowed: seq<Address>): map<Address, Validator> {
    map a | a in store :: Reopened(store[a], a, allowed)
  }

  function RestartedInfos(infos: map<Address, SigningInfo>): map<Address, SigningInfo> {
    map a | a in infos :: infos[a].(startHeight := 0)
  }

  /** The explicit loops change nothing when the export is repeated with the same allow list. */
  lemma LoopsIdempotent(entries: map<string, seq<Entry>>, validators: map<Address, Validator>,
                                           infos: map<Address, SigningInfo>, allowed: seq<Address>)
    ensures ResetStore(ResetStore(entries)) == ResetStore(entries)
    ensures ReopenedStore(ReopenedStore(validators, allowed), allowed) == ReopenedStore(validators, allowed)
    ensures RestartedInfos(RestartedInfos(infos)) == RestartedInfos(infos)
  {
    forall k | k in entries
      ensures ResetStore(ResetStore(entries))[k] == ResetStore(entries)[k]
    {
      assert Reset(Reset(entries[k])) == Reset(entries[k]);
    }
  }

  // ---------- the keepers' stores ----------

  function OutstandingOf(outstanding: map<Address, DecCoins>, d: Denom): Address -> int {
    a => if a in outstanding then AmountOf(outstanding[a], d) else 0
  }

  /** Where the tokens are: in accounts, in the community pool, or owed to a validator's delegators. */
  datatype Books = Books(accounts: DecCoins, communityPool: DecCoins, outstanding: map<Address, DecCoins>)

  /** Everything together, in one denomination. */
  ghost function Total(b: Books, d: Denom): int {
    AmountOf(b.accounts, d) + AmountOf(b.communityPool, d) + SumOver(b.outstanding.Keys, OutstandingOf(b.outstanding, d))
  }

  /** A withdrawal from a validator's outstanding rewards; a failed one changes nothing. */
  function Withdrawn(b: Books, a: Address, w: Withdrawal): Books {
    if a in b.outstanding && Covered(w, b.outstanding[a]) then
      Books(Add(b.accounts, w.coins), Add(b.communityPool, w.remainder),
            b.outstanding[a := Minus(b.outstanding[a], Add(w.coins, w.remainder))])
    else b
  }

  /** What is still outstanding for a validator is donated to the community pool. */
  function Donated(b: Books, a: Address): Books {
    b.(communityPool := Add(b.communityPool, if a in b.outstanding then b.outstanding[a] else map[]),
       outstanding := b.outstanding[a := map[]])
  }

  /** One withdrawal per validator or delegation, in order. */
  function AllWithdrawn(b: Books, from: seq<Address>, ws: seq<Withdrawal>): Books {
    if from == [] then b
    else
      var n := |from| - 1;
      Withdrawn(AllWithdrawn(b, from[..n], ws), from[n], if n < |ws| then ws[n] else Failed)
  }

  function AllDonated(b: Books, order: seq<Address>): Books {
    if order == [] then b else Donated(AllDonated(b, order[..|order| - 1]), order[|order| - 1])
  }

  function ValidatorsOf(delegations: seq<Delegation>): seq<Address> {
    seq(|delegations|, i requires 0 <= i < |delegations| => delegations[i].validator)
  }

  /** Commissions, then delegation rewards, then the donations. */
  function Prepared(b: Books, order: seq<Address>, delegations: seq<Delegation>,
                    commissions: seq<Withdrawal>, rewards: seq<Withdrawal>): Books {
    AllDonated(AllWithdrawn(AllWithdrawn(b, order, commissions), ValidatorsOf(delegations), rewards), order)
  }

  // ---------- no token is lost ----------

  /** No account and no pool loses anything, and nothing is created or destroyed. */
  ghost predicate Fair(b: Books, after: Books) {
    && (forall d :: Total(after, d) == Total(b, d))
    && (forall d :: AmountOf(after.accounts, d) >= AmountOf(b.accounts, d))
    && (NonNegative(b.outstanding) ==>
          && NonNegative(after.outstanding)
          && forall d :: AmountOf(after.communityPool, d) >= AmountOf(b.communityPool, d))
  }

  lemma OutstandingChanged(outstanding: map<Address, DecCoins>, a: Address, c: DecCoins, d: Denom)
    ensures var after := outstanding[a := c];
            SumOver(after.Keys, OutstandingOf(after, d)) ==
            SumOver(outstanding.Keys, OutstandingOf(outstanding, d)) + AmountOf(c, d) - OutstandingOf(outstanding, d)(a)
  {
    var after := outstanding[a := c];
    Change(outstanding.Keys, OutstandingOf(outstanding, d), OutstandingOf(after, d), a);
    assert after.Keys == outstanding.Keys + {a};
  }

  lemma WithdrawnFair(b: Books, a: Address, w: Withdrawal)
    ensures Fair(b, Withdrawn(b, a, w)) && Withdrawn(b, a, w).outstanding.Keys == b.outstanding.Keys
  {
    if a in b.outstanding && Covered(w, b.outstanding[a]) {
      var left := Minus(b.outstanding[a], Add(w.coins, w.remainder));
      assert b.outstanding[a := left].Keys == b.outstanding.Keys;
      forall d
        ensures Total(Withdrawn(b, a, w), d) == Total(b, d)
      {
        OutstandingChanged(b.outstanding, a, left, d);
      }
    }
  }

  lemma DonatedFair(b: Books, a: Address)
    ensures Fair(b, Donated(b, a)) && Donated(b, a).outstanding.Keys == b.outstanding.Keys + {a}
  {
    forall d
      ensures Total(Donated(b, a), d) == Total(b, d)
    {
      OutstandingChanged(b.outstanding, a, map[], d);
    }
  }

  lemma {:induction false} FairTransitive(a: Books, b: Books, c: Books)
    requires Fair(a, b) && Fair(b, c)
    ensures Fair(a, c)
  {
    hide Total, AmountOf;
  }

  lemma {:induction false} AllWithdrawnFair(b: Books, from: seq<Address>, ws: seq<Withdrawal>)
    ensures Fair(b, AllWithdrawn(b, from, ws)) && AllWithdrawn(b, from, ws).outstanding.Keys == b.outstanding.Keys
  {
    if from != [] {
      hide Fair, Withdrawn;
      var n := |from| - 1;
      var before := AllWithdrawn(b, from[..n], ws);
      AllWithdrawnFair(b, from[..n], ws);
      WithdrawnFair(before, from[n], if n < |ws| then ws[n] else Failed);
      FairTransitive(b, before, AllWithdrawn(b, from, ws));
    }
  }

  lemma {:induction false} AllDonatedFair(b: Books, order: seq<Address>)
    ensures Fair(b, AllDonated(b, order))
    ensures AllDonated(b, order).outstanding.Keys == b.outstanding.Keys + set a | a in order
    ensures forall a :: a in order ==> AllDonated(b, order).outstanding[a] == map[]
  {
    if order != [] {
      hide Fair;
      var n := |order| - 1;
      var before := AllDonated(b, order[..n]);
      AllDonatedFair(b, order[..n]);
      DonatedFair(before, order[n]);
      FairTransitive(b, before, AllDonated(b, order));
      assert order == order[..n] + [order[n]];
    }
  }

  lemma {:induction false} SumZero(keys: set<Address>, f: Address -> int)
    requires forall a :: a in keys ==> f(a) == 0
    ensures SumOver(keys, f) == 0
  {
    if keys != {} {
      var a :| a in keys;
      Split(keys, f, a);
      SumZero(keys - {a}, f);
    }
  }

  /** Whichever withdrawals fail, the tokens in accounts, community pool and outstanding rewards
      together stay the same in every denomination; accounts and pool lose nothing; all
      outstanding rewards of the validators end at zero, so that, when only validators had any,
      everything is in accounts and community pool. */
  lemma {:induction false} PreparedConserves(b: Books, order: seq<Address>, delegations: seq<Delegation>,
                                             commissions: seq<Withdrawal>, rewards: seq<Withdrawal>)
    ensures var after := Prepared(b, order, delegations, commissions, rewards);
            && Fair(b, after)
            && (forall a :: a in order ==> a in after.outstanding && after.outstanding[a] == map[])
            && ((forall a :: a in b.outstanding ==> a in order) ==>
                  forall d :: AmountOf(after.accounts, d) + AmountOf(after.communityPool, d) == Total(b, d))
  {
    hide AllWithdrawn, AllDonated;
    var b1 := AllWithdrawn(b, order, commissions);
    var b2 := AllWithdrawn(b1, ValidatorsOf(delegations), rewards);
    var after := AllDonated(b2, order);
    AllWithdrawnFair(b, order, commissions);
    AllWithdrawnFair(b1, ValidatorsOf(delegations), rewards);
    AllDonatedFair(b2, order);
    FairTransitive(b, b1, b2);
    FairTransitive(b, b2, after);
    if forall a :: a in b.outstanding ==> a in order {
      forall d
        ensures SumOver(after.outstanding.Keys, OutstandingOf(after.outstanding, d)) == 0
      {
        SumZero(after.outstanding.Keys, OutstandingOf(after.outstanding, d));
      }
    }
  }

  // ---------- what is paid out ----------

  /** A withdrawal that the outstanding rewards cover in every denomination it names is booked with its
      coins and its remainder; any other one changes nothing. */
  lemma WithdrawnExact(b: Books, a: Address, w: Withdrawal)
    ensures var after := Withdrawn(b, a, w);
            if a in b.outstanding && w.Paid?
               && (forall d :: d in w.coins || d in w.remainder ==>
                     AmountOf(w.coins, d) >= 0 && AmountOf(w.remainder, d) >= 0
                     && AmountOf(w.coins, d) + AmountOf(w.remainder, d) <= AmountOf(b.outstanding[a], d))
            then
              && after.outstanding.Keys == b.outstanding.Keys
              && (forall d :: AmountOf(after.accounts, d) == AmountOf(b.accounts, d) + AmountOf(w.coins, d))
              && (forall d :: AmountOf(after.communityPool, d) == AmountOf(b.communityPool, d) + AmountOf(w.remainder, d))
              && (forall d :: AmountOf(after.outstanding[a], d) ==
                              AmountOf(b.outstanding[a], d) - AmountOf(w.coins, d) - AmountOf(w.remainder, d))
              && (forall v :: v in b.outstanding && v != a ==> after.outstanding[v] == b.outstanding[v])
            else after == b
  {
  }

  /** What is claimed from one validator's outstanding rewards by a list of withdrawals. */
  ghost function Claimed(from: seq<Address>, ws: seq<Withdrawal>, a: Address, d: Denom): int
    requires |from| == |ws|
  {
    if from == [] then 0
    else
      var n := |from| - 1;
      Claimed(from[..n], ws[..n], a, d)
      + if from[n] == a && ws[n].Paid? then AmountOf(ws[n].coins, d) + AmountOf(ws[n].remainder, d) else 0
  }

  /** The coins that a list of withdrawals pays to accounts when all of them succeed. */
  ghost function CoinsOf(ws: seq<Withdrawal>, d: Denom): int {
    if ws == [] then 0
    else
      var w := ws[|ws| - 1];
      CoinsOf(ws[..|ws| - 1], d) + if w.Paid? then AmountOf(w.coins, d) else 0
  }

  ghost predicate ClaimsPositive(ws: seq<Withdrawal>) {
    forall i, d :: 0 <= i < |ws| && ws[i].Paid? ==> AmountOf(ws[i].coins, d) >= 0 && AmountOf(ws[i].remainder, d) >= 0
  }

  /** What all withdrawals together claim is outstanding. */
  ghost predicate AllCovered(b: Books, from: seq<Address>, ws: seq<Withdrawal>)
    requires |from| == |ws|
  {
    && ClaimsPositive(ws)
    && (forall i :: 0 <= i < |from| ==> from[i] in b.outstanding)
    && forall a, d :: a in b.outstanding ==> Claimed(from, ws, a, d) <= AmountOf(b.outstanding[a], d)
  }

  lemma CoveredBefore(b: Books, from: seq<Address>, ws: seq<Withdrawal>)
    requires |from| == |ws| && from != [] && AllCovered(b, from, ws)
    ensures AllCovered(b, from[..|from| - 1], ws[..|ws| - 1])
  {
    var n := |from| - 1;
    forall a, d | a in b.outstanding
      ensures Claimed(from[..n], ws[..n], a, d) <= AmountOf(b.outstanding[a], d)
    {
      assert Claimed(from, ws, a, d) <= AmountOf(b.outstanding[a], d);
    }
  }

  /** When the outstanding rewards cover everything that is claimed, every withdrawal is paid: accounts
      gain exactly the coins, and exactly what was claimed is no longer outstanding. */
  lemma {:induction false} AllPaidOut(b: Books, from: seq<Address>, ws: seq<Withdrawal>)
    requires |from| == |ws| && AllCovered(b, from, ws)
    ensures var after := AllWithdrawn(b, from, ws);
            && after.outstanding.Keys == b.outstanding.Keys
            && (forall d :: AmountOf(after.accounts, d) == AmountOf(b.accounts, d) + CoinsOf(ws, d))
            && forall a, d :: a in b.outstanding ==>
                 AmountOf(after.outstanding[a], d) == AmountOf(b.outstanding[a], d) - Claimed(from, ws, a, d)
  {
    hide AmountOf, Withdrawn;
    if from != [] {
      var n := |from| - 1;
      CoveredBefore(b, from, ws);
      AllPaidOut(b, from[..n], ws[..n]);
      WithdrawalsUsed(b, from[..n], ws[..n], ws);
      var before := AllWithdrawn(b, from[..n], ws[..n]);
      LastCovered(b, from, ws);
      WithdrawnExact(before, from[n], ws[n]);
    }
  }

  lemma {:induction false} LastCovered(b: Books, from: seq<Address>, ws: seq<Withdrawal>)
    requires |from| == |ws| && from != [] && AllCovered(b, from, ws)
    requires var before := AllWithdrawn(b, from[..|from| - 1], ws[..|ws| - 1]);
             && before.outstanding.Keys == b.outstanding.Keys
             && forall a, d :: a in b.outstanding ==>
                  AmountOf(before.outstanding[a], d) ==
                  AmountOf(b.outstanding[a], d) - Claimed(from[..|from| - 1], ws[..|ws| - 1], a, d)
    ensures var n := |from| - 1;
            var before := AllWithdrawn(b, from[..n], ws[..n]);
            && from[n] in before.outstanding
            && (ws[n].Paid? ==> forall d ::
                  AmountOf(ws[n].coins, d) >= 0 && AmountOf(ws[n].remainder, d) >= 0
                  && AmountOf(ws[n].coins, d) + AmountOf(ws[n].remainder, d) <= AmountOf(before.outstanding[from[n]], d))
  {
    hide AmountOf, AllWithdrawn;
    var n := |from| - 1;
    if ws[n].Paid? {
      forall d
        ensures AmountOf(ws[n].coins, d) >= 0 && AmountOf(ws[n].remainder, d) >= 0
        ensures AmountOf(ws[n].coins, d) + AmountOf(ws[n].remainder, d) <=
                AmountOf(AllWithdrawn(b, from[..n], ws[..n]).outstanding[from[n]], d)
      {
        assert Claimed(from, ws, from[n], d) <= AmountOf(b.outstanding[from[n]], d);
      }
    }
  }

  /** Only as many withdrawals are looked at as there are addresses. */
  lemma {:induction false} WithdrawalsUsed(b: Books, from: seq<Address>, some: seq<Withdrawal>, all: seq<Withdrawal>)
    requires |from| == |some| <= |all| && some == all[..|some|]
    ensures AllWithdrawn(b, from, some) == AllWithdrawn(b, from, all)
  {
    hide Withdrawn;
    if from != [] {
      var n := |from| - 1;
      WithdrawalsUsed(b, from[..n], some[..n], all);
      WithdrawalsUsed(b, from[..n], some[..n], some);
    }
  }

  lemma OneWithdrawn(b: Books, a: Address, w: Withdrawal)
    ensures AllWithdrawn(b, [a], [w]) == Withdrawn(b, a, w)
  {
    assert [a][..0] == [];
  }

  /** Withdrawals are made in the order of the list. */
  lemma {:induction false} WithdrawnInTwo(b: Books, x: seq<Address>, y: seq<Address>,
                                          xs: seq<Withdrawal>, ys: seq<Withdrawal>)
    requires |x| == |xs| && |y| == |ys|
    ensures AllWithdrawn(AllWithdrawn(b, x, xs), y, ys) == AllWithdrawn(b, x + y, xs + ys)
  {
    hide Withdrawn;
    if y == [] {
      assert x + y == x && xs + ys == xs;
    } else {
      var n := |y| - 1;
      WithdrawnInTwo(b, x, y[..n], xs, ys[..n]);
      assert (x + y)[..|x + y| - 1] == x + y[..n];
      WithdrawalsUsed(AllWithdrawn(b, x, xs), y[..n], ys[..n], ys);
      WithdrawalsUsed(b, x + y[..n], xs + ys[..n], xs + ys);
    }
  }

  lemma {:induction false} DonationsSpareAccounts(b: Books, order: seq<Address>)
    ensures AllDonated(b, order).accounts == b.accounts
  {
    if order != [] {
      DonationsSpareAccounts(b, order[..|order| - 1]);
    }
  }

  /** The whole preparation, when only validators of the iteration have outstanding rewards and these
      cover every commission and every reward that is claimed from the delegations' validators: accounts gain exactly the claimed coins, and the
      community pool gets everything else there is. */
  lemma {:induction false} PreparedPaysOut(b: Books, order: seq<Address>, delegations: seq<Delegation>, owners: seq<Address>,
                                           commissions: seq<Withdrawal>, rewards: seq<Withdrawal>)
    requires |commissions| == |order| && |rewards| == |delegations| == |owners|
    requires forall i :: 0 <= i < |delegations| ==> owners[i] == delegations[i].validator
    requires forall a :: a in b.outstanding ==> a in order
    requires AllCovered(b, order + owners, commissions + rewards)
    ensures var after := Prepared(b, order, delegations, commissions, rewards);
            && (forall d :: AmountOf(after.accounts, d) == AmountOf(b.accounts, d) + CoinsOf(commissions + rewards, d))
            && forall d :: AmountOf(after.communityPool, d) == Total(b, d) - AmountOf(after.accounts, d)
  {
    assert owners == ValidatorsOf(delegations);
    var from, ws := order + owners, commissions + rewards;
    PreparedConserves(b, order, delegations, commissions, rewards);
    WithdrawnInTwo(b, order, owners, commissions, rewards);
    AllPaidOut(b, from, ws);
    DonationsSpareAccounts(AllWithdrawn(b, from, ws), order);
    hide AllWithdrawn, AllDonated, AllCovered, Total, AmountOf;
  }

  class App {
    /** What all accounts hold together. */
    var accounts: DecCoins
    var communityPool: DecCoins
    var outstanding: map<Address, DecCoins>
    var slashEvents: set<(Address, int)>
    var historicalRewards: set<Address>
    /** The height at which each delegation's rewards start to count. */
    var startingHeights: map<Delegation, int>

    var validators: map<Address, Validator>
    var delegations: seq<Delegation>
    var redelegations: map<string, seq<Entry>>
    var unbondings: map<string, seq<Entry>>
    var signingInfos: map<Address, SigningInfo>
    /** The block height of the context. */
    var height: int

    function Holdings(): Books
      reads this`accounts, this`communityPool, this`outstanding
    {
      Books(accounts, communityPool, outstanding)
    }

    /** The keepers' `WithdrawValidatorCommission` and `WithdrawDelegationRewards`. */
    method Withdraw(a: Address, w: Withdrawal)
      modifies this`accounts, this`communityPool, this`outstanding
      ensures Holdings() == Withdrawn(old(Holdings()), a, w)
      ensures a in old(outstanding) && Covered(w, old(outstanding)[a]) ==>
                && outstanding.Keys == old(outstanding).Keys
                && (forall d :: AmountOf(accounts, d) == AmountOf(old(accounts), d) + AmountOf(w.coins, d))
                && (forall d :: AmountOf(communityPool, d) == AmountOf(old(communityPool), d) + AmountOf(w.remainder, d))
                && forall d :: AmountOf(outstanding[a], d) ==
                               AmountOf(old(outstanding)[a], d) - AmountOf(w.coins, d) - AmountOf(w.remainder, d)
      ensures !(a in old(outstanding) && Covered(w, old(outstanding)[a])) ==> Holdings() == old(Holdings())
    {
      if a in outstanding && Covered(w, outstanding[a]) {
        accounts := Add(accounts, w.coins);
        communityPool := Add(communityPool, w.remainder);
        outstanding := outstanding[a := Minus(outstanding[a], Add(w.coins, w.remainder))];
      }
    }

    /** The donation of one validator's outstanding rewards and the keeper's
        `AfterValidatorCreated` hook, which starts them again from nothing. */
    method ReinitValidator(a: Address)
      modifies this`communityPool, this`outstanding, this`historicalRewards
      ensures Holdings() == Donated(old(Holdings()), a)
      ensures outstanding == old(outstanding)[a := map[]]
      ensures forall d :: AmountOf(communityPool, d) ==
                          AmountOf(old(communityPool), d) + if a in old(outstanding) then AmountOf(old(outstanding)[a], d) else 0
      ensures historicalRewards == old(historicalRewards) + {a}
    {
      var rewards := if a in outstanding then outstanding[a] else map[];
      communityPool := Add(communityPool, rewards);
      outstanding := outstanding[a := map[]];
      historicalRewards := historicalRewards + {a};
    }

    /** The keeper's `BeforeDelegationCreated` and `AfterDelegationModified` hooks record the
        context's height; no coins move, because the validator's current rewards are empty. */
    method ReinitDelegation(del: Delegation)
      modifies this`startingHeights, this`historicalRewards
      ensures startingHeights == old(startingHeights)[del := height]
      ensures historicalRewards == old(historicalRewards) + {del.validator}
    {
      historicalRewards := historicalRewards + {del.validator};
      startingHeights := startingHeights[del := height];
    }

    // ---------- prepForZeroHeightGenesis ----------

    method WithdrawAll(order: seq<Address>, commissions: seq<Withdrawal>, rewards: seq<Withdrawal>)
      modifies this`accounts, this`communityPool, this`outstanding
      ensures Holdings() == AllWithdrawn(AllWithdrawn(old(Holdings()), order, commissions), ValidatorsOf(delegations), rewards)
    {
      hide Withdrawn;
      ghost var start := Holdings();
      for i := 0 to |order|
        invariant Holdings() == AllWithdrawn(start, order[..i], commissions)
      {
        assert order[..i + 1][..i] == order[..i];
        Withdraw(order[i], if i < |commissions| then commissions[i] else Failed);
      }
      assert order[..|order|] == order;
      ghost var middle := Holdings();
      ghost var from := ValidatorsOf(delegations);
      for i := 0 to |delegations|
        invariant Holdings() == AllWithdrawn(middle, from[..i], rewards)
      {
        assert from[..i + 1][..i] == from[..i];
        Withdraw(delegations[i].validator, if i < |rewards| then rewards[i] else Failed);
      }
      assert from[..|from|] == from;
    }

    method ReinitValidators(order: seq<Address>)
      modifies this`communityPool, this`outstanding, this`historicalRewards
      ensures Holdings() == AllDonated(old(Holdings()), order)
      ensures historicalRewards == old(historicalRewards) + set a | a in order
    {
      hide Donated;
      ghost var start := Holdings();
      for i := 0 to |order|
        invariant Holdings() == AllDonated(start, order[..i])
        invariant historicalRewards == old(historicalRewards) + set a | a in order[..i]
      {
        assert order[..i + 1] == order[..i] + [order[i]] && order[..i + 1][..i] == order[..i];
        ReinitValidator(order[i]);
      }
      assert order[..|order|] == order;
    }

    method ReinitDelegations()
      modifies this`historicalRewards, this`startingHeights
      ensures historicalRewards == old(historicalRewards) + set del | del in delegations :: del.validator
      ensures startingHeights.Keys == old(startingHeights).Keys + set del | del in delegations
      ensures forall del :: del in startingHeights ==>
                startingHeights[del] == if del in delegations then height else old(startingHeights)[del]
    {
      for i := 0 to |delegations|
        invariant historicalRewards == old(historicalRewards) + set del | del in delegations[..i] :: del.validator
        invariant startingHeights.Keys == old(startingHeights).Keys + set del | del in delegations[..i]
        invariant forall del :: del in startingHeights ==>
                    startingHeights[del] == if del in delegations[..i] then height else old(startingHeights)[del]
      {
        assert delegations[..i + 1] == delegations[..i] + [delegations[i]];
        ReinitDelegation(delegations[i]);
      }
      assert delegations[..|delegations|] == delegations;
    }

    method ResetRedelegations()
      modifies this`redelegations
      ensures redelegations == ResetStore(old(redelegations))
      ensures redelegations.Keys == old(redelegations).Keys
      ensures forall k :: k in redelegations ==>
                && |redelegations[k]| == |old(redelegations)[k]|
                && forall i :: 0 <= i < |redelegations[k]| ==>
                     redelegations[k][i].creationHeight == 0 && redelegations[k][i].rest == old(redelegations)[k][i].rest
    {
      var rest := redelegations.Keys;
      while rest != {}
        invariant redelegations.Keys == old(redelegations).Keys && rest <= redelegations.Keys
        invariant forall k :: k in redelegations ==>
                    redelegations[k] == if k in rest then old(redelegations)[k] else Reset(old(redelegations)[k])
        decreases rest
      {
        var k :| k in rest;
        rest := rest - {k};
        var entries := Decode(redelegations[k]);
        ZeroCreationHeights(entries);
        redelegations := redelegations[k := entries[..]];
      }
    }

    method ResetUnbondings()
      modifies this`unbondings
      ensures unbondings == ResetStore(old(unbondings))
      ensures unbondings.Keys == old(unbondings).Keys
      ensures forall k :: k in unbondings ==>
                && |unbondings[k]| == |old(unbondings)[k]|
                && forall i :: 0 <= i < |unbondings[k]| ==>
                     unbondings[k][i].creationHeight == 0 && unbondings[k][i].rest == old(unbondings)[k][i].rest
    {
      var rest := unbondings.Keys;
      while rest != {}
        invariant unbondings.Keys == old(unbondings).Keys && rest <= unbondings.Keys
        invariant forall k :: k in unbondings ==>
                    unbondings[k] == if k in rest then old(unbondings)[k] else Reset(old(unbondings)[k])
        decreases rest
      {
        var k :| k in rest;
        rest := rest - {k};
        var entries := Decode(unbondings[k]);
        ZeroCreationHeights(entries);
        unbondings := unbondings[k := entries[..]];
      }
    }

    method ReopenValidators(allowed: seq<Address>)
      modifies this`validators
      ensures validators == ReopenedStore(old(validators), allowed)
      ensures validators.Keys == old(validators).Keys
      ensures forall a :: a in validators ==>
                && validators[a].unbondingHeight == 0
                && (validators[a].jailed <==> old(validators)[a].jailed || (allowed != [] && a !in allowed))
                && validators[a].rest == old(validators)[a].rest
    {
      var applyAllowed := |allowed| > 0;
      var allowedSet := set a | a in allowed;
      var rest := validators.Keys;
      while rest != {}
        invariant validators.Keys == old(validators).Keys && rest <= validators.Keys
        invariant forall a :: a in validators ==>
                    validators[a] == if a in rest then old(validators)[a] else Reopened(old(validators)[a], a, allowed)
        decreases rest
      {
        var a :| a in rest;
        rest := rest - {a};
        var validator := validators[a].(unbondingHeight := 0);
        if applyAllowed && a !in allowedSet {
          validator := validator.(jailed := true);
        }
        validators := validators[a := validator];
      }
    }

    method RestartSigningInfos()
      modifies this`signingInfos
      ensures signingInfos == RestartedInfos(old(signingInfos))
      ensures signingInfos.Keys == old(signingInfos).Keys
      ensures forall a :: a in signingInfos ==>
                signingInfos[a].startHeight == 0 && signingInfos[a].rest == old(signingInfos)[a].rest
    {
      var rest := signingInfos.Keys;
      while rest != {}
        invariant signingInfos.Keys == old(signingInfos).Keys && rest <= signingInfos.Keys
        invariant forall a :: a in signingInfos ==>
                    signingInfos[a] == if a in rest then old(signingInfos)[a] else old(signingInfos)[a].(startHeight := 0)
        decreases rest
      {
        var a :| a in rest;
        rest := rest - {a};
        signingInfos := signingInfos[a := signingInfos[a].(startHeight := 0)];
      }
    }

    /** Fee distribution state. */
    method PrepDistribution(order: seq<Address>, commissions: seq<Withdrawal>, rewards: seq<Withdrawal>)
      modifies this`accounts, this`communityPool, this`outstanding
      modifies this`slashEvents, this`historicalRewards, this`startingHeights, this`height
      ensures Holdings() == Prepared(old(Holdings()), order, delegations, commissions, rewards)
      ensures slashEvents == {} && height == old(height)
      ensures historicalRewards == (set a | a in order) + (set del | del in delegations :: del.validator)
      ensures forall del :: del in delegations ==> del in startingHeights && startingHeights[del] == 0
    {
      hide AllWithdrawn, AllDonated;
      WithdrawAll(order, commissions, rewards);
      slashEvents := {};
      historicalRewards := {};
      var saved := height;
      height := 0;
      ReinitValidators(order);
      ReinitDelegations();
      height := saved;
    }

    /** Staking and slashing state. When the iterator over the validators fails to close, the
        preparation ends there and the signing infos are not reached. */
    method PrepStakingAndSlashing(allowed: seq<Address>, closes: bool)
      modifies this`redelegations, this`unbondings, this`validators, this`signingInfos
      ensures redelegations.Keys == old(redelegations).Keys
      ensures forall k :: k in redelegations ==>
                && |redelegations[k]| == |old(redelegations)[k]|
                && forall i :: 0 <= i < |redelegations[k]| ==>
                     redelegations[k][i].creationHeight == 0 && redelegations[k][i].rest == old(redelegations)[k][i].rest
      ensures unbondings.Keys == old(unbondings).Keys
      ensures forall k :: k in unbondings ==>
                && |unbondings[k]| == |old(unbondings)[k]|
                && forall i :: 0 <= i < |unbondings[k]| ==>
                     unbondings[k][i].creationHeight == 0 && unbondings[k][i].rest == old(unbondings)[k][i].rest
      ensures validators.Keys == old(validators).Keys
      ensures forall a :: a in validators ==>
                && validators[a].unbondingHeight == 0
                && (validators[a].jailed <==> old(validators)[a].jailed || (allowed != [] && a !in allowed))
                && validators[a].rest == old(validators)[a].rest
      ensures signingInfos.Keys == old(signingInfos).Keys
      ensures forall a :: a in signingInfos ==>
                && signingInfos[a].startHeight == (if closes then 0 else old(signingInfos)[a].startHeight)
                && signingInfos[a].rest == old(signingInfos)[a].rest
    {
      hide ResetStore, ReopenedStore, RestartedInfos;
      ResetRedelegations();
      ResetUnbondings();
      ReopenValidators(allowed);
      if !closes {
        return;
      }
      RestartSigningInfos();
    }

    /** `prepForZeroHeightGenesis`, for any outcome of every withdrawal; `order` is the order in
        which the staking keeper iterates over its validators, and `closes` whether its iterator closes
        without an error. An allow list with an address that
        does not decode stops it before anything changes. */
    method PrepForZeroHeight(allowed: seq<Address>, decodes: Address -> bool, order: seq<Address>,
                             commissions: seq<Withdrawal>, rewards: seq<Withdrawal>, closes: bool) returns (ok: bool)
      requires (set a | a in order) == validators.Keys
      modifies this
      ensures ok <==> forall a :: a in allowed ==> decodes(a)
      ensures !ok ==> unchanged(this)
      ensures ok ==>
                && Holdings() == Prepared(old(Holdings()), order, old(delegations), commissions, rewards)
                && Fair(old(Holdings()), Holdings())
                && forall a :: a in validators ==> a in outstanding && outstanding[a] == map[]
      ensures ok ==> delegations == old(delegations) && height == old(height) && slashEvents == {}
      ensures ok ==> historicalRewards == (set a | a in order) + (set del | del in delegations :: del.validator)
      ensures ok ==> forall del :: del in delegations ==> del in startingHeights && startingHeights[del] == 0
      ensures ok ==> redelegations.Keys == old(redelegations).Keys
      ensures ok ==> forall k :: k in redelegations ==>
                && |redelegations[k]| == |old(redelegations)[k]|
                && forall i :: 0 <= i < |redelegations[k]| ==>
                     redelegations[k][i].creationHeight == 0 && redelegations[k][i].rest == old(redelegations)[k][i].rest
      ensures ok ==> unbondings.Keys == old(unbondings).Keys
      ensures ok ==> forall k :: k in unbondings ==>
                && |unbondings[k]| == |old(unbondings)[k]|
                && forall i :: 0 <= i < |unbondings[k]| ==>
                     unbondings[k][i].creationHeight == 0 && unbondings[k][i].rest == old(unbondings)[k][i].rest
      ensures ok ==> validators.Keys == old(validators).Keys
      ensures ok ==> forall a :: a in validators ==>
                && validators[a].unbondingHeight == 0
                && (validators[a].jailed <==> old(validators)[a].jailed || (allowed != [] && a !in allowed))
                && validators[a].rest == old(validators)[a].rest
      ensures ok ==> signingInfos.Keys == old(signingInfos).Keys
      ensures ok ==> forall a :: a in signingInfos ==>
                && signingInfos[a].startHeight == (if closes then 0 else old(signingInfos)[a].startHeight)
                && signingInfos[a].rest == old(signingInfos)[a].rest
    {
      hide Prepared, Fair, AmountOf;
      for i := 0 to |allowed|
        invariant forall k :: 0 <= k < i ==> decodes(allowed[k])
      {
        if !decodes(allowed[i]) {
          return false;
        }
      }
      PreparedConserves(Holdings(), order, delegations, commissions, rewards);
      PrepDistribution(order, commissions, rewards);
      PrepStakingAndSlashing(allowed, closes);
      return true;
    }
  }

  /** A stored record's entries, as the slice the loops write to. */
  method Decode(stored: seq<Entry>) returns (entries: array<Entry>)
    ensures fresh(entries) && entries[..] == stored
  {
    entries := new Entry[|stored|](i requires 0 <= i < |stored| => stored[i]);
  }

  /** The inner loop of both resets. */
  method ZeroCreationHeights(entries: array<Entry>)
    modifies entries
    ensures entries[..] == Reset(old(entries[..]))
    ensures forall i :: 0 <= i < entries.Length ==>
              entries[i].creationHeight == 0 && entries[i].rest == old(entries[i]).rest
  {
    for i := 0 to entries.Length
      invariant forall k :: 0 <= k < entries.Length ==>
                  entries[k] == if k < i then old(entries[k]).(creationHeight := 0) else old(entries[k])
    {
      entries[i] := entries[i].(creationHeight := 0);
    }
  }
}
