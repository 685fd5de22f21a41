/** The chain as the bot sees it: one denomination, balances by account. */
module Ledgers {
  import opened Sums

  /** The module account that fees go to. It has an address of the usual form, but the chain blocks
      transfers to it (app/app_config.go:88-97), so no accepted transfer has it as recipient. */
  datatype Account = User(address: string) | FeeCollector

  /** Accounts that are absent hold nothing. */
  type Ledger = map<Account, int>

  function Balance(l: Ledger, a: Account): int {
    if a in l then l[a] else 0
  }

  function Credit(l: Ledger, a: Account, amount: int): (r: Ledger)
    ensures r.Keys == l.Keys + {a}
    ensures forall b :: Balance(r, b) == Balance(l, b) + if b == a then amount else 0
  {
    l[a := Balance(l, a) + amount]
  }

  /** What an accepted MsgSend does on chain; the chain's own funds check is not relied on. */
  function Transfer(l: Ledger, from: string, to: string, amount: nat, fee: nat): (r: Ledger) {
    Credit(Credit(Credit(l, User(from), -(amount + fee)), User(to), amount), FeeCollector, fee)
  }

  ghost predicate Solvent(l: Ledger) {
    forall a :: a in l ==> l[a] >= 0
  }

  function Balances(l: Ledger): Account -> int {
    a => Balance(l, a)
  }

  ghost function Total(l: Ledger): int {
    SumOver(l.Keys, Balances(l))
  }

  lemma CreditTotal(l: Ledger, a: Account, amount: int)
    ensures Total(Credit(l, a, amount)) == Total(l) + amount
  {
    var r := Credit(l, a, amount);
    Change(l.Keys, Balances(l), Balances(r), a);
  }

  lemma {:induction false} TransferTotal(l: Ledger, from: string, to: string, amount: nat, fee: nat)
    ensures Total(Transfer(l, from, to, amount, fee)) == Total(l)
  {
    hide Total, Credit;
    var l1 := Credit(l, User(from), -(amount + fee));
    var l2 := Credit(l1, User(to), amount);
    CreditTotal(l, User(from), -(amount + fee));
    CreditTotal(l1, User(to), amount);
    CreditTotal(l2, FeeCollector, fee);
  }

  lemma {:induction false} TransferSolvent(l: Ledger, from: string, to: string, amount: nat, fee: nat)
    requires Solvent(l) && Balance(l, User(from)) >= amount + fee
    ensures Solvent(Transfer(l, from, to, amount, fee))
  {
    hide Credit;
    var r := Transfer(l, from, to, amount, fee);
    forall a | a in r
      ensures r[a] >= 0
    {
      assert Balance(r, a) == r[a];
      assert Balance(l, a) >= 0;
    }
  }

  /** A transfer that passed the funds guard keeps the total supply and overdraws nobody; sender,
      recipient and fee collector change by the amounts named and all other balances are kept. */
  lemma {:induction false} TransferSafe(l: Ledger, from: string, to: string, amount: nat, fee: nat)
    requires Solvent(l) && Balance(l, User(from)) >= amount + fee
    ensures var r := Transfer(l, from, to, amount, fee);
            && Solvent(r)
            && Total(r) == Total(l)
            && (from != to ==> && Balance(r, User(from)) == Balance(l, User(from)) - amount - fee
                               && Balance(r, User(to)) == Balance(l, User(to)) + amount)
            && (from == to ==> Balance(r, User(from)) == Balance(l, User(from)) - fee)
            && Balance(r, FeeCollector) == Balance(l, FeeCollector) + fee
            && forall a :: a != User(from) && a != User(to) && a != FeeCollector ==>
                 Balance(r, a) == Balance(l, a)
  {
    TransferTotal(l, from, to, amount, fee);
    TransferSolvent(l, from, to, amount, fee);
    hide Solvent, Total, Balance, Credit;
  }
}
