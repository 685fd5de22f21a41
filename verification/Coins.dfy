/** Amounts of several denominations, as the Cosmos SDK's coin types hold them. */
module Coins {
  type Denom = string

  /** Absent denominations count as zero. */
  type Coins = map<Denom, int>

  function AmountOf(c: Coins, d: Denom): int {
    if d in c then c[d] else 0
  }

  function Add(a: Coins, b: Coins): (r: Coins)
    ensures forall d :: AmountOf(r, d) == AmountOf(a, d) + AmountOf(b, d)
  {
    map d | d in a.Keys + b.Keys :: AmountOf(a, d) + AmountOf(b, d)
  }

  function Minus(a: Coins, b: Coins): (r: Coins)
    ensures forall d :: AmountOf(r, d) == AmountOf(a, d) - AmountOf(b, d)
  {
    map d | d in a.Keys + b.Keys :: AmountOf(a, d) - AmountOf(b, d)
  }
}
