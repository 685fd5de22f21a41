/** The transaction history: two pages of the node's index merged (telegram-bot/src/chain.ts). */
module History {
  import opened Wrappers
  import opened Text

  datatype Coin = Coin(denom: string, amount: string)

  /** A message of a transaction; absent JSON fields are `None`. */
  datatype Msg = Msg(kind: Option<string>, fromAddress: Option<string>, toAddress: Option<string>,
                     amount: Option<seq<Coin>>)

  /** An item of a page; looking through `None` for messages throws. */
  datatype Tx = Tx(hash: string, messages: Option<seq<Msg>>)

  datatype Direction = In | Out

  datatype Summary = Summary(hash: string, direction: Direction, amount: string, counterparty: string)

  // ---------- one transaction ----------

  /** `coins.find((c) => c.denom === denom)` */
  function FindCoin(coins: seq<Coin>, denom: string): Option<Coin> {
    if coins == [] then None
    else if coins[0].denom == denom then Some(coins[0])
    else FindCoin(coins[1..], denom)
  }

  lemma {:induction false} FindCoinExact(coins: seq<Coin>, denom: string)
    ensures FindCoin(coins, denom).Some? <==> exists coin :: coin in coins && coin.denom == denom
    ensures FindCoin(coins, denom).Some? ==>
              exists i :: 0 <= i < |coins| && coins[i] == FindCoin(coins, denom).value && coins[i].denom == denom
                          && forall k :: 0 <= k < i ==> coins[k].denom != denom
  {
    if coins != [] && coins[0].denom != denom {
      var rest := coins[1..];
      FindCoinExact(rest, denom);
      if FindCoin(rest, denom).Some? {
        var i :| 0 <= i < |rest| && rest[i] == FindCoin(rest, denom).value && rest[i].denom == denom
                 && forall k :: 0 <= k < i ==> rest[k].denom != denom;
        assert coins[i + 1] == rest[i];
        assert forall k :: 0 < k < i + 1 ==> coins[k] == rest[k - 1];
      }
    }
  }

  /** The transfer a single message makes, as the account `address` sees it. */
  function TransferOf(msg: Msg, address: string, denom: string): Option<Summary> {
    if msg.kind.None? || !Contains(msg.kind.value, "MsgSend") || msg.amount.None? then None
    else
      var coin := FindCoin(msg.amount.value, denom);
      if coin.None? || !Truthy(msg.fromAddress) || !Truthy(msg.toAddress) then None
      else if msg.fromAddress.value == address then
        Some(Summary("", Out, coin.value.amount, msg.toAddress.value))
      else if msg.toAddress.value == address then
        Some(Summary("", In, coin.value.amount, msg.fromAddress.value))
      else None
  }

  /** What a message shows, in its own terms. It is a transfer exactly when its type names MsgSend, it
      carries a coin of the denomination, both ends are given, and one of them is the account. It is
      outgoing exactly when the account is the sender; the counterparty is the other end and the amount
      that of the first such coin. */
  lemma {:induction false} TransferExact(msg: Msg, address: string, denom: string)
    ensures TransferOf(msg, address, denom).Some? <==>
              && msg.kind.Some? && (exists a, b :: msg.kind.value == a + "MsgSend" + b)
              && msg.amount.Some? && (exists coin :: coin in msg.amount.value && coin.denom == denom)
              && msg.fromAddress.Some? && msg.fromAddress.value != ""
              && msg.toAddress.Some? && msg.toAddress.value != ""
              && (msg.fromAddress.value == address || msg.toAddress.value == address)
    ensures TransferOf(msg, address, denom).Some? ==>
              var s := TransferOf(msg, address, denom).value;
              && s.hash == ""
              && (s.direction == Out <==> msg.fromAddress == Some(address))
              && (s.direction == In ==> msg.toAddress == Some(address))
              && Some(s.counterparty) == (if msg.fromAddress == Some(address) then msg.toAddress else msg.fromAddress)
              && exists i :: 0 <= i < |msg.amount.value| && msg.amount.value[i] == Coin(denom, s.amount)
                             && forall k :: 0 <= k < i ==> msg.amount.value[k].denom != denom
  {
    if msg.kind.Some? {
      ContainsIff(msg.kind.value, "MsgSend");
    }
    if msg.amount.Some? {
      FindCoinExact(msg.amount.value, denom);
    }
    hide Contains, FindCoin;
  }

  /** The first message that is a transfer of the account decides. */
  function ParseTransfer(messages: seq<Msg>, address: string, denom: string): (r: Option<Summary>)
    ensures r.None? <==> forall i :: 0 <= i < |messages| ==> TransferOf(messages[i], address, denom).None?
    ensures r.Some? ==>
              exists i :: 0 <= i < |messages| && TransferOf(messages[i], address, denom) == r
                          && forall k :: 0 <= k < i ==> TransferOf(messages[k], address, denom).None?
  {
    if messages == [] then None
    else
      var n := |messages| - 1;
      var before := ParseTransfer(messages[..n], address, denom);
      if before.Some? then before else TransferOf(messages[n], address, denom)
  }

  method ParseTransferFromTx(messages: seq<Msg>, address: string, denom: string) returns (r: Option<Summary>)
    ensures r == ParseTransfer(messages, address, denom)
  {
    for i := 0 to |messages|
      invariant ParseTransfer(messages[..i], address, denom).None?
    {
      var msg := messages[i];
      assert messages[..i + 1][..i] == messages[..i];
      if msg.kind.None? || !Contains(msg.kind.value, "MsgSend") {
        continue;
      }
      var coin := if msg.amount.Some? then FindCoin(msg.amount.value, denom) else None;
      if coin.None? || !Truthy(msg.fromAddress) || !Truthy(msg.toAddress) {
        continue;
      }
      if msg.fromAddress.value == address {
        FirstDecides(messages, i, address, denom);
        return Some(Summary("", Out, coin.value.amount, msg.toAddress.value));
      }
      if msg.toAddress.value == address {
        FirstDecides(messages, i, address, denom);
        return Some(Summary("", In, coin.value.amount, msg.fromAddress.value));
      }
    }
    assert messages[..|messages|] == messages;
    return None;
  }

  lemma {:induction false} FirstDecides(messages: seq<Msg>, i: nat, address: string, denom: string)
    requires i < |messages| && TransferOf(messages[i], address, denom).Some?
    requires forall k :: 0 <= k < i ==> TransferOf(messages[k], address, denom).None?
    ensures ParseTransfer(messages, address, denom) == TransferOf(messages[i], address, denom)
  {
    if i < |messages| - 1 {
      FirstDecides(messages[..|messages| - 1], i, address, denom);
    }
  }

  // ---------- the merge ----------

  /** A transaction's entry in the history, if it has one. */
  function EntryOf(tx: Tx, address: string, denom: string): Option<Summary> {
    if tx.messages.None? then None
    else match ParseTransfer(tx.messages.value, address, denom)
         case None => None
         case Some(s) => Some(s.(hash := tx.hash))
  }

  function Hashes(list: seq<Summary>): set<string> {
    set s | s in list :: s.hash
  }

  /** The entries of a list of transactions, the first one of each hash. */
  function Listed(txs: seq<Tx>, address: string, denom: string): seq<Summary> {
    if txs == [] then []
    else
      var n := |txs| - 1;
      var before := Listed(txs[..n], address, denom);
      var e := EntryOf(txs[n], address, denom);
      if e.None? || txs[n].hash in Hashes(before) then before else before + [e.value]
  }

  lemma {:induction false} ListedNext(txs: seq<Tx>, tx: Tx, address: string, denom: string)
    ensures var before := Listed(txs, address, denom);
            var e := EntryOf(tx, address, denom);
            var after := Listed(txs + [tx], address, denom);
            if e.None? || tx.hash in Hashes(before) then after == before
            else after == before + [e.value] && Hashes(after) == Hashes(before) + {tx.hash}
  {
    hide ParseTransfer;
    assert (txs + [tx])[..|txs|] == txs;
    var before, after := Listed(txs, address, denom), Listed(txs + [tx], address, denom);
    if after != before {
      assert after[|before|].hash == tx.hash && forall s :: s in before ==> s in after;
    }
  }

  /** An item that ends the reading of its page. */
  predicate Ends(earlier: seq<Tx>, tx: Tx, address: string, denom: string) {
    tx.messages.None? && tx.hash !in Hashes(Listed(earlier, address, denom))
  }

  /** The part of a page that is worked in after `earlier`: up to the first item that throws. An item
      whose hash is known already is passed over unread. */
  function Readable(earlier: seq<Tx>, txs: seq<Tx>, address: string, denom: string): seq<Tx>
    decreases |txs|
  {
    if txs == [] || Ends(earlier, txs[0], address, denom) then []
    else [txs[0]] + Readable(earlier + [txs[0]], txs[1..], address, denom)
  }

  /** A page whose items can all be read is worked in to the end. */
  lemma {:induction false} ReadableAll(earlier: seq<Tx>, txs: seq<Tx>, address: string, denom: string)
    requires forall i :: 0 <= i < |txs| ==> txs[i].messages.Some?
    ensures Readable(earlier, txs, address, denom) == txs
    decreases |txs|
  {
    if txs != [] {
      ReadableAll(earlier + [txs[0]], txs[1..], address, denom);
    }
  }

  /** In general it is worked in up to the first item that is malformed and not known already. */
  lemma {:induction false} ReadableExact(earlier: seq<Tx>, txs: seq<Tx>, address: string, denom: string) returns (k: nat)
    ensures k <= |txs| && Readable(earlier, txs, address, denom) == txs[..k]
    ensures k < |txs| ==> Ends(earlier + txs[..k], txs[k], address, denom)
    ensures forall i :: 0 <= i < k ==> !Ends(earlier + txs[..i], txs[i], address, denom)
    decreases |txs|
  {
    k := 0;
    if txs == [] {
    } else if Ends(earlier, txs[0], address, denom) {
      assert earlier + txs[..0] == earlier;
    } else {
      k := ReadableExact(earlier + [txs[0]], txs[1..], address, denom);
      ReadableOneMore(earlier, txs, k, address, denom);
      k := k + 1;
    }
  }

  lemma {:induction false} ReadableOneMore(earlier: seq<Tx>, txs: seq<Tx>, k: nat, address: string, denom: string)
    requires txs != [] && !Ends(earlier, txs[0], address, denom)
    requires var next, rest := earlier + [txs[0]], txs[1..];
             && k <= |rest| && (k < |rest| ==> Ends(next + rest[..k], rest[k], address, denom))
             && forall i :: 0 <= i < k ==> !Ends(next + rest[..i], rest[i], address, denom)
    ensures [txs[0]] + txs[1..][..k] == txs[..k + 1]
    ensures k + 1 < |txs| ==> Ends(earlier + txs[..k + 1], txs[k + 1], address, denom)
    ensures forall i :: 0 <= i < k + 1 ==> !Ends(earlier + txs[..i], txs[i], address, denom)
  {
    hide Ends;
    var next, rest := earlier + [txs[0]], txs[1..];
    assert next + rest[..k] == earlier + txs[..k + 1];
    forall i | 0 <= i < k + 1
      ensures !Ends(earlier + txs[..i], txs[i], address, denom)
    {
      if i == 0 {
        assert earlier + txs[..0] == earlier;
      } else {
        assert rest[i - 1] == txs[i] && next + rest[..i - 1] == earlier + txs[..i];
      }
    }
  }

  lemma {:induction false} ListedExtends(a: seq<Tx>, b: seq<Tx>, address: string, denom: string)
    ensures Listed(a, address, denom) <= Listed(a + b, address, denom)
  {
    if b == [] {
      assert a + b == a;
    } else {
      ListedExtends(a, b[..|b| - 1], address, denom);
      assert (a + b)[..|a + b| - 1] == a + b[..|b| - 1];
    }
  }

  /** `s` is the entry of the transaction at position `at`, the first of its hash that has one. */
  ghost predicate FirstWithEntry(txs: seq<Tx>, address: string, denom: string, at: nat, s: Summary) {
    && at < |txs| && EntryOf(txs[at], address, denom) == Some(s)
    && forall k :: 0 <= k < at && EntryOf(txs[k], address, denom).Some? ==> txs[k].hash != txs[at].hash
  }

  lemma EntryHash(tx: Tx, address: string, denom: string)
    ensures EntryOf(tx, address, denom).Some? ==> EntryOf(tx, address, denom).value.hash == tx.hash
  {
    hide ParseTransfer;
  }

  /** A transaction has an entry exactly when one of its messages is a transfer of the account; the entry
      is the first such message's, under the transaction's hash. */
  lemma {:induction false} EntryExact(tx: Tx, address: string, denom: string)
    ensures EntryOf(tx, address, denom).Some? <==>
              tx.messages.Some? && exists i :: 0 <= i < |tx.messages.value| && TransferOf(tx.messages.value[i], address, denom).Some?
    ensures EntryOf(tx, address, denom).Some? ==>
              exists i :: 0 <= i < |tx.messages.value|
                && TransferOf(tx.messages.value[i], address, denom) == Some(EntryOf(tx, address, denom).value.(hash := ""))
                && EntryOf(tx, address, denom).value.hash == tx.hash
                && forall k :: 0 <= k < i ==> TransferOf(tx.messages.value[k], address, denom).None?
  {
    if EntryOf(tx, address, denom).Some? {
      var r := ParseTransfer(tx.messages.value, address, denom);
      var i :| 0 <= i < |tx.messages.value| && TransferOf(tx.messages.value[i], address, denom) == r
               && forall k :: 0 <= k < i ==> TransferOf(tx.messages.value[k], address, denom).None?;
      TransferExact(tx.messages.value[i], address, denom);
    }
    hide ParseTransfer, TransferOf;
  }

  /** The message an entry comes from, and what the entry says about it. */
  lemma {:induction false} EntryTells(tx: Tx, address: string, denom: string) returns (m: Msg)
    requires EntryOf(tx, address, denom).Some?
    ensures tx.messages.Some? && m in tx.messages.value
    ensures m.kind.Some? && Contains(m.kind.value, "MsgSend")
    ensures var s := EntryOf(tx, address, denom).value;
            && s.hash == tx.hash
            && (s.direction == Out <==> m.fromAddress == Some(address))
            && (s.direction == In ==> m.toAddress == Some(address))
            && Some(s.counterparty) == (if m.fromAddress == Some(address) then m.toAddress else m.fromAddress)
            && m.amount.Some? && Coin(denom, s.amount) in m.amount.value
  {
    hide EntryOf, Contains, TransferOf;
    EntryExact(tx, address, denom);
    var i :| 0 <= i < |tx.messages.value|
             && TransferOf(tx.messages.value[i], address, denom) == Some(EntryOf(tx, address, denom).value.(hash := ""));
    m := tx.messages.value[i];
    TransferExact(m, address, denom);
    ContainsIff(m.kind.value, "MsgSend");
  }

  /** Every transaction that has an entry is represented. */
  lemma {:induction false} ListedComplete(txs: seq<Tx>, address: string, denom: string)
    ensures forall k :: 0 <= k < |txs| && EntryOf(txs[k], address, denom).Some? ==>
              txs[k].hash in Hashes(Listed(txs, address, denom))
  {
    if txs != [] {
      var n := |txs| - 1;
      ListedComplete(txs[..n], address, denom);
      ListedNext(txs[..n], txs[n], address, denom);
      assert txs == txs[..n] + [txs[n]];
      hide Listed, EntryOf, Hashes;
    }
  }

  lemma {:induction false} FirstKept(txs: seq<Tx>, tx: Tx, address: string, denom: string, at: nat, s: Summary)
    requires FirstWithEntry(txs, address, denom, at, s)
    ensures FirstWithEntry(txs + [tx], address, denom, at, s)
  {
    hide EntryOf;
  }

  lemma {:induction false} FirstAtEnd(txs: seq<Tx>, tx: Tx, address: string, denom: string)
    requires EntryOf(tx, address, denom).Some? && tx.hash !in Hashes(Listed(txs, address, denom))
    ensures FirstWithEntry(txs + [tx], address, denom, |txs|, EntryOf(tx, address, denom).value)
  {
    hide EntryOf, Listed, Hashes;
    ListedComplete(txs, address, denom);
    assert forall k :: 0 <= k < |txs| ==> (txs + [tx])[k] == txs[k];
  }

  /** What `Listed` is, without saying how it is computed: its entries belong to transactions at
      increasing positions, each the first of its hash that has an entry. */
  lemma {:induction false} ListedExact(txs: seq<Tx>, address: string, denom: string) returns (at: seq<nat>)
    ensures |at| == |Listed(txs, address, denom)|
    ensures forall i :: 0 <= i < |at| ==>
              at[i] < |txs| && FirstWithEntry(txs, address, denom, at[i], Listed(txs, address, denom)[i])
    ensures forall i, j :: 0 <= i < j < |at| ==> at[i] < at[j]
  {
    at := [];
    if txs != [] {
      hide EntryOf, Hashes, FirstWithEntry;
      var n := |txs| - 1;
      var init, tx := txs[..n], txs[n];
      at := ListedExact(init, address, denom);
      var list := Listed(txs, address, denom);
      assert txs == init + [tx];
      forall i | 0 <= i < |at|
        ensures FirstWithEntry(txs, address, denom, at[i], list[i])
      {
        FirstKept(init, tx, address, denom, at[i], list[i]);
      }
      if |list| > |at| {
        FirstAtEnd(init, tx, address, denom);
        at := at + [n];
      }
    }
  }

  /** No transaction is listed twice. */
  lemma ListedDistinct(txs: seq<Tx>, address: string, denom: string)
    ensures var list := Listed(txs, address, denom);
            forall i, j :: 0 <= i < j < |list| ==> list[i].hash != list[j].hash
  {
    var at := ListedExact(txs, address, denom);
    var list := Listed(txs, address, denom);
    forall i, j | 0 <= i < j < |list|
      ensures list[i].hash != list[j].hash
    {
      EntryHash(txs[at[i]], address, denom);
      EntryHash(txs[at[j]], address, denom);
    }
  }

  /** The first i items of a page were read. */
  ghost predicate ReadTo(earlier: seq<Tx>, txs: seq<Tx>, i: nat, address: string, denom: string)
    requires i <= |txs|
  {
    Readable(earlier, txs, address, denom) == txs[..i] + Readable(earlier + txs[..i], txs[i..], address, denom)
  }

  lemma {:induction false} ReadFromStart(earlier: seq<Tx>, txs: seq<Tx>, address: string, denom: string)
    ensures ReadTo(earlier, txs, 0, address, denom)
  {
    hide Readable;
    assert earlier + txs[..0] == earlier && txs[0..] == txs;
  }

  /** Reading ends after the page or at an item that throws, and goes on otherwise. */
  lemma {:induction false} ReadNext(earlier: seq<Tx>, txs: seq<Tx>, i: nat, address: string, denom: string)
    requires i <= |txs| && ReadTo(earlier, txs, i, address, denom)
    ensures if i == |txs| || Ends(earlier + txs[..i], txs[i], address, denom)
            then Readable(earlier, txs, address, denom) == txs[..i]
            else ReadTo(earlier, txs, i + 1, address, denom)
  {
    hide Hashes, Listed;
    if i < |txs| {
      assert txs[i..][1..] == txs[i + 1..];
      assert txs[..i + 1] == txs[..i] + [txs[i]];
      assert earlier + txs[..i] + [txs[i]] == earlier + txs[..i + 1];
    }
  }

  /** One page is worked into the results, as far as it can be read; an exception ends the loop. */
  method AddPage(txs: seq<Tx>, address: string, denom: string, seen: set<string>, results: seq<Summary>,
                 ghost earlier: seq<Tx>) returns (seen': set<string>, results': seq<Summary>)
    requires results == Listed(earlier, address, denom) && seen == Hashes(results)
    ensures results' == Listed(earlier + Readable(earlier, txs, address, denom), address, denom)
    ensures seen' == Hashes(results')
  {
    hide ParseTransfer, Listed, Hashes, ReadTo, Readable;
    seen', results' := seen, results;
    assert earlier + txs[..0] == earlier;
    ReadFromStart(earlier, txs, address, denom);
    for i := 0 to |txs|
      invariant results' == Listed(earlier + txs[..i], address, denom) && seen' == Hashes(results')
      invariant ReadTo(earlier, txs, i, address, denom)
    {
      var item := txs[i];
      ReadNext(earlier, txs, i, address, denom);
      if item.hash !in seen' && item.messages.None? {
        return;
      }
      ListedNext(earlier + txs[..i], item, address, denom);
      assert earlier + txs[..i + 1] == earlier + txs[..i] + [item];
      if item.hash in seen' {
        continue;
      }
      var parsed := ParseTransferFromTx(item.messages.value, address, denom);
      if parsed.None? {
        continue;
      }
      seen' := seen' + {item.hash};
      results' := results' + [parsed.value.(hash := item.hash)];
    }
    ReadNext(earlier, txs, |txs|, address, denom);
  }

  /** Every entry of a list comes from a message of a transaction of that list. */
  lemma {:induction false} ListedTells(txs: seq<Tx>, address: string, denom: string, s: Summary)
    returns (tx: Tx, m: Msg)
    requires s in Listed(txs, address, denom)
    ensures tx in txs && tx.hash == s.hash && tx.messages.Some? && m in tx.messages.value
    ensures m.kind.Some? && Contains(m.kind.value, "MsgSend")
    ensures s.direction == Out <==> m.fromAddress == Some(address)
    ensures s.direction == In ==> m.toAddress == Some(address)
    ensures Some(s.counterparty) == if m.fromAddress == Some(address) then m.toAddress else m.fromAddress
    ensures m.amount.Some? && Coin(denom, s.amount) in m.amount.value
  {
    hide EntryOf, Listed, Contains;
    var list := Listed(txs, address, denom);
    var at := ListedExact(txs, address, denom);
    var i :| 0 <= i < |list| && list[i] == s;
    assert FirstWithEntry(txs, address, denom, at[i], s);
    tx := txs[at[i]];
    m := EntryTells(tx, address, denom);
  }

  /** The transactions that were read are those of the pages. */
  lemma {:induction false} AnswerTells(results: seq<Summary>, address: string, denom: string,
                                       incoming: Option<seq<Tx>>, outgoing: Option<seq<Tx>>)
    requires var first := Readable([], if incoming.Some? then incoming.value else [], address, denom);
             var second := Readable(first, if outgoing.Some? then outgoing.value else [], address, denom);
             results <= Listed(first + second, address, denom)
    ensures forall i, j :: 0 <= i < j < |results| ==> results[i].hash != results[j].hash
    ensures forall s :: s in results ==>
              exists tx, m ::
                && ((incoming.Some? && tx in incoming.value) || (outgoing.Some? && tx in outgoing.value))
                && tx.hash == s.hash && tx.messages.Some? && m in tx.messages.value
                && m.kind.Some? && Contains(m.kind.value, "MsgSend")
                && (s.direction == Out <==> m.fromAddress == Some(address))
                && (s.direction == In ==> m.toAddress == Some(address))
                && Some(s.counterparty) == (if m.fromAddress == Some(address) then m.toAddress else m.fromAddress)
                && m.amount.Some? && Coin(denom, s.amount) in m.amount.value
  {
    hide Listed, Readable, Contains;
    var pageIn := if incoming.Some? then incoming.value else [];
    var pageOut := if outgoing.Some? then outgoing.value else [];
    var first := Readable([], pageIn, address, denom);
    var second := Readable(first, pageOut, address, denom);
    var k := ReadableExact([], pageIn, address, denom);
    var n := ReadableExact(first, pageOut, address, denom);
    ListedDistinct(first + second, address, denom);
    forall s | s in results
      ensures exists tx, m ::
                && ((incoming.Some? && tx in incoming.value) || (outgoing.Some? && tx in outgoing.value))
                && tx.hash == s.hash && tx.messages.Some? && m in tx.messages.value
                && m.kind.Some? && Contains(m.kind.value, "MsgSend")
                && (s.direction == Out <==> m.fromAddress == Some(address))
                && (s.direction == In ==> m.toAddress == Some(address))
                && Some(s.counterparty) == (if m.fromAddress == Some(address) then m.toAddress else m.fromAddress)
                && m.amount.Some? && Coin(denom, s.amount) in m.amount.value
    {
      var tx, m := ListedTells(first + second, address, denom, s);
      assert tx in pageIn || tx in pageOut;
      assert m in tx.messages.value;
    }
  }

  /** `getRecentTxs`. `incoming` and `outgoing` are what the two queries answer, `None` for an
      error, which counts as an empty page; the second one is made only while the first left room. The
      answer is the first `limit` entries of what can be read of the two pages together, so leaving out
      the second query never shows. Each entry tells direction, counterparty and amount of a message
      of the transaction with its hash, and no hash occurs twice. */
  method GetRecentTxs(address: string, denom: string, limit: nat, incoming: Option<seq<Tx>>, outgoing: Option<seq<Tx>>)
    returns (results: seq<Summary>, asked: bool)
    ensures var first := Readable([], if incoming.Some? then incoming.value else [], address, denom);
            var second := Readable(first, if outgoing.Some? then outgoing.value else [], address, denom);
            var all := Listed(first + second, address, denom);
            && results == all[..if |all| <= limit then |all| else limit]
            && (asked <==> |Listed(first, address, denom)| < limit)
    ensures forall i, j :: 0 <= i < j < |results| ==> results[i].hash != results[j].hash
    ensures forall s :: s in results ==>
              exists tx, m ::
                && ((incoming.Some? && tx in incoming.value) || (outgoing.Some? && tx in outgoing.value))
                && tx.hash == s.hash && tx.messages.Some? && m in tx.messages.value
                && m.kind.Some? && Contains(m.kind.value, "MsgSend")
                && (s.direction == Out <==> m.fromAddress == Some(address))
                && (s.direction == In ==> m.toAddress == Some(address))
                && Some(s.counterparty) == (if m.fromAddress == Some(address) then m.toAddress else m.fromAddress)
                && m.amount.Some? && Coin(denom, s.amount) in m.amount.value
  {
    assert Listed([], address, denom) == [] && Hashes([]) == {};
    hide Listed, Hashes, Readable;
    ghost var pageIn := if incoming.Some? then incoming.value else [];
    ghost var pageOut := if outgoing.Some? then outgoing.value else [];
    ghost var first := Readable([], pageIn, address, denom);
    ghost var second := Readable(first, pageOut, address, denom);
    assert [] + first == first && first + [] == first;
    var seen: set<string> := {};
    var found: seq<Summary> := [];
    if incoming.Some? {
      seen, found := AddPage(incoming.value, address, denom, seen, found, []);
    }
    asked := |found| < limit;
    if asked {
      if outgoing.Some? {
        seen, found := AddPage(outgoing.value, address, denom, seen, found, first);
      }
    } else {
      ListedExtends(first, second, address, denom);
    }
    results := if |found| <= limit then found else found[..limit];
    AnswerTells(results, address, denom, incoming, outgoing);
  }
}
