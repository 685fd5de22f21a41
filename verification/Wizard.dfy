/** What each handler of the bot does to a user's record, to the chain and to the chat
    (telegram-bot/src/bot.ts), as functions. `Bot` carries the same steps out in place. */
module Wizard {
  import opened Wrappers
  import opened Text
  import opened Amounts
  import opened Crypto
  import opened Storage
  import W = Wallets
  import L = Ledgers

  /** `FEE_BASE`, which the funds check adds to the amount. */
  const FEE_BASE: nat := 200000

  /** The fee written into the transaction. */
  const PAID_FEE := "200000"

  /** How the node answers during one update. `Rejected` covers failed broadcasts and error codes. */
  datatype Delivery = Delivered(hash: string) | Rejected(reason: string)
  datatype Network = Network(reachable: bool, delivery: Delivery)

  /** Which Telegram calls of a send succeed: the callback answer, the first reply, the success
      reply, the error reply. A call that fails throws. */
  datatype Telegram = Telegram(answer: bool, first: bool, success: bool, error: bool)

  /** What can be looked at without changing anything. */
  datatype Screen = Menu | Balance | Receive | History | NetworkInfo | Ibc | Languages | Help
                  | Export | ExportConfirm | Qr

  datatype Update =
    | Open(detected: Option<string>)
    | Browse(screen: Screen, answers: bool)
    | ChooseLanguage(code: string, edited: bool)
    | NewWallet(address: string, mnemonic: string, iv: Bytes, now: string, delivered: nat)
    | Import(text: string, iv: Bytes, now: string, replied: bool)
    | BeginSend
    | PickAmount(pick: string)
    | ConfirmSend(net: Network, telegram: Telegram)
    | CancelSend
    | Message(text: string)
    | QuickSend(to: string, amount: string, net: Network, telegram: Telegram)

  /** Replies the bot attempts, and transfers that reach the chain. */
  datatype Output =
    | Notice(key: string)
    | AskAmount(to: string)
    | AskConfirm(amount: string, to: string)
    | InsufficientFunds(balance: string, needed: string)
    | Broadcast(sender: string, to: string, base: nat)
    | Sent(amount: string, to: string, hash: string)

  datatype Sending = Sending(ledger: L.Ledger, outs: seq<Output>, threw: bool)

  datatype Reaction = Reaction(user: User, ledger: L.Ledger, outs: seq<Output>)

  // ---------- the handlers ----------

  /** `sendTokens`: the stored wallet must unlock to its address and the node must accept. */
  predicate NodeAccepts(env: W.Env, wallet: W.StoredWallet, net: Network) {
    net.delivery.Delivered? && W.Unlock(env, wallet) == Some(wallet.address)
  }

  lemma PaidFeeIsNumeral()
    ensures AllDigits(PAID_FEE) && NatOf(PAID_FEE) == FEE_BASE
  {
    assert NatOf("2") == 2;
    assert PAID_FEE[..5] == "20000" && "20000"[..4] == "2000" && "2000"[..3] == "200"
           && "200"[..2] == "20" && "20"[..1] == "2";
    assert NatOf("20") == 20;
    assert NatOf("200") == 200;
    assert NatOf("2000") == 2000;
    assert NatOf("20000") == 20000;
  }

  function ExecuteSend(env: W.Env, l: L.Ledger, wallet: W.StoredWallet, to: string, amountInput: string,
                       net: Network, telegram: Telegram): Sending
  {
    var D := env.denomDecimals;
    match Parse(amountInput, D)
    case Err(_) => Sending(l, [Notice("invalidAmount")], !telegram.first)
    case Ok(base) =>
      if !net.reachable then Sending(l, [], true) else
      var current := L.Balance(l, L.User(wallet.address));
      var needed := NatOf(base) + FEE_BASE;
      if current < needed then
        Sending(l, [InsufficientFunds(Format(Itoa(current), D), Format(Dec(needed), D))], !telegram.first)
      else if !telegram.first then Sending(l, [Notice("sending")], true)
      else if NodeAccepts(env, wallet, net) then
        PaidFeeIsNumeral();
        var sent := [Notice("sending"), Broadcast(wallet.address, to, NatOf(base)),
                     Sent(Format(base, D), to, net.delivery.hash)];
        Sending(L.Transfer(l, wallet.address, to, NatOf(base), NatOf(PAID_FEE)),
                if telegram.success then sent else sent + [Notice("sendError")],
                !telegram.success && !telegram.error)
      else Sending(l, [Notice("sending"), Notice("sendError")], !telegram.error)
  }

  function Recipient(u: User): Option<string> {
    if u.sendDraft.Some? then Some(u.sendDraft.value.to) else None
  }

  function Amount(u: User): Option<string> {
    if u.sendDraft.Some? then u.sendDraft.value.amount else None
  }

  function OnPickAmount(u: User, pick: string): (User, seq<Output>) {
    if !Truthy(Recipient(u)) then (u, [])
    else if pick == "custom" then
      (u.(awaiting := Some(SendAmount)), [AskAmount(u.sendDraft.value.to)])
    else
      (u.(sendDraft := Some(SendDraft(u.sendDraft.value.to, Some(pick))), awaiting := None),
       [AskConfirm(pick, u.sendDraft.value.to)])
  }

  function OnMessage(env: W.Env, u: User, message: string): (User, seq<Output>) {
    var text := Trim(message);
    if u.awaiting == Some(SendAddress) then
      if !IsValidAddress(text, env.addrPrefix) then (u, [Notice("invalidAddress")])
      else (u.(sendDraft := Some(SendDraft(text, None)), awaiting := Some(SendAmount)), [AskAmount(text)])
    else if u.awaiting == Some(SendAmount) && Truthy(Recipient(u)) then
      match Parse(text, env.denomDecimals)
      case Err(_) => (u, [Notice("invalidAmount")])
      case Ok(base) =>
        var shown := Format(base, env.denomDecimals);
        (u.(sendDraft := Some(SendDraft(u.sendDraft.value.to, Some(shown))), awaiting := None),
         [AskConfirm(shown, u.sendDraft.value.to)])
    else (u, [])
  }

  function OnConfirm(env: W.Env, u: User, l: L.Ledger, net: Network, telegram: Telegram): Reaction {
    if u.wallet.None? || !Truthy(Recipient(u)) || !Truthy(Amount(u)) || !telegram.answer then
      Reaction(u, l, [])
    else
      var sending := ExecuteSend(env, l, u.wallet.value, u.sendDraft.value.to, u.sendDraft.value.amount.value,
                                 net, telegram);
      Reaction(if sending.threw then u else u.(sendDraft := None, awaiting := None), sending.ledger, sending.outs)
  }

  function OnQuickSend(env: W.Env, u: User, l: L.Ledger, to: string, amount: string,
                       net: Network, telegram: Telegram): Reaction
  {
    if u.wallet.None? then Reaction(u, l, [Notice("noWallet")])
    else if !IsValidAddress(to, env.addrPrefix) then Reaction(u, l, [Notice("invalidAddress")])
    else
      var sending := ExecuteSend(env, l, u.wallet.value, to, amount, net, telegram);
      Reaction(u, sending.ledger, sending.outs)
  }

  /** The replies to a new wallet. */
  const CREATED := [Notice("walletCreated"), Notice("seedShow"), Notice("seedWarning"), Notice("welcomeBack")]

  /** How many of them are attempted when the first `delivered` ones succeed. */
  function Attempted(delivered: nat): (n: nat)
    ensures n <= |CREATED|
  {
    if delivered < |CREATED| then delivered + 1 else |CREATED|
  }

  function OnNewWallet(env: W.Env, u: User, upd: Update): (User, seq<Output>)
    requires upd.NewWallet?
  {
    if u.wallet.Some? then (u, [Notice("walletExists")])
    else match W.CreateWallet(env, upd.address, upd.mnemonic, upd.iv, upd.now)
         case Err(_) => (u, [])
         case Ok(wallet) => (u.(wallet := Some(wallet)), CREATED[..Attempted(upd.delivered)])
  }

  function OnImport(env: W.Env, u: User, upd: Update): (User, seq<Output>)
    requires upd.Import?
  {
    var text := Trim(upd.text);
    if text == "" then (u, [Notice("importUsage")])
    else if u.wallet.Some? then (u, [Notice("walletExists")])
    else match W.ImportWallet(env, text, upd.iv, upd.now)
         case Err(_) => (u, [Notice("importInvalid")])
         case Ok(wallet) => (u.(wallet := Some(wallet)),
                             if upd.replied then [Notice("importSuccess")]
                             else [Notice("importSuccess"), Notice("importInvalid")])
  }

  function OnBeginSend(u: User): (User, seq<Output>) {
    if u.wallet.None? then (u, [Notice("noWallet")])
    else (u.(awaiting := Some(SendAddress), sendDraft := None), [Notice("sendEnterAddress")])
  }

  /** `/start`; `detected` is the language found for the sender's Telegram language code, if any. */
  function OnOpen(u: User, detected: Option<string>): (User, seq<Output>) {
    (if !Truthy(u.lang) && detected.Some? then u.(lang := detected) else u,
     [Notice(if u.wallet.Some? then "welcomeBack" else "welcome")])
  }

  /** A language button; the menu follows when the message with the buttons could be edited. */
  function OnLanguage(u: User, code: string, edited: bool): (User, seq<Output>) {
    (u.(lang := Some(code)),
     [Notice("languageSet")] + if edited then [Notice(if u.wallet.Some? then "welcomeBack" else "welcome")] else [])
  }

  /** The screens that only read. `answers` says whether the node can be asked; wallet screens need a
      wallet, and the exported mnemonic must decrypt. */
  function OnBrowse(env: W.Env, u: User, screen: Screen, answers: bool): seq<Output> {
    match screen
    case Menu => [Notice(if u.wallet.Some? then "welcomeBack" else "welcome")]
    case Balance => if u.wallet.None? then [Notice("noWallet")] else if answers then [Notice("balanceTitle")] else []
    case Receive => [Notice(if u.wallet.None? then "noWallet" else "receiveTitle")]
    case History => [Notice(if u.wallet.None? then "noWallet" else "historyTitle")]
    case NetworkInfo => if answers then [Notice("networkBody")] else []
    case Ibc => [Notice("ibcTitle")]
    case Languages => [Notice("languagePick")]
    case Help => [Notice("helpText")]
    case Export => [Notice(if u.wallet.None? then "noWallet" else "exportConfirm")]
    case ExportConfirm =>
      if u.wallet.Some? && W.Mnemonic(env, u.wallet.value).Ok? then [Notice("seedWarning")] else []
    case Qr => if u.wallet.None? then [] else [Notice("qrCaption")]
  }

  function OnCancel(u: User): (User, seq<Output>) {
    (u.(sendDraft := None, awaiting := None), [Notice("mainMenu")])
  }

  function React(env: W.Env, u: User, l: L.Ledger, upd: Update): Reaction {
    match upd
    case Open(detected) => var (u', outs) := OnOpen(u, detected); Reaction(u', l, outs)
    case Browse(screen, answers) => Reaction(u, l, OnBrowse(env, u, screen, answers))
    case ChooseLanguage(code, edited) => var (u', outs) := OnLanguage(u, code, edited); Reaction(u', l, outs)
    case NewWallet(_, _, _, _, _) => var (u', outs) := OnNewWallet(env, u, upd); Reaction(u', l, outs)
    case Import(_, _, _, _) => var (u', outs) := OnImport(env, u, upd); Reaction(u', l, outs)
    case BeginSend => var (u', outs) := OnBeginSend(u); Reaction(u', l, outs)
    case PickAmount(pick) => var (u', outs) := OnPickAmount(u, pick); Reaction(u', l, outs)
    case ConfirmSend(net, telegram) => OnConfirm(env, u, l, net, telegram)
    case CancelSend => var (u', outs) := OnCancel(u); Reaction(u', l, outs)
    case Message(text) => var (u', outs) := OnMessage(env, u, text); Reaction(u', l, outs)
    case QuickSend(to, amount, net, telegram) => OnQuickSend(env, u, l, to, amount, net, telegram)
  }

  // ---------- runs ----------

  datatype State = State(users: Users, ledger: L.Ledger)

  /** An update sent by a user. */
  datatype Arrival = Arrival(user: UserId, update: Update)

  /** An update with what the bot did in answer. */
  datatype Entry = Entry(user: UserId, update: Update, outs: seq<Output>)

  datatype Outcome = Outcome(state: State, log: seq<Entry>)

  ghost function Step(env: W.Env, s: State, a: Arrival): Outcome {
    var r := React(env, s.users[a.user], s.ledger, a.update);
    Outcome(State(s.users[a.user := r.user], r.ledger), [Entry(a.user, a.update, r.outs)])
  }

  /** Updates are handled one at a time, in the order they arrive. */
  ghost function Run(env: W.Env, s: State, arrivals: seq<Arrival>): (r: Outcome)
    ensures |r.log| == |arrivals|
  {
    if arrivals == [] then Outcome(s, [])
    else
      var n := |arrivals| - 1;
      var before := Run(env, s, arrivals[..n]);
      var step := Step(env, before.state, arrivals[n]);
      Outcome(step.state, before.log + step.log)
  }

  /** The state before the i-th update. */
  ghost function Before(env: W.Env, s: State, arrivals: seq<Arrival>, i: nat): State
    requires i <= |arrivals|
  {
    Run(env, s, arrivals[..i]).state
  }

  /** The i-th entry of the log is the i-th update's step from the state before it. */
  lemma {:induction false} LogAt(env: W.Env, s: State, arrivals: seq<Arrival>, i: nat)
    requires i < |arrivals|
    ensures Run(env, s, arrivals).log[..i] == Run(env, s, arrivals[..i]).log
    ensures [Run(env, s, arrivals).log[i]] == Step(env, Before(env, s, arrivals, i), arrivals[i]).log
    ensures Before(env, s, arrivals, i + 1) == Step(env, Before(env, s, arrivals, i), arrivals[i]).state
  {
    hide Step;
    var n := |arrivals| - 1;
    var before := arrivals[..n];
    assert arrivals[..i + 1][..i] == arrivals[..i];
    if i < n {
      LogAt(env, s, before, i);
      assert before[..i] == arrivals[..i];
      assert Run(env, s, arrivals).log[..i] == Run(env, s, before).log[..i];
    } else {
      assert arrivals[..i] == before;
      assert arrivals[..i + 1] == arrivals;
    }
  }

  lemma {:induction false} RunSplits(env: W.Env, s: State, a: seq<Arrival>, b: seq<Arrival>)
    ensures Run(env, s, a + b).state == Run(env, Run(env, s, a).state, b).state
    ensures Run(env, s, a + b).log == Run(env, s, a).log + Run(env, Run(env, s, a).state, b).log
  {
    hide Step;
    if b == [] {
      assert a + b == a;
    } else {
      var n := |b| - 1;
      RunSplits(env, s, a, b[..n]);
      assert (a + b)[..|a + b| - 1] == a + b[..n];
    }
  }
}
