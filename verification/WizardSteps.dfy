/** What one update changes, field by field and in the record's own terms, and what follows for whole
    runs: a cancelled draft is gone, and a wizard is delivered whoever else writes to the bot. */
module WizardSteps {
  import opened Wrappers
  import opened Text
  import opened Amounts
  import opened Crypto
  import opened Storage
  import opened Wizard
  import opened WizardRuns
  import W = Wallets
  import L = Ledgers

  // ---------- one send ----------

  /** Which replies a send attempts, when it throws, and what it does to the ledger. */
  lemma {:induction false} SendExact(env: W.Env, l: L.Ledger, wallet: W.StoredWallet, to: string,
                                     amount: string, net: Network, telegram: Telegram)
    ensures var parsed := Parse(amount, env.denomDecimals);
            var r := ExecuteSend(env, l, wallet, to, amount, net, telegram);
            var asked := parsed.Ok? && net.reachable;
            var short := asked && L.Balance(l, L.User(wallet.address)) < NatOf(parsed.value) + 200000;
            var tried := asked && !short && telegram.first;
            var sent := tried && net.delivery.Delivered? && W.Unlock(env, wallet) == Some(wallet.address);
            && (Notice("invalidAmount") in r.outs <==> parsed.Err?)
            && ((exists o :: o in r.outs && o.InsufficientFunds?) <==> short)
            && (Notice("sending") in r.outs <==> asked && !short)
            && ((exists o :: o in r.outs && o.Broadcast?) <==> sent)
            && ((exists o :: o in r.outs && o.Sent?) <==> sent)
            && (Notice("sendError") in r.outs <==> tried && !(sent && telegram.success))
            && (r.threw <==> if parsed.Err? || short then !telegram.first
                             else !tried || (!(sent && telegram.success) && !telegram.error))
            && (sent ==> && Broadcast(wallet.address, to, NatOf(parsed.value)) in r.outs
                         && Sent(Format(parsed.value, env.denomDecimals), to, net.delivery.hash) in r.outs
                         && r.ledger == L.Transfer(l, wallet.address, to, NatOf(parsed.value), 200000))
            && (!sent ==> r.ledger == l)
  {
    hide Parse, Format, NatOf, Itoa, W.Unlock, L.Transfer, L.Balance;
    PaidFeeIsNumeral();
    var outs := ExecuteSend(env, l, wallet, to, amount, net, telegram).outs;
    assert |outs| > 0 ==> outs[0] in outs;
    assert |outs| > 1 ==> outs[1] in outs;
    assert |outs| > 2 ==> outs[2] in outs;
    assert |outs| > 3 ==> outs[3] in outs;
  }

  /** With at least one decimal the two figures of the funds message read as the balance and as amount
      plus fee. */
  lemma {:induction false} ShortfallFigures(env: W.Env, l: L.Ledger, wallet: W.StoredWallet, to: string,
                                            amount: string, net: Network, telegram: Telegram, o: Output)
    requires env.denomDecimals >= 1
    requires o in ExecuteSend(env, l, wallet, to, amount, net, telegram).outs && o.InsufficientFunds?
    ensures var balance := L.Balance(l, L.User(wallet.address));
            && Parse(amount, env.denomDecimals).Ok?
            && Parse(o.needed, env.denomDecimals) == Ok(Dec(NatOf(Parse(amount, env.denomDecimals).value) + 200000))
            && (balance > 0 ==> Parse(o.balance, env.denomDecimals) == Ok(Dec(balance)))
  {
    hide Parse, Format, NatOf, W.Unlock, L.Transfer, L.Balance;
    var balance := L.Balance(l, L.User(wallet.address));
    ParseOfFormat(NatOf(Parse(amount, env.denomDecimals).value) + 200000, env.denomDecimals);
    if balance > 0 {
      ParseOfFormat(balance, env.denomDecimals);
    }
  }

  // ---------- the fields after one update ----------

  /** The draft: it appears when an address is accepted, gets an amount when one is accepted or picked,
      and goes when sending starts anew, is cancelled, or a complete confirmation does not throw. */
  lemma {:induction false} DraftAfter(env: W.Env, u: User, l: L.Ledger, upd: Update)
    ensures var to := Recipient(u);
            React(env, u, l, upd).user.sendDraft ==
            match upd
            case CancelSend => None
            case BeginSend => if u.wallet.Some? then None else u.sendDraft
            case PickAmount(pick) =>
              if to.Some? && to.value != "" && pick != "custom" then Some(SendDraft(to.value, Some(pick))) else u.sendDraft
            case Message(text) =>
              if u.awaiting == Some(SendAddress) && IsValidAddress(Trim(text), env.addrPrefix) then
                Some(SendDraft(Trim(text), None))
              else if u.awaiting == Some(SendAmount) && to.Some? && to.value != "" && Parse(text, env.denomDecimals).Ok? then
                Some(SendDraft(to.value, Some(Format(Parse(text, env.denomDecimals).value, env.denomDecimals))))
              else u.sendDraft
            case ConfirmSend(net, telegram) =>
              if u.wallet.Some? && to.Some? && to.value != "" && Amount(u).Some? && Amount(u).value != "" && telegram.answer
                 && !ExecuteSend(env, l, u.wallet.value, to.value, Amount(u).value, net, telegram).threw
              then None else u.sendDraft
            case _ => u.sendDraft
  {
    if upd.Message? {
      ParseIgnoresOuterSpace(upd.text, env.denomDecimals);
    }
    hide ExecuteSend, IsValidAddress, Parse, Format, Trim, W.CreateWallet, W.ImportWallet;
  }

  /** The prompt: an address is asked for when sending starts, an amount when an address is accepted or
      the user wants to type one, and nothing once there is an amount, or the draft goes. */
  lemma {:induction false} PromptAfter(env: W.Env, u: User, l: L.Ledger, upd: Update)
    ensures var drafted := u.sendDraft.Some? && u.sendDraft.value.to != "";
            React(env, u, l, upd).user.awaiting ==
            match upd
            case CancelSend => None
            case BeginSend => if u.wallet.Some? then Some(SendAddress) else u.awaiting
            case PickAmount(pick) => if !drafted then u.awaiting else if pick == "custom" then Some(SendAmount) else None
            case Message(text) =>
              if u.awaiting == Some(SendAddress) then
                Some(if IsValidAddress(Trim(text), env.addrPrefix) then SendAmount else SendAddress)
              else if u.awaiting == Some(SendAmount) && drafted && Parse(text, env.denomDecimals).Ok? then None
              else u.awaiting
            case ConfirmSend(net, telegram) =>
              if u.wallet.Some? && drafted && Amount(u).Some? && Amount(u).value != "" && telegram.answer
                 && !ExecuteSend(env, l, u.wallet.value, u.sendDraft.value.to, Amount(u).value, net, telegram).threw
              then None else u.awaiting
            case _ => u.awaiting
  {
    if upd.Message? {
      ParseIgnoresOuterSpace(upd.text, env.denomDecimals);
    }
    hide ExecuteSend, IsValidAddress, Parse, Format, Trim, W.CreateWallet, W.ImportWallet;
  }

  /** The language: chosen, or detected by `/start` where there is none. */
  lemma {:induction false} LanguageAfter(env: W.Env, u: User, l: L.Ledger, upd: Update)
    ensures React(env, u, l, upd).user.lang ==
            match upd
            case ChooseLanguage(code, _) => Some(code)
            case Open(detected) => if (u.lang == None || u.lang == Some("")) && detected.Some? then detected else u.lang
            case _ => u.lang
  {
    hide ExecuteSend, IsValidAddress, Parse, Format, Trim, W.CreateWallet, W.ImportWallet;
  }

  /** The wallet: one that is there stays; otherwise exactly a creation whose key is usable gives one,
      with its address and time, or an import whose words and key are. */
  lemma {:induction false} WalletAfter(env: W.Env, u: User, l: L.Ledger, upd: Update)
    ensures var w := React(env, u, l, upd).user.wallet;
            && (u.wallet.Some? ==> w == u.wallet)
            && (u.wallet.None? ==>
                  match upd
                  case NewWallet(address, mnemonic, iv, now, _) =>
                    if KeyFromHex(env.encryptionKey).None? then w == None
                    else && w.Some? && w.value.address == address && w.value.createdAt == now
                         && Ok(w.value.encryptedMnemonic) == EncryptSecret(env.cipher, mnemonic, env.encryptionKey, iv)
                  case Import(text, iv, now, _) =>
                    var imported := W.ImportFromMnemonic(env, text);
                    if Trim(text) == "" || imported.Err? || KeyFromHex(env.encryptionKey).None? then w == None
                    else && w.Some? && w.value.address == imported.value && w.value.createdAt == now
                         && Ok(w.value.encryptedMnemonic) ==
                            EncryptSecret(env.cipher, W.Lower(Trim(text)), env.encryptionKey, iv)
                  case _ => w == None)
  {
    if upd.Import? {
      TrimIdempotent(upd.text);
    }
    hide ExecuteSend, IsValidAddress, Parse, Format, Trim, KeyFromHex, ToHex, W.Lower, W.Collapse;
  }

  /** Nothing but a complete confirmation and a quick send to a valid address touches the ledger. */
  lemma {:induction false} LedgerAfter(env: W.Env, u: User, l: L.Ledger, upd: Update)
    ensures React(env, u, l, upd).ledger ==
            match upd
            case ConfirmSend(net, telegram) =>
              if u.wallet.Some? && u.sendDraft.Some? && u.sendDraft.value.to != ""
                 && Amount(u).Some? && Amount(u).value != "" && telegram.answer
              then ExecuteSend(env, l, u.wallet.value, u.sendDraft.value.to, Amount(u).value, net, telegram).ledger
              else l
            case QuickSend(to, amount, net, telegram) =>
              if u.wallet.Some? && IsValidAddress(to, env.addrPrefix)
              then ExecuteSend(env, l, u.wallet.value, to, amount, net, telegram).ledger
              else l
            case _ => l
  {
    hide ExecuteSend, IsValidAddress, Parse, Format, Trim, W.CreateWallet, W.ImportWallet;
  }

  // ---------- the replies ----------

  /** The replies of the send wizard. */
  lemma {:induction false} WizardReplies(env: W.Env, u: User, l: L.Ledger, upd: Update)
    ensures var drafted := u.sendDraft.Some? && u.sendDraft.value.to != "";
            var outs := React(env, u, l, upd).outs;
            match upd
            case CancelSend => outs == [Notice("mainMenu")]
            case BeginSend => outs == [Notice(if u.wallet.Some? then "sendEnterAddress" else "noWallet")]
            case PickAmount(pick) =>
              outs == if !drafted then []
                      else if pick == "custom" then [AskAmount(u.sendDraft.value.to)]
                      else [AskConfirm(pick, u.sendDraft.value.to)]
            case Message(text) =>
              outs == if u.awaiting == Some(SendAddress) then
                        [if IsValidAddress(Trim(text), env.addrPrefix) then AskAmount(Trim(text)) else Notice("invalidAddress")]
                      else if u.awaiting == Some(SendAmount) && drafted then
                        var parsed := Parse(text, env.denomDecimals);
                        [if parsed.Ok? then AskConfirm(Format(parsed.value, env.denomDecimals), u.sendDraft.value.to)
                         else Notice("invalidAmount")]
                      else []
            case ConfirmSend(net, telegram) =>
              outs == if u.wallet.Some? && drafted && Amount(u).Some? && Amount(u).value != "" && telegram.answer
                      then ExecuteSend(env, l, u.wallet.value, u.sendDraft.value.to, Amount(u).value, net, telegram).outs
                      else []
            case QuickSend(to, amount, net, telegram) =>
              outs == if u.wallet.None? then [Notice("noWallet")]
                      else if !IsValidAddress(to, env.addrPrefix) then [Notice("invalidAddress")]
                      else ExecuteSend(env, l, u.wallet.value, to, amount, net, telegram).outs
            case _ => forall o :: o in outs ==> o.Notice?
  {
    if upd.Message? {
      ParseIgnoresOuterSpace(upd.text, env.denomDecimals);
    }
    hide ExecuteSend, IsValidAddress, Parse, Format, Trim, W.CreateWallet, W.ImportWallet;
  }

  /** The replies about wallets. A new one is announced in four messages, of which one more is attempted
      than arrives. */
  lemma {:induction false} WalletReplies(env: W.Env, u: User, l: L.Ledger, upd: Update)
    ensures var some := u.wallet.Some?;
            var outs := React(env, u, l, upd).outs;
            match upd
            case NewWallet(_, _, _, _, delivered) =>
              if some then outs == [Notice("walletExists")]
              else if KeyFromHex(env.encryptionKey).None? then outs == []
              else && outs <= [Notice("walletCreated"), Notice("seedShow"), Notice("seedWarning"), Notice("welcomeBack")]
                   && |outs| == if delivered < 4 then delivered + 1 else 4
            case Import(text, _, _, replied) =>
              outs == if Trim(text) == "" then [Notice("importUsage")]
                      else if some then [Notice("walletExists")]
                      else if W.ImportFromMnemonic(env, text).Err? || KeyFromHex(env.encryptionKey).None? then [Notice("importInvalid")]
                      else if replied then [Notice("importSuccess")]
                      else [Notice("importSuccess"), Notice("importInvalid")]
            case _ => true
  {
    if upd.Import? {
      TrimIdempotent(upd.text);
    }
    hide ExecuteSend, IsValidAddress, Parse, Format, Trim, KeyFromHex, ToHex, W.Lower, W.Collapse, OnBrowse, OnMessage;
  }

  /** The replies of the screens. The mnemonic is shown exactly after a confirmation, if there is a wallet
      and it can be decrypted. */
  lemma {:induction false} MenuReplies(env: W.Env, u: User, l: L.Ledger, upd: Update)
    ensures var some := u.wallet.Some?;
            var outs := React(env, u, l, upd).outs;
            match upd
            case Open(_) => outs == [Notice(if some then "welcomeBack" else "welcome")]
            case ChooseLanguage(_, edited) =>
              outs == if !edited then [Notice("languageSet")]
                      else [Notice("languageSet"), Notice(if some then "welcomeBack" else "welcome")]
            case Browse(screen, answers) =>
              && |outs| <= 1
              && (Notice("noWallet") in outs <==> screen in {Balance, Receive, History, Export} && !some)
              && (Notice("seedWarning") in outs <==> screen == ExportConfirm && some && W.Mnemonic(env, u.wallet.value).Ok?)
              && (Notice("welcomeBack") in outs <==> screen == Menu && some)
              && (Notice("welcome") in outs <==> screen == Menu && !some)
              && (Notice("balanceTitle") in outs <==> screen == Balance && some && answers)
              && (Notice("receiveTitle") in outs <==> screen == Receive && some)
              && (Notice("historyTitle") in outs <==> screen == History && some)
              && (Notice("exportConfirm") in outs <==> screen == Export && some)
              && (Notice("qrCaption") in outs <==> screen == Qr && some)
              && (Notice("networkBody") in outs <==> screen == NetworkInfo && answers)
              && (Notice("ibcTitle") in outs <==> screen == Ibc)
              && (Notice("languagePick") in outs <==> screen == Languages)
              && (Notice("helpText") in outs <==> screen == Help)
            case _ => true
  {
    hide OnConfirm, OnQuickSend, OnMessage, OnNewWallet, OnImport, W.Mnemonic;
  }

  // ---------- when money moves ----------

  /** A confirmation broadcasts exactly when there is a wallet and a complete draft, the press is answered,
      the node is reachable, the stored amount parses, the balance covers it with the fee, the user can be
      told, and the node accepts what the unlocked wallet signs. */
  lemma {:induction false} ConfirmSendsIff(env: W.Env, u: User, l: L.Ledger, net: Network, telegram: Telegram)
    ensures (exists o :: o in React(env, u, l, ConfirmSend(net, telegram)).outs && o.Broadcast?) <==>
              && u.wallet.Some? && u.sendDraft.Some? && u.sendDraft.value.to != ""
              && u.sendDraft.value.amount.Some? && u.sendDraft.value.amount.value != ""
              && telegram.answer && telegram.first && net.reachable && net.delivery.Delivered?
              && W.Unlock(env, u.wallet.value) == Some(u.wallet.value.address)
              && Parse(u.sendDraft.value.amount.value, env.denomDecimals).Ok?
              && L.Balance(l, L.User(u.wallet.value.address)) >=
                 NatOf(Parse(u.sendDraft.value.amount.value, env.denomDecimals).value) + 200000
  {
    WizardReplies(env, u, l, ConfirmSend(net, telegram));
    if u.wallet.Some? && Truthy(Recipient(u)) && Truthy(Amount(u)) && telegram.answer {
      SendExact(env, l, u.wallet.value, Recipient(u).value, Amount(u).value, net, telegram);
    }
    hide React, ExecuteSend, Parse, NatOf, W.Unlock, L.Balance;
  }

  /** A quick send broadcasts exactly when there is a wallet, the address is valid, and the same holds of
      the typed amount; it needs no draft and leaves the record alone. */
  lemma {:induction false} QuickSendsIff(env: W.Env, u: User, l: L.Ledger, to: string, amount: string,
                                         net: Network, telegram: Telegram)
    ensures var r := React(env, u, l, QuickSend(to, amount, net, telegram));
            && r.user == u
            && ((exists o :: o in r.outs && o.Broadcast?) <==>
                  && u.wallet.Some? && IsValidAddress(to, env.addrPrefix)
                  && telegram.first && net.reachable && net.delivery.Delivered?
                  && W.Unlock(env, u.wallet.value) == Some(u.wallet.value.address)
                  && Parse(amount, env.denomDecimals).Ok?
                  && L.Balance(l, L.User(u.wallet.value.address)) >= NatOf(Parse(amount, env.denomDecimals).value) + 200000)
  {
    WizardReplies(env, u, l, QuickSend(to, amount, net, telegram));
    if u.wallet.Some? && IsValidAddress(to, env.addrPrefix) {
      SendExact(env, l, u.wallet.value, to, amount, net, telegram);
    }
    hide ExecuteSend, Parse, NatOf, W.Unlock, L.Balance, IsValidAddress;
  }

  // ---------- one update in a run ----------

  /** An update is answered from its user's record, which is the only one it changes. */
  lemma {:induction false} RunOfOne(env: W.Env, s: State, a: Arrival)
    ensures var r := Run(env, s, [a]);
            var x := React(env, s.users[a.user], s.ledger, a.update);
            && r.log == [Entry(a.user, a.update, x.outs)]
            && r.state.ledger == x.ledger
            && forall id: UserId :: r.state.users[id] == if id == a.user then x.user else s.users[id]
  {
    hide React;
    assert [a][..0] == [];
  }

  /** The i-th entry of a run's log, from the state before it. */
  lemma {:induction false} EntryAt(env: W.Env, s: State, arrivals: seq<Arrival>, i: nat)
    requires i < |arrivals|
    ensures var a := arrivals[i];
            var b := Before(env, s, arrivals, i);
            var x := React(env, b.users[a.user], b.ledger, a.update);
            && Run(env, s, arrivals).log[i] == Entry(a.user, a.update, x.outs)
            && Before(env, s, arrivals, i + 1).ledger == x.ledger
            && forall id: UserId ::
                 Before(env, s, arrivals, i + 1).users[id] == if id == a.user then x.user else b.users[id]
  {
    hide React;
    LogAt(env, s, arrivals, i);
    var step := Step(env, Before(env, s, arrivals, i), arrivals[i]);
    assert Run(env, s, arrivals).log[i] == step.log[0];
  }

  // ---------- a cancelled draft is gone ----------

  /** A draft after an update was there before it, or its address was accepted in it. */
  lemma {:induction false} DraftOrigin(env: W.Env, u: User, l: L.Ledger, upd: Update, id: UserId)
    requires React(env, u, l, upd).user.sendDraft.Some?
    ensures upd != CancelSend
    ensures u.sendDraft.Some? || AcceptsAddress(Entry(id, upd, React(env, u, l, upd).outs))
  {
    DraftAfter(env, u, l, upd);
    WizardReplies(env, u, l, upd);
    hide React, ExecuteSend, IsValidAddress, Parse, Format, Trim;
  }

  lemma {:induction false} NoDraftNext(env: W.Env, s: State, arrivals: seq<Arrival>, i: nat, id: UserId)
    requires i < |arrivals|
    requires arrivals[i] != Arrival(id, CancelSend) ==>
               && Before(env, s, arrivals, i).users[id].sendDraft == None
               && !(arrivals[i].user == id && AcceptsAddress(Run(env, s, arrivals).log[i]))
    ensures Before(env, s, arrivals, i + 1).users[id].sendDraft == None
  {
    hide React, AcceptsAddress, Before, Run;
    var a := arrivals[i];
    var b := Before(env, s, arrivals, i);
    EntryAt(env, s, arrivals, i);
    if a.user == id && React(env, b.users[id], b.ledger, a.update).user.sendDraft.Some? {
      DraftOrigin(env, b.users[id], b.ledger, a.update, id);
    }
  }

  /** While no address of a user is accepted after a cancellation, the user has no draft. */
  lemma {:induction false} NoDraftSinceCancel(env: W.Env, s: State, arrivals: seq<Arrival>, k: nat, i: nat, id: UserId)
    requires k < i <= |arrivals| && arrivals[k] == Arrival(id, CancelSend)
    requires forall j :: k < j < i ==> !(arrivals[j].user == id && AcceptsAddress(Run(env, s, arrivals).log[j]))
    ensures Before(env, s, arrivals, i).users[id].sendDraft == None
    decreases i
  {
    hide AcceptsAddress, Before, Run;
    if i > k + 1 {
      NoDraftSinceCancel(env, s, arrivals, k, i - 1, id);
    }
    NoDraftNext(env, s, arrivals, i - 1, id);
  }

  /** In every run, a confirmation after a cancellation broadcasts only if an address of that user was
      accepted in between: the cancelled draft is never sent. */
  lemma {:induction false} CancelledNeverSent(env: W.Env, s: State, arrivals: seq<Arrival>, k: nat, i: nat)
    requires k < i < |arrivals|
    requires arrivals[k] == Arrival(arrivals[i].user, CancelSend) && arrivals[i].update.ConfirmSend?
    requires exists o :: o in Run(env, s, arrivals).log[i].outs && o.Broadcast?
    ensures exists j :: k < j < i && arrivals[j].user == arrivals[i].user && arrivals[j].update.Message?
                        && AcceptsAddress(Run(env, s, arrivals).log[j])
  {
    var id := arrivals[i].user;
    hide React, Before, Run;
    if j :| k < j < i && arrivals[j].user == id && AcceptsAddress(Run(env, s, arrivals).log[j]) {
      EntryAt(env, s, arrivals, j);
    } else {
      NoDraftSinceCancel(env, s, arrivals, k, i, id);
      var b := Before(env, s, arrivals, i);
      EntryAt(env, s, arrivals, i);
      ConfirmSendsIff(env, b.users[id], b.ledger, arrivals[i].update.net, arrivals[i].update.telegram);
      assert false;
    }
  }

  /** No draft, no prompt: only starting to send changes that. */
  predicate Idle(u: User) {
    u.sendDraft == None && u.awaiting == None
  }

  lemma {:induction false} IdleKept(env: W.Env, u: User, l: L.Ledger, upd: Update)
    ensures upd.CancelSend? ==> Idle(React(env, u, l, upd).user)
    ensures Idle(u) && !upd.BeginSend? ==> Idle(React(env, u, l, upd).user)
    ensures Idle(u) && (upd.Message? || upd.PickAmount? || upd.ConfirmSend?) ==>
              React(env, u, l, upd) == Reaction(u, l, [])
  {
    hide ExecuteSend, IsValidAddress, Parse, Format, Trim, W.CreateWallet, W.ImportWallet;
  }

  lemma {:induction false} IdleNext(env: W.Env, s: State, arrivals: seq<Arrival>, i: nat, id: UserId)
    requires i < |arrivals|
    requires arrivals[i] != Arrival(id, CancelSend) ==>
               && Idle(Before(env, s, arrivals, i).users[id])
               && !(arrivals[i].user == id && arrivals[i].update.BeginSend?)
    ensures Idle(Before(env, s, arrivals, i + 1).users[id])
  {
    hide React, Idle, Before, Run;
    var b := Before(env, s, arrivals, i);
    EntryAt(env, s, arrivals, i);
    if arrivals[i].user == id {
      IdleKept(env, b.users[id], b.ledger, arrivals[i].update);
    }
  }

  lemma {:induction false} IdleSinceCancel(env: W.Env, s: State, arrivals: seq<Arrival>, k: nat, i: nat, id: UserId)
    requires k < i <= |arrivals| && arrivals[k] == Arrival(id, CancelSend)
    requires forall j :: k < j < i && arrivals[j].user == id ==> !arrivals[j].update.BeginSend?
    ensures Idle(Before(env, s, arrivals, i).users[id])
    decreases i
  {
    hide Idle, Before, Run;
    if i > k + 1 {
      IdleSinceCancel(env, s, arrivals, k, i - 1, id);
    }
    IdleNext(env, s, arrivals, i - 1, id);
  }

  /** In every run, between a cancellation and the next start of a send, the user's texts, amount buttons
      and confirmations are not answered and change nothing. */
  lemma {:induction false} CancelSilences(env: W.Env, s: State, arrivals: seq<Arrival>, k: nat, i: nat)
    requires k < i < |arrivals| && arrivals[k] == Arrival(arrivals[i].user, CancelSend)
    requires forall j :: k < j < i && arrivals[j].user == arrivals[i].user ==> !arrivals[j].update.BeginSend?
    requires arrivals[i].update.Message? || arrivals[i].update.PickAmount? || arrivals[i].update.ConfirmSend?
    ensures Run(env, s, arrivals).log[i].outs == []
    ensures Before(env, s, arrivals, i + 1) == Before(env, s, arrivals, i)
  {
    hide React, Idle, Before, Run;
    var a := arrivals[i];
    var b, after := Before(env, s, arrivals, i), Before(env, s, arrivals, i + 1);
    IdleSinceCancel(env, s, arrivals, k, i, a.user);
    EntryAt(env, s, arrivals, i);
    IdleKept(env, b.users[a.user], b.ledger, a.update);
    assert after.users == b.users;
  }

  // ---------- a whole wizard inside a run ----------

  /** Updates of other users. */
  ghost predicate Others(arrivals: seq<Arrival>, id: UserId) {
    forall a :: a in arrivals ==> a.user != id
  }

  /** A user's update followed by other users' updates changes the user's record as the update alone. */
  lemma {:induction false} RecordAfter(env: W.Env, s: State, upd: Update, others: seq<Arrival>, id: UserId)
    requires Others(others, id)
    ensures Run(env, s, [Arrival(id, upd)] + others).state.users[id] == React(env, s.users[id], s.ledger, upd).user
  {
    hide React;
    RunSplits(env, s, [Arrival(id, upd)], others);
    RunOfOne(env, s, Arrival(id, upd));
    OthersUntouched(env, Run(env, s, [Arrival(id, upd)]).state, others, id);
  }

  lemma {:induction false} RecordLater(env: W.Env, s: State, before: seq<Arrival>, upd: Update, others: seq<Arrival>, id: UserId)
    requires Others(others, id)
    ensures var b := Run(env, s, before).state;
            Run(env, s, before + [Arrival(id, upd)] + others).state.users[id] == React(env, b.users[id], b.ledger, upd).user
  {
    hide React, Run;
    assert before + [Arrival(id, upd)] + others == before + ([Arrival(id, upd)] + others);
    RunSplits(env, s, before, [Arrival(id, upd)] + others);
    RecordAfter(env, Run(env, s, before).state, upd, others, id);
  }

  /** The record after a start and an accepted address, with other users' updates in between. */
  lemma {:induction false} Addressed(env: W.Env, s: State, id: UserId, to: string, x: seq<Arrival>, y: seq<Arrival>)
    requires s.users[id].wallet.Some? && IsValidAddress(Trim(to), env.addrPrefix)
    requires Others(x, id) && Others(y, id)
    ensures var u := Run(env, s, [Arrival(id, BeginSend)] + x + [Arrival(id, Message(to))] + y).state.users[id];
            && u.wallet == s.users[id].wallet
            && u.sendDraft == Some(SendDraft(Trim(to), None)) && u.awaiting == Some(SendAmount)
  {
    var start := [Arrival(id, BeginSend)] + x;
    RecordAfter(env, s, BeginSend, x, id);
    RecordLater(env, s, start, Message(to), y, id);
    var b := Run(env, s, start).state;
    DraftAfter(env, s.users[id], s.ledger, BeginSend);
    PromptAfter(env, s.users[id], s.ledger, BeginSend);
    WalletAfter(env, s.users[id], s.ledger, BeginSend);
    DraftAfter(env, b.users[id], b.ledger, Message(to));
    PromptAfter(env, b.users[id], b.ledger, Message(to));
    WalletAfter(env, b.users[id], b.ledger, Message(to));
    hide React, Run, IsValidAddress, Trim, Parse, Format;
  }

  /** The wizard in a run. A user with a wallet that unlocks starts to send, types a valid address and an
      amount that parses, and confirms; other users write in between whatever they like. If the balance
      suffices at the end and node and chat answer, the confirmation broadcasts exactly when there is at
      least one decimal, and then this amount to this address. */
  lemma {:induction false} RunDeliversIff(env: W.Env, s: State, id: UserId, to: string, amount: string,
                                          x: seq<Arrival>, y: seq<Arrival>, z: seq<Arrival>, net: Network, telegram: Telegram)
    requires s.users[id].wallet.Some? && W.Consistent(env, s.users[id].wallet.value)
    requires IsValidAddress(Trim(to), env.addrPrefix) && Parse(amount, env.denomDecimals).Ok?
    requires Others(x, id) && Others(y, id) && Others(z, id)
    requires net.reachable && net.delivery.Delivered? && telegram.answer && telegram.first
    requires var before := [Arrival(id, BeginSend)] + x + [Arrival(id, Message(to))] + y + [Arrival(id, Message(amount))] + z;
             L.Balance(Run(env, s, before).state.ledger, L.User(s.users[id].wallet.value.address)) >=
             NatOf(Parse(amount, env.denomDecimals).value) + 200000
    ensures var before := [Arrival(id, BeginSend)] + x + [Arrival(id, Message(to))] + y + [Arrival(id, Message(amount))] + z;
            var last := Run(env, s, before + [Arrival(id, ConfirmSend(net, telegram))]).log[|before|];
            && ((exists o :: o in last.outs && o.Broadcast?) <==> env.denomDecimals >= 1)
            && (env.denomDecimals >= 1 ==>
                  Broadcast(s.users[id].wallet.value.address, Trim(to), NatOf(Parse(amount, env.denomDecimals).value)) in last.outs)
  {
    hide React, Run, IsValidAddress, Trim, Parse, Format, NatOf, Dec, W.Unlock, L.Balance, ExecuteSend;
    var D := env.denomDecimals;
    var asked := [Arrival(id, BeginSend)] + x + [Arrival(id, Message(to))] + y;
    var before := asked + [Arrival(id, Message(amount))] + z;
    Addressed(env, s, id, to, x, y);
    RecordLater(env, s, asked, Message(amount), z, id);
    var b := Run(env, s, asked).state;
    assert Trim(to) != "" by { ValidNotEmpty(Trim(to), env.addrPrefix); }
    DraftAfter(env, b.users[id], b.ledger, Message(amount));
    WalletAfter(env, b.users[id], b.ledger, Message(amount));
    var n := ParsedIsPositive(amount, D);
    var shown := Format(Dec(n), D);
    assert Run(env, s, before).state.users[id].sendDraft == Some(SendDraft(Trim(to), Some(shown)));
    RoundTripIff(n, D);
    StoredTyped(n, D);
    ShownNotEmpty(Dec(n), D);
    ConfirmedLast(env, s, before, id, net, telegram, Trim(to), shown);
  }

  lemma ValidNotEmpty(address: string, prefix: string)
    requires IsValidAddress(address, prefix)
    ensures address != ""
  {
  }

  /** The same for an amount button: the transfer goes out exactly when the button's amount parses. */
  lemma {:induction false} RunDeliversPickIff(env: W.Env, s: State, id: UserId, to: string, pick: string,
                                              x: seq<Arrival>, y: seq<Arrival>, z: seq<Arrival>, net: Network, telegram: Telegram)
    requires s.users[id].wallet.Some? && W.Consistent(env, s.users[id].wallet.value)
    requires IsValidAddress(Trim(to), env.addrPrefix) && pick != "custom" && pick != ""
    requires Others(x, id) && Others(y, id) && Others(z, id)
    requires net.reachable && net.delivery.Delivered? && telegram.answer && telegram.first
    requires var before := [Arrival(id, BeginSend)] + x + [Arrival(id, Message(to))] + y + [Arrival(id, PickAmount(pick))] + z;
             Parse(pick, env.denomDecimals).Ok? ==>
               L.Balance(Run(env, s, before).state.ledger, L.User(s.users[id].wallet.value.address)) >=
               NatOf(Parse(pick, env.denomDecimals).value) + 200000
    ensures var before := [Arrival(id, BeginSend)] + x + [Arrival(id, Message(to))] + y + [Arrival(id, PickAmount(pick))] + z;
            var last := Run(env, s, before + [Arrival(id, ConfirmSend(net, telegram))]).log[|before|];
            && ((exists o :: o in last.outs && o.Broadcast?) <==> Parse(pick, env.denomDecimals).Ok?)
            && (Parse(pick, env.denomDecimals).Ok? ==>
                  Broadcast(s.users[id].wallet.value.address, Trim(to), NatOf(Parse(pick, env.denomDecimals).value)) in last.outs)
  {
    hide React, Run, IsValidAddress, Trim, Parse, Format, NatOf, Dec, W.Unlock, L.Balance, ExecuteSend;
    var asked := [Arrival(id, BeginSend)] + x + [Arrival(id, Message(to))] + y;
    var before := asked + [Arrival(id, PickAmount(pick))] + z;
    Addressed(env, s, id, to, x, y);
    RecordLater(env, s, asked, PickAmount(pick), z, id);
    var b := Run(env, s, asked).state;
    assert Trim(to) != "" by { ValidNotEmpty(Trim(to), env.addrPrefix); }
    DraftAfter(env, b.users[id], b.ledger, PickAmount(pick));
    WalletAfter(env, b.users[id], b.ledger, PickAmount(pick));
    ConfirmedLast(env, s, before, id, net, telegram, Trim(to), pick);
  }

  /** A confirmation at the end of a run, from the draft there is. */
  lemma {:induction false} ConfirmedLast(env: W.Env, s: State, before: seq<Arrival>, id: UserId, net: Network,
                                         telegram: Telegram, to: string, amount: string)
    requires var b := Run(env, s, before).state;
             && b.users[id].sendDraft == Some(SendDraft(to, Some(amount))) && to != "" && amount != ""
             && b.users[id].wallet.Some? && W.Consistent(env, b.users[id].wallet.value)
             && (Parse(amount, env.denomDecimals).Ok? ==>
                   L.Balance(b.ledger, L.User(b.users[id].wallet.value.address)) >=
                   NatOf(Parse(amount, env.denomDecimals).value) + 200000)
    requires net.reachable && net.delivery.Delivered? && telegram.answer && telegram.first
    ensures var last := Run(env, s, before + [Arrival(id, ConfirmSend(net, telegram))]).log[|before|];
            && ((exists o :: o in last.outs && o.Broadcast?) <==> Parse(amount, env.denomDecimals).Ok?)
            && (Parse(amount, env.denomDecimals).Ok? ==>
                  Broadcast(Run(env, s, before).state.users[id].wallet.value.address, to,
                            NatOf(Parse(amount, env.denomDecimals).value)) in last.outs)
  {
    hide React, Run, Parse, NatOf, W.Unlock, L.Balance, ExecuteSend;
    var b := Run(env, s, before).state;
    var a := Arrival(id, ConfirmSend(net, telegram));
    RunSplits(env, s, before, [a]);
    RunOfOne(env, b, a);
    WizardReplies(env, b.users[id], b.ledger, a.update);
    SendExact(env, b.ledger, b.users[id].wallet.value, to, amount, net, telegram);
  }
}
