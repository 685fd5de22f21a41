/** The bot itself: handlers that read and update the user store in place
    (telegram-bot/src/bot.ts), proved against the functions of `Wizard`. */
module Bots {
  import opened Wrappers
  import opened Text
  import opened Amounts
  import opened Storage
  import opened Wizard
  import WizardRuns
  import W = Wallets
  import L = Ledgers

  // Handlers first look up the user's language for their replies. Replies are identified by their
  // template key here, so these lookups are left out: they change nothing a later read sees.

  class Bot {
    const env: W.Env
    const storage: UserStorage
    /** The chain, as far as the bot's node reports it. */
    var ledger: L.Ledger

    ghost function State(): State
      reads this, storage, storage.Records()
    {
      Wizard.State(storage.Contents(), ledger)
    }

    constructor (env: W.Env, storage: UserStorage, ledger: L.Ledger)
      ensures this.env == env && this.storage == storage && this.ledger == ledger
    {
      this.env, this.storage, this.ledger := env, storage, ledger;
    }

    // ---------- sending ----------

    method ExecuteSend(wallet: W.StoredWallet, to: string, amountInput: string, net: Network, telegram: Telegram)
      returns (outs: seq<Output>, threw: bool)
      modifies this`ledger
      ensures Sending(ledger, outs, threw) ==
              Wizard.ExecuteSend(env, old(ledger), wallet, to, amountInput, net, telegram)
    {
      hide Parse, Format, NatOf, Dec, Itoa, W.Unlock, L.Transfer, L.Balance;
      var D := env.denomDecimals;
      var parsed := Parse(amountInput, D);
      if parsed.Err? {
        return [Notice("invalidAmount")], !telegram.first;
      }
      if !net.reachable {
        return [], true;
      }
      var current := L.Balance(ledger, L.User(wallet.address));
      var send := NatOf(parsed.value);
      if current < send + FEE_BASE {
        outs := [InsufficientFunds(Format(Itoa(current), D), Format(Dec(send + FEE_BASE), D))];
        return outs, !telegram.first;
      }
      outs := [Notice("sending")];
      if !telegram.first {
        return outs, true;
      }
      var failed := true;
      if NodeAccepts(env, wallet, net) {
        PaidFeeIsNumeral();
        ledger := L.Transfer(ledger, wallet.address, to, send, NatOf(PAID_FEE));
        outs := outs + [Broadcast(wallet.address, to, send)];
        outs := outs + [Sent(Format(parsed.value, D), to, net.delivery.hash)];
        failed := !telegram.success;
      }
      threw := false;
      if failed {
        outs := outs + [Notice("sendError")];
        threw := !telegram.error;
      }
    }

    method HandleSendStart(id: UserId) returns (outs: seq<Output>)
      requires storage.Valid()
      modifies storage, storage.Records()
      ensures storage.Valid() && fresh(storage.Records() - old(storage.Records()))
      ensures var (u, o) := OnBeginSend(old(storage.Contents())[id]);
              storage.Contents() == old(storage.Contents())[id := u] && outs == o
    {
      hide UserStorage.Valid, UserStorage.Contents;
      var wallet := storage.GetWallet(id);
      if wallet.None? {
        return [Notice("noWallet")];
      }
      var _ := storage.UpdateRecord(id, Patch(awaiting := Is(SendAddress), sendDraft := Undefined));
      outs := [Notice("sendEnterAddress")];
    }

    method HandlePickAmount(id: UserId, pick: string) returns (outs: seq<Output>)
      requires storage.Valid()
      modifies storage, storage.Records()
      ensures storage.Valid() && fresh(storage.Records() - old(storage.Records()))
      ensures var (u, o) := OnPickAmount(old(storage.Contents())[id], pick);
              storage.Contents() == old(storage.Contents())[id := u] && outs == o
    {
      hide UserStorage.Valid, UserStorage.Contents;
      var rec := storage.GetRecord(id);
      if !rec.sendDraft.Is? || rec.sendDraft.value.to == "" {
        return [];
      }
      if pick == "custom" {
        var _ := storage.UpdateRecord(id, Patch(awaiting := Is(SendAmount)));
        // the record is live: this reads the updated one
        return [AskAmount(Read(rec.sendDraft).value.to)];
      }
      var _ := storage.UpdateRecord(id, Patch(sendDraft := Is(SendDraft(rec.sendDraft.value.to, Some(pick))), awaiting := Undefined));
      outs := [AskConfirm(pick, Read(rec.sendDraft).value.to)];
    }

    method HandleConfirm(id: UserId, net: Network, telegram: Telegram) returns (outs: seq<Output>)
      requires storage.Valid()
      modifies this`ledger, storage, storage.Records()
      ensures storage.Valid() && fresh(storage.Records() - old(storage.Records()))
      ensures var r := OnConfirm(env, old(storage.Contents())[id], old(ledger), net, telegram);
              storage.Contents() == old(storage.Contents())[id := r.user] && ledger == r.ledger && outs == r.outs
    {
      hide UserStorage.Valid, UserStorage.Contents, Wizard.ExecuteSend;
      var wallet := storage.GetWallet(id);
      var rec := storage.GetRecord(id);
      var draft := Read(rec.sendDraft);
      assert draft == old(storage.Contents())[id].sendDraft;
      if wallet.None? || draft.None? || draft.value.to == "" || !Truthy(draft.value.amount) {
        return [];
      }
      if !telegram.answer {
        return [];
      }
      var threw;
      outs, threw := ExecuteSend(wallet.value, draft.value.to, draft.value.amount.value, net, telegram);
      if !threw {
        storage.ClearSendDraft(id);
      }
    }

    method HandleMessage(id: UserId, message: string) returns (outs: seq<Output>)
      requires storage.Valid()
      modifies storage, storage.Records()
      ensures storage.Valid() && fresh(storage.Records() - old(storage.Records()))
      ensures var (u, o) := OnMessage(env, old(storage.Contents())[id], message);
              storage.Contents() == old(storage.Contents())[id := u] && outs == o
    {
      hide UserStorage.Valid, UserStorage.Contents, Trim, Parse, Format, IsValidAddress;
      var text := Trim(message);
      var rec := storage.GetRecord(id);
      if rec.awaiting == Is(SendAddress) {
        if !IsValidAddress(text, env.addrPrefix) {
          return [Notice("invalidAddress")];
        }
        var _ := storage.UpdateRecord(id, Patch(sendDraft := Is(SendDraft(text, None)), awaiting := Is(SendAmount)));
        return [AskAmount(text)];
      }
      if rec.awaiting == Is(SendAmount) && rec.sendDraft.Is? && rec.sendDraft.value.to != "" {
        var parsed := Parse(text, env.denomDecimals);
        if parsed.Err? {
          return [Notice("invalidAmount")];
        }
        var display := Format(parsed.value, env.denomDecimals);
        var _ := storage.UpdateRecord(id, Patch(sendDraft := Is(SendDraft(rec.sendDraft.value.to, Some(display))), awaiting := Undefined));
        return [AskConfirm(display, Read(rec.sendDraft).value.to)];
      }
      outs := [];
    }

    method HandleQuickSend(id: UserId, to: string, amount: string, net: Network, telegram: Telegram)
      returns (outs: seq<Output>)
      requires storage.Valid()
      modifies this`ledger, storage
      ensures storage.Valid() && fresh(storage.Records() - old(storage.Records()))
      ensures var r := OnQuickSend(env, old(storage.Contents())[id], old(ledger), to, amount, net, telegram);
              storage.Contents() == old(storage.Contents())[id := r.user] && ledger == r.ledger && outs == r.outs
    {
      hide UserStorage.Valid, UserStorage.Contents, Wizard.ExecuteSend, IsValidAddress;
      var wallet := storage.GetWallet(id);
      if wallet.None? {
        return [Notice("noWallet")];
      }
      if !IsValidAddress(to, env.addrPrefix) {
        return [Notice("invalidAddress")];
      }
      var answers, _ := ExecuteSend(wallet.value, to, amount, net, telegram);
      outs := answers;
    }

    // ---------- wallets ----------

    method HandleCreateWallet(id: UserId, upd: Update) returns (outs: seq<Output>)
      requires storage.Valid() && upd.NewWallet?
      modifies storage, storage.Records()
      ensures storage.Valid() && fresh(storage.Records() - old(storage.Records()))
      ensures var (u, o) := OnNewWallet(env, old(storage.Contents())[id], upd);
              storage.Contents() == old(storage.Contents())[id := u] && outs == o
    {
      hide UserStorage.Valid, UserStorage.Contents, W.CreateWallet;
      var existing := storage.GetWallet(id);
      if existing.Some? {
        return [Notice("walletExists")];
      }
      var created := W.CreateWallet(env, upd.address, upd.mnemonic, upd.iv, upd.now);
      if created.Err? {
        return [];
      }
      storage.SetWallet(id, created.value);
      outs := [];
      for i := 0 to Attempted(upd.delivered)
        invariant outs == CREATED[..i]
      {
        outs := outs + [CREATED[i]];
      }
    }

    method HandleImport(id: UserId, upd: Update) returns (outs: seq<Output>)
      requires storage.Valid() && upd.Import?
      modifies storage, storage.Records()
      ensures storage.Valid() && fresh(storage.Records() - old(storage.Records()))
      ensures var (u, o) := OnImport(env, old(storage.Contents())[id], upd);
              storage.Contents() == old(storage.Contents())[id := u] && outs == o
    {
      hide UserStorage.Valid, UserStorage.Contents, Trim, W.ImportWallet;
      var text := Trim(upd.text);
      if text == "" {
        return [Notice("importUsage")];
      }
      var existing := storage.GetWallet(id);
      if existing.Some? {
        return [Notice("walletExists")];
      }
      var imported := W.ImportWallet(env, text, upd.iv, upd.now);
      if imported.Err? {
        return [Notice("importInvalid")];
      }
      storage.SetWallet(id, imported.value);
      outs := [Notice("importSuccess")];
      if !upd.replied {
        outs := outs + [Notice("importInvalid")];
      }
    }

    // ---------- the remaining handlers ----------

    method HandleCancel(id: UserId) returns (outs: seq<Output>)
      requires storage.Valid()
      modifies storage, storage.Records()
      ensures storage.Valid() && fresh(storage.Records() - old(storage.Records()))
      ensures storage.Contents() == old(storage.Contents())[id := old(storage.Contents()[id]).(sendDraft := None, awaiting := None)]
      ensures outs == [Notice("mainMenu")]
    {
      hide UserStorage.Valid, UserStorage.Contents;
      storage.ClearSendDraft(id);
      outs := [Notice("mainMenu")];
    }

    method HandleStart(id: UserId, detected: Option<string>) returns (outs: seq<Output>)
      requires storage.Valid()
      modifies storage, storage.Records()
      ensures storage.Valid() && fresh(storage.Records() - old(storage.Records()))
      ensures var (u, o) := OnOpen(old(storage.Contents())[id], detected);
              storage.Contents() == old(storage.Contents())[id := u] && outs == o
    {
      hide UserStorage.Valid, UserStorage.Contents;
      var rec := storage.GetRecord(id);
      if !Truthy(Read(rec.lang)) && detected.Some? {
        storage.SetLang(id, detected.value);
      }
      var wallet := storage.GetWallet(id);
      outs := [Notice(if wallet.Some? then "welcomeBack" else "welcome")];
    }

    method HandleLanguage(id: UserId, code: string, edited: bool) returns (outs: seq<Output>)
      requires storage.Valid()
      modifies storage, storage.Records()
      ensures storage.Valid() && fresh(storage.Records() - old(storage.Records()))
      ensures var (u, o) := OnLanguage(old(storage.Contents())[id], code, edited);
              storage.Contents() == old(storage.Contents())[id := u] && outs == o
    {
      hide UserStorage.Valid, UserStorage.Contents;
      storage.SetLang(id, code);
      outs := [Notice("languageSet")];
      if edited {
        var wallet := storage.GetWallet(id);
        outs := outs + [Notice(if wallet.Some? then "welcomeBack" else "welcome")];
      }
    }

    /** The handlers that only read. */
    method HandleBrowse(id: UserId, screen: Screen, answers: bool) returns (outs: seq<Output>)
      requires storage.Valid()
      modifies storage
      ensures storage.Valid() && fresh(storage.Records() - old(storage.Records()))
      ensures storage.Contents() == old(storage.Contents())
      ensures outs == OnBrowse(env, old(storage.Contents())[id], screen, answers)
    {
      hide UserStorage.Valid, UserStorage.Contents, W.Mnemonic;
      var wallet := storage.GetWallet(id);
      match screen {
        case NetworkInfo => outs := if answers then [Notice("networkBody")] else [];
        case Ibc => outs := [Notice("ibcTitle")];
        case Languages => outs := [Notice("languagePick")];
        case Help => outs := [Notice("helpText")];
        case Menu => outs := [Notice(if wallet.Some? then "welcomeBack" else "welcome")];
        case ExportConfirm =>
          outs := [];
          if wallet.Some? {
            var mnemonic := W.Mnemonic(env, wallet.value);
            outs := if mnemonic.Ok? then [Notice("seedWarning")] else [];
          }
        case Qr => outs := if wallet.None? then [] else [Notice("qrCaption")];
        case _ =>
          if wallet.None? {
            return [Notice("noWallet")];
          }
          if screen.Balance? && !answers {
            return [];
          }
          outs := [Notice(if screen.Balance? then "balanceTitle" else if screen.Receive? then "receiveTitle"
                          else if screen.History? then "historyTitle" else "exportConfirm")];
      }
    }

    method Dispatch(id: UserId, upd: Update) returns (outs: seq<Output>)
      requires storage.Valid()
      modifies this`ledger, storage, storage.Records()
      ensures storage.Valid() && fresh(storage.Records() - old(storage.Records()))
      ensures var r := React(env, old(storage.Contents())[id], old(ledger), upd);
              storage.Contents() == old(storage.Contents())[id := r.user] && ledger == r.ledger && outs == r.outs
    {
      hide UserStorage.Valid, UserStorage.Contents;
      hide OnBeginSend, OnPickAmount, OnConfirm, OnMessage, OnQuickSend, OnNewWallet, OnImport, OnOpen, OnLanguage, OnBrowse;
      outs := [];
      ghost var users := storage.Contents();
      assert users[id := users[id]] == users;
      match upd {
        case Open(detected) => outs := HandleStart(id, detected);
        case Browse(screen, answers) => outs := HandleBrowse(id, screen, answers);
        case ChooseLanguage(code, edited) => outs := HandleLanguage(id, code, edited);
        case NewWallet(_, _, _, _, _) => outs := HandleCreateWallet(id, upd);
        case Import(_, _, _, _) => outs := HandleImport(id, upd);
        case BeginSend => outs := HandleSendStart(id);
        case PickAmount(pick) => outs := HandlePickAmount(id, pick);
        case ConfirmSend(net, telegram) => outs := HandleConfirm(id, net, telegram);
        case CancelSend => outs := HandleCancel(id);
        case Message(text) => outs := HandleMessage(id, text);
        case QuickSend(to, amount, net, telegram) => outs := HandleQuickSend(id, to, amount, net, telegram);
      }
    }

    /** One update, handled to its end before the next one starts. */
    method Handle(a: Arrival) returns (entry: Entry)
      requires storage.Valid()
      modifies this`ledger, storage, storage.Records()
      ensures storage.Valid() && fresh(storage.Records() - old(storage.Records()))
      ensures Outcome(State(), [entry]) == Step(env, old(State()), a)
      ensures var r := React(env, old(storage.Contents())[a.user], old(ledger), a.update);
              && storage.Contents() == old(storage.Contents())[a.user := r.user] && ledger == r.ledger
              && entry.user == a.user && entry.update == a.update && entry.outs == r.outs
    {
      hide UserStorage.Valid, UserStorage.Contents, React;
      var outs := Dispatch(a.user, a.update);
      entry := Entry(a.user, a.update, outs);
    }

    // ---------- the whole life of the bot ----------

    /** The process ends and starts again, any number of times. Each start reads the file again and
        repeats the migration. */
    method Restart(legacy: Option<seq<(UserId, W.StoredWallet)>>, times: nat)
      requires storage.Valid()
      requires legacy.Some? ==> Adopted(storage.Contents(), LegacyWallets(legacy.value))
      modifies storage, storage.Records()
      ensures storage.Valid() && fresh(storage.Records() - old(storage.Records()))
      ensures storage.Contents() == old(storage.Contents())
      ensures times > 0 && legacy.None? ==> storage.cache == None
    {
      hide UserStorage.Valid, UserStorage.Contents, Migrated;
      ghost var wallets := if legacy.Some? then LegacyWallets(legacy.value) else map[];
      MigrationAdopts(storage.Contents(), wallets);
      for i := 0 to times
        invariant storage.Valid() && fresh(storage.Records() - old(storage.Records()))
        invariant storage.Contents() == old(storage.Contents())
        invariant i > 0 && legacy.None? ==> storage.cache == None
      {
        storage.Restart();
        MigrateLegacyWallets(storage, legacy);
      }
    }

    /** The first start and everything after it: the bot handles every update there is, in order. It is
        restarted `restarts[i]` times before update i, and at the end as often as the entry after the last
        update says; a missing entry is 0. Whatever the restarts, the bot answers and ends as one that is
        never restarted, works on a plain map of records, and migrates once. */
    method Serve(legacy: Option<seq<(UserId, W.StoredWallet)>>, updates: seq<Arrival>, restarts: seq<nat>)
      returns (log: seq<Entry>)
      requires storage.Valid()
      modifies this`ledger, storage, storage.Records()
      ensures storage.Valid() && fresh(storage.Records() - old(storage.Records()))
      ensures |log| == |updates|
      ensures forall i :: 0 <= i < |updates| ==> log[i].user == updates[i].user && log[i].update == updates[i].update
      ensures var wallets := if legacy.Some? then LegacyWallets(legacy.value) else map[];
              Outcome(State(), log) ==
              Run(env, Wizard.State(Migrated(old(storage.Contents()), wallets), old(ledger)), updates)
    {
      hide Step, React, Run, UserStorage.Valid, UserStorage.Contents, Migrated;
      ghost var wallets := if legacy.Some? then LegacyWallets(legacy.value) else map[];
      MigrationAdopts(storage.Contents(), wallets);
      MigrateLegacyWallets(storage, legacy);
      ghost var start := State();
      log := [];
      RunStarts(env, start);
      for i := 0 to |updates|
        invariant storage.Valid() && fresh(storage.Records() - old(storage.Records()))
        invariant Outcome(State(), log) == Run(env, start, updates[..i])
      {
        RunKeepsAdopted(env, start, updates[..i], wallets);
        Restart(legacy, if i < |restarts| then restarts[i] else 0);
        RunNext(env, start, updates, i);
        var entry := Handle(updates[i]);
        log := log + [entry];
      }
      assert updates[..|updates|] == updates;
      RunEchoes(env, start, updates);
      RunKeepsAdopted(env, start, updates, wallets);
      Restart(legacy, if |updates| < |restarts| then restarts[|updates|] else 0);
    }
  }

  /** The log says which updates were handled: all of them, in order. */
  lemma {:induction false} RunEchoes(env: W.Env, s: State, updates: seq<Arrival>)
    ensures var log := Run(env, s, updates).log;
            forall i :: 0 <= i < |updates| ==> log[i].user == updates[i].user && log[i].update == updates[i].update
  {
    hide Run, React;
    forall i | 0 <= i < |updates|
      ensures Run(env, s, updates).log[i].user == updates[i].user && Run(env, s, updates).log[i].update == updates[i].update
    {
      LogAt(env, s, updates, i);
    }
  }

  lemma RunStarts(env: W.Env, s: State)
    ensures Run(env, s, []) == Outcome(s, [])
  {
  }

  lemma {:induction false} RunNext(env: W.Env, s: State, arrivals: seq<Arrival>, i: nat)
    requires i < |arrivals|
    ensures var before := Run(env, s, arrivals[..i]);
            var step := Step(env, before.state, arrivals[i]);
            Run(env, s, arrivals[..i + 1]) == Outcome(step.state, before.log + step.log)
  {
    hide Step;
    assert arrivals[..i + 1][..i] == arrivals[..i];
  }

  lemma RunKeepsAdopted(env: W.Env, s: State, arrivals: seq<Arrival>, legacy: map<UserId, W.StoredWallet>)
    requires Adopted(s.users, legacy)
    ensures Adopted(Run(env, s, arrivals).state.users, legacy)
  {
    forall id | id in legacy
      ensures Run(env, s, arrivals).state.users[id].wallet.Some?
    {
      WizardRuns.WalletsWriteOnce(env, s, arrivals, id);
    }
  }
}
