/** What holds in every run of the bot: the wizard's invariant, what a confirmation sends, how
    often it can send, and what happens to wallets and balances. */
module WizardRuns {
  import opened Wrappers
  import opened Text
  import opened Amounts
  import opened Crypto
  import opened Storage
  import opened Wizard
  import W = Wallets
  import L = Ledgers

  // ---------- the wizard's invariant ----------

  /** The states a user's record can be in, whatever buttons arrive late. */
  ghost predicate WizardOk(env: W.Env, u: User) {
    && (u.awaiting.Some? || u.sendDraft.Some? ==> u.wallet.Some?)
    && (u.awaiting == Some(SendAddress) ==> u.sendDraft == None)
    && (u.awaiting == Some(SendAmount) ==> u.sendDraft.Some?)
    && (u.sendDraft.Some? ==> IsValidAddress(u.sendDraft.value.to, env.addrPrefix))
    && (u.sendDraft.Some? && u.sendDraft.value.amount == None ==> u.awaiting == Some(SendAmount))
  }

  lemma {:induction false} WizardOkKept(env: W.Env, u: User, l: L.Ledger, upd: Update)
    requires WizardOk(env, u)
    ensures WizardOk(env, React(env, u, l, upd).user)
  {
    hide ExecuteSend, IsValidAddress, Parse, Format, Trim, W.CreateWallet, W.ImportWallet;
  }

  lemma {:induction false} RunKeepsWizardOk(env: W.Env, s: State, arrivals: seq<Arrival>, id: UserId)
    requires WizardOk(env, s.users[id])
    ensures WizardOk(env, Run(env, s, arrivals).state.users[id])
  {
    hide React, WizardOk;
    if arrivals != [] {
      var n := |arrivals| - 1;
      RunKeepsWizardOk(env, s, arrivals[..n], id);
      var b := Run(env, s, arrivals[..n]).state;
      if arrivals[n].user == id {
        WizardOkKept(env, b.users[id], b.ledger, arrivals[n].update);
      }
    }
  }

  /** Records have a language from the start, so `/start` never detects one: it only greets. */
  lemma {:induction false} RunKeepsLanguage(env: W.Env, s: State, arrivals: seq<Arrival>, id: UserId, detected: Option<string>)
    requires Truthy(s.users[id].lang)
    requires forall a :: a in arrivals && a.update.ChooseLanguage? ==> a.update.code != ""
    ensures var u := Run(env, s, arrivals).state.users[id];
            Truthy(u.lang) && OnOpen(u, detected).0 == u
  {
    if arrivals != [] {
      var n := |arrivals| - 1;
      assert arrivals[n] in arrivals;
      RunKeepsLanguage(env, s, arrivals[..n], id, detected);
      LanguageKept(env, Run(env, s, arrivals[..n]).state, arrivals[n], id);
      hide Step;
    }
  }

  lemma {:induction false} LanguageKept(env: W.Env, s: State, a: Arrival, id: UserId)
    requires Truthy(s.users[id].lang) && (a.update.ChooseLanguage? ==> a.update.code != "")
    ensures Truthy(Step(env, s, a).state.users[id].lang)
  {
    hide ExecuteSend, IsValidAddress, Parse, Format, Trim, W.CreateWallet, W.ImportWallet;
  }

  // ---------- stored amounts parse ----------

  /** The values behind the amount buttons. */
  predicate Offered(pick: string) {
    pick in ["0.1", "1", "5", "custom"]
  }

  ghost predicate StoredAmountParses(env: W.Env, u: User) {
    u.sendDraft.Some? && u.sendDraft.value.amount.Some? ==>
      Parse(u.sendDraft.value.amount.value, env.denomDecimals).Ok?
  }

  lemma OneDigit(d: char)
    requires IsDigit(d)
    ensures NatOf([d]) == d as int - '0' as int
  {
    assert [d][..0] == [];
  }

  lemma {:induction false} OfferedParses(pick: string, D: nat)
    requires Offered(pick) && pick != "custom"
    ensures Parse(pick, D).Ok? <==> D >= 1 || pick != "0.1"
  {
    hide NatOf, Parse, Normalize;
    var w := if pick == "0.1" then "0" else pick;
    var f := if pick == "0.1" then "1" else "";
    OneDigit('0');
    OneDigit('1');
    OneDigit('5');
    assert NatOf("") == 0 by { NatOfZero(""); }
    assert Reads(pick, w, f);
    NormalizeReading(pick, w, f);
    ParseReading(pick, w, f, D);
  }

  lemma {:induction false} StoredAmountParsesKept(env: W.Env, u: User, l: L.Ledger, upd: Update)
    requires env.denomDecimals >= 1 && StoredAmountParses(env, u)
    requires upd.PickAmount? ==> Offered(upd.pick)
    ensures StoredAmountParses(env, React(env, u, l, upd).user)
  {
    hide ExecuteSend, IsValidAddress, Parse, Format, Trim, W.CreateWallet, W.ImportWallet;
    if upd.PickAmount? && upd.pick != "custom" {
      OfferedParses(upd.pick, env.denomDecimals);
    }
    if upd.Message? && Parse(Trim(upd.text), env.denomDecimals).Ok? {
      FormatOfParse(Trim(upd.text), env.denomDecimals);
    }
  }

  lemma {:induction false} RunKeepsAmounts(env: W.Env, s: State, arrivals: seq<Arrival>, id: UserId)
    requires env.denomDecimals >= 1 && StoredAmountParses(env, s.users[id])
    requires forall a :: a in arrivals && a.user == id && a.update.PickAmount? ==> Offered(a.update.pick)
    ensures StoredAmountParses(env, Run(env, s, arrivals).state.users[id])
  {
    hide React, StoredAmountParses;
    if arrivals != [] {
      var n := |arrivals| - 1;
      RunKeepsAmounts(env, s, arrivals[..n], id);
      var b := Run(env, s, arrivals[..n]).state;
      assert arrivals[n] in arrivals;
      if arrivals[n].user == id {
        StoredAmountParsesKept(env, b.users[id], b.ledger, arrivals[n].update);
      }
    }
  }

  /** An accepted typed amount is stored in a form that parses again exactly when there is at
      least one decimal. */
  lemma {:induction false} TypedAmountParsesIff(env: W.Env, u: User, message: string)
    requires u.awaiting == Some(SendAmount) && Truthy(Recipient(u))
    requires Parse(message, env.denomDecimals).Ok?
    ensures StoredAmountParses(env, OnMessage(env, u, message).0) <==> env.denomDecimals >= 1
  {
    ParseIgnoresOuterSpace(message, env.denomDecimals);
    var n := ParsedIsPositive(message, env.denomDecimals);
    hide Parse, Format, Trim;
    if env.denomDecimals >= 1 {
      ParseOfFormat(n, env.denomDecimals);
    } else {
      DecDenotes(n);
      NatOfZero(Dec(n));
      FormatWithoutDecimals(Dec(n));
    }
  }

  lemma ParseIgnoresOuterSpace(message: string, D: nat)
    ensures Parse(Trim(message), D) == Parse(message, D)
  {
    TrimIdempotent(message);
  }

  // ---------- a confirmation sends what was accepted last ----------

  /** The address and the amount, in the user's own words, that the bot accepted last. */
  datatype Accepted = Accepted(to: Option<string>, amount: Option<string>)

  predicate AcceptsAddress(e: Entry) {
    e.update.Message? && |e.outs| == 1 && e.outs[0].AskAmount?
  }

  predicate AcceptsAmount(e: Entry) {
    (e.update.Message? || e.update.PickAmount?) && |e.outs| == 1 && e.outs[0].AskConfirm?
  }

  /** What a record from the file was accepted with: its draft. */
  function AcceptedBefore(u: User): Accepted {
    Accepted(Recipient(u), Amount(u))
  }

  /** What was accepted last, after `start`. A new address makes the bot ask for a new amount. */
  function LastAccepted(start: Accepted, log: seq<Entry>, id: UserId): Accepted {
    if log == [] then start
    else
      var e := log[|log| - 1];
      var before := LastAccepted(start, log[..|log| - 1], id);
      if e.user != id then before
      else if AcceptsAddress(e) then Accepted(Some(Trim(e.update.text)), None)
      else if AcceptsAmount(e) then
        before.(amount := Some(if e.update.Message? then e.update.text else e.update.pick))
      else before
  }

  /** Nothing was accepted from the user in entries `from` and later. */
  predicate NothingSince(log: seq<Entry>, id: UserId, from: nat) {
    forall k :: from <= k < |log| && log[k].user == id ==> !AcceptsAddress(log[k]) && !AcceptsAmount(log[k])
  }

  lemma {:induction false} LastAcceptedKept(start: Accepted, log: seq<Entry>, id: UserId, from: nat)
    requires from <= |log| && NothingSince(log, id, from)
    ensures LastAccepted(start, log, id) == LastAccepted(start, log[..from], id)
  {
    hide AcceptsAddress, AcceptsAmount;
    var n := |log| - 1;
    if from <= n {
      LastAcceptedKept(start, log[..n], id, from);
      assert log[..n][..from] == log[..from];
    } else {
      assert log[..from] == log;
    }
  }

  lemma {:induction false} AddressStays(start: Accepted, log: seq<Entry>, id: UserId, j: nat)
    requires j < |log| && log[j].user == id && AcceptsAddress(log[j])
    requires forall k :: j < k < |log| && log[k].user == id ==> !AcceptsAddress(log[k])
    ensures LastAccepted(start, log, id).to == Some(Trim(log[j].update.text))
  {
    hide Trim, AcceptsAddress, AcceptsAmount;
    var n := |log| - 1;
    if j < n {
      AddressStays(start, log[..n], id, j);
    }
  }

  /** What was accepted last is the text of the last accepted address, without an amount, if nothing was
      accepted after it. */
  lemma {:induction false} LastAddressExact(start: Accepted, log: seq<Entry>, id: UserId, j: nat)
    requires j < |log| && log[j].user == id && AcceptsAddress(log[j]) && NothingSince(log, id, j + 1)
    ensures LastAccepted(start, log, id) == Accepted(Some(Trim(log[j].update.text)), None)
  {
    hide Trim, NothingSince;
    LastAcceptedKept(start, log, id, j + 1);
    assert log[..j + 1][..j] == log[..j];
  }

  /** With the last accepted amount, if one was accepted after that address. */
  lemma {:induction false} LastAmountExact(start: Accepted, log: seq<Entry>, id: UserId, j: nat, m: nat)
    requires j < m < |log| && log[j].user == id && AcceptsAddress(log[j])
    requires log[m].user == id && AcceptsAmount(log[m]) && NothingSince(log, id, m + 1)
    requires forall k :: j < k < m && log[k].user == id ==> !AcceptsAddress(log[k])
    ensures LastAccepted(start, log, id) ==
            Accepted(Some(Trim(log[j].update.text)),
                     Some(if log[m].update.Message? then log[m].update.text else log[m].update.pick))
  {
    hide Trim, NothingSince;
    LastAcceptedKept(start, log, id, m + 1);
    assert log[..m + 1][..m] == log[..m];
    AddressStays(start, log[..m], id, j);
  }

  /** A draft holds the accepted address and, if it parses, the accepted amount. */
  ghost predicate DraftHolds(env: W.Env, u: User, a: Accepted) {
    u.sendDraft.Some? ==>
      && a.to == Some(u.sendDraft.value.to)
      && (u.sendDraft.value.amount.Some? ==>
            && a.amount.Some?
            && var stored := Parse(u.sendDraft.value.amount.value, env.denomDecimals);
               stored.Ok? ==> stored == Parse(a.amount.value, env.denomDecimals))
  }

  lemma {:induction false} DraftHoldsKept(env: W.Env, u: User, l: L.Ledger, upd: Update,
                                          start: Accepted, log: seq<Entry>, id: UserId)
    requires DraftHolds(env, u, LastAccepted(start, log, id))
    ensures var r := React(env, u, l, upd);
            DraftHolds(env, r.user, LastAccepted(start, log + [Entry(id, upd, r.outs)], id))
  {
    hide ExecuteSend, IsValidAddress, Parse, Format, Trim, W.CreateWallet, W.ImportWallet;
    var e := Entry(id, upd, React(env, u, l, upd).outs);
    assert (log + [e])[..|log|] == log;
    if upd.Message? {
      ParseIgnoresOuterSpace(upd.text, env.denomDecimals);
      if Parse(upd.text, env.denomDecimals).Ok? {
        var n := ParsedIsPositive(upd.text, env.denomDecimals);
        RoundTripIff(n, env.denomDecimals);
        StoredTyped(n, env.denomDecimals);
      }
    }
  }

  /** A printed amount parses back to its value or, without decimals, not at all. */
  lemma StoredTyped(n: nat, D: nat)
    requires n > 0
    ensures var stored := Parse(Format(Dec(n), D), D); stored.Err? || stored == Ok(Dec(n))
  {
    if D >= 1 {
      ParseOfFormat(n, D);
    } else {
      DecDenotes(n);
      NatOfZero(Dec(n));
      FormatWithoutDecimals(Dec(n));
    }
  }

  lemma {:induction false} RunKeepsDrafts(env: W.Env, s: State, arrivals: seq<Arrival>, id: UserId)
    ensures var r := Run(env, s, arrivals);
            DraftHolds(env, r.state.users[id], LastAccepted(AcceptedBefore(s.users[id]), r.log, id))
  {
    if arrivals != [] {
      hide React, DraftHolds;
      var n := |arrivals| - 1;
      RunKeepsDrafts(env, s, arrivals[..n], id);
      var b := Run(env, s, arrivals[..n]);
      var a := arrivals[n];
      var r := React(env, b.state.users[a.user], b.state.ledger, a.update);
      var e := Entry(a.user, a.update, r.outs);
      assert (b.log + [e])[..|b.log|] == b.log;
      if a.user == id {
        DraftHoldsKept(env, b.state.users[id], b.state.ledger, a.update, AcceptedBefore(s.users[id]), b.log, id);
      }
    }
  }

  /** What a send broadcasts, if anything: the base units of its amount, from its wallet. */
  lemma {:induction false} SendFidelity(env: W.Env, l: L.Ledger, wallet: W.StoredWallet, to: string,
                                        amountInput: string, net: Network, telegram: Telegram, o: Output)
    requires o in ExecuteSend(env, l, wallet, to, amountInput, net, telegram).outs && o.Broadcast?
    ensures o.sender == wallet.address && o.to == to && W.Consistent(env, wallet)
    ensures Parse(amountInput, env.denomDecimals) == Ok(Dec(o.base))
  {
    hide Parse, Format, NatOf, Itoa, W.Unlock;
    var n := ParsedIsPositive(amountInput, env.denomDecimals);
    DecDenotes(n);
  }

  lemma {:induction false} ConfirmSendsDraft(env: W.Env, s: State, a: Arrival, o: Output)
    requires a.update.ConfirmSend? && o in Step(env, s, a).log[0].outs && o.Broadcast?
    ensures var u := s.users[a.user];
            && u.wallet.Some? && o.sender == u.wallet.value.address && W.Consistent(env, u.wallet.value)
            && u.sendDraft.Some? && u.sendDraft.value.amount.Some? && o.to == u.sendDraft.value.to
            && Parse(u.sendDraft.value.amount.value, env.denomDecimals) == Ok(Dec(o.base))
  {
    hide ExecuteSend, Parse, W.Consistent;
    var u := s.users[a.user];
    SendFidelity(env, s.ledger, u.wallet.value, u.sendDraft.value.to, u.sendDraft.value.amount.value,
                 a.update.net, a.update.telegram, o);
  }

  /** Whenever a confirmation broadcasts, in a run from any state, it sends from the user's own wallet
      to the address the bot accepted last, exactly the base units of the amount accepted last
      after that address; a draft that was there at the start counts as accepted before. This holds
      for every number of decimals, although a typed amount was parsed, printed, stored and parsed
      again. The address is valid unless an initial draft of this user had an invalid one. */
  lemma {:induction false} ConfirmFidelity(env: W.Env, s: State, arrivals: seq<Arrival>, i: nat, o: Output)
    requires i < |arrivals| && arrivals[i].update.ConfirmSend?
    requires o in Run(env, s, arrivals).log[i].outs && o.Broadcast?
    ensures var id := arrivals[i].user;
            var accepted := LastAccepted(AcceptedBefore(s.users[id]), Run(env, s, arrivals).log[..i], id);
            && accepted.to == Some(o.to)
            && accepted.amount.Some?
            && Parse(accepted.amount.value, env.denomDecimals) == Ok(Dec(o.base))
            && (WizardOk(env, s.users[id]) ==> IsValidAddress(o.to, env.addrPrefix))
            && Run(env, s, arrivals).state.users[id].wallet.Some?
            && o.sender == Run(env, s, arrivals).state.users[id].wallet.value.address
  {
    hide Step, Parse, IsValidAddress, LastAccepted;
    var id := arrivals[i].user;
    LogAt(env, s, arrivals, i);
    RunKeepsDrafts(env, s, arrivals[..i], id);
    if WizardOk(env, s.users[id]) {
      RunKeepsWizardOk(env, s, arrivals[..i], id);
    }
    var b := Before(env, s, arrivals, i);
    assert Run(env, s, arrivals).log[i] == Step(env, b, arrivals[i]).log[0];
    ConfirmSendsDraft(env, b, arrivals[i], o);
    assert arrivals == arrivals[..i] + arrivals[i..];
    RunSplits(env, s, arrivals[..i], arrivals[i..]);
    WalletsWriteOnce(env, b, arrivals[i..], id);
  }

  /** Only confirmations and quick sends broadcast. A quick send goes from the user's own wallet to
      the valid address of its command and carries exactly the base units of the amount typed. */
  lemma {:induction false} QuickSendFidelity(env: W.Env, u: User, l: L.Ledger, upd: Update, o: Output)
    requires !upd.ConfirmSend? && o in React(env, u, l, upd).outs && o.Broadcast?
    ensures upd.QuickSend? && o.to == upd.to && IsValidAddress(o.to, env.addrPrefix)
    ensures Parse(upd.amount, env.denomDecimals) == Ok(Dec(o.base))
    ensures u.wallet.Some? && o.sender == u.wallet.value.address && W.Consistent(env, u.wallet.value)
  {
    hide ExecuteSend, IsValidAddress, Parse, Format, Trim, W.Consistent, W.CreateWallet, W.ImportWallet;
    SendFidelity(env, l, u.wallet.value, upd.to, upd.amount, upd.net, upd.telegram, o);
  }

  /** A send broadcasts exactly when the amount parses, the node can be asked, the balance covers
      amount and fee, the user could be told, and the node accepts. */
  lemma {:induction false} SendIff(env: W.Env, l: L.Ledger, wallet: W.StoredWallet, to: string,
                                   amountInput: string, net: Network, telegram: Telegram)
    ensures var parsed := Parse(amountInput, env.denomDecimals);
            var outs := ExecuteSend(env, l, wallet, to, amountInput, net, telegram).outs;
            if parsed.Ok? && net.reachable && telegram.first && NodeAccepts(env, wallet, net)
               && L.Balance(l, L.User(wallet.address)) >= NatOf(parsed.value) + FEE_BASE
            then |outs| >= 2 && outs[1] == Broadcast(wallet.address, to, NatOf(parsed.value))
            else forall o :: o in outs ==> !o.Broadcast?
  {
    hide Parse, Format, NatOf, Itoa, W.Unlock, L.Transfer, L.Balance;
  }

  lemma {:induction false} ShownNotEmpty(base: string, D: nat)
    ensures Format(base, D) != ""
  {
    hide Slice, StripZeros;
  }

  /** The draft after starting to send, an accepted address and an accepted amount. */
  lemma {:induction false} WizardDraft(env: W.Env, u: User, to: string, amount: string)
    requires u.wallet.Some? && IsValidAddress(Trim(to), env.addrPrefix) && Parse(amount, env.denomDecimals).Ok?
    ensures var shown := Format(Parse(amount, env.denomDecimals).value, env.denomDecimals);
            OnMessage(env, OnMessage(env, OnBeginSend(u).0, to).0, amount).0 ==
            u.(sendDraft := Some(SendDraft(Trim(to), Some(shown))), awaiting := None)
    ensures Trim(to) != ""
  {
    assert Trim(to) != "";
    ParseIgnoresOuterSpace(amount, env.denomDecimals);
    hide IsValidAddress, Parse, Format, Trim;
  }

  /** The wizard from start to end, with an address and an amount that the bot accepts, enough
      funds, and a node and a chat that answer: the transfer goes out exactly when there is at
      least one decimal, and then with this address and amount. */
  lemma {:induction false} WizardDeliversIff(env: W.Env, u: User, l: L.Ledger, to: string, amount: string,
                                             net: Network, telegram: Telegram)
    requires u.wallet.Some? && W.Consistent(env, u.wallet.value)
    requires IsValidAddress(Trim(to), env.addrPrefix) && Parse(amount, env.denomDecimals).Ok?
    requires net.reachable && net.delivery.Delivered? && telegram.answer && telegram.first
    requires L.Balance(l, L.User(u.wallet.value.address)) >= NatOf(Parse(amount, env.denomDecimals).value) + FEE_BASE
    ensures var ready := OnMessage(env, OnMessage(env, OnBeginSend(u).0, to).0, amount).0;
            var outs := OnConfirm(env, ready, l, net, telegram).outs;
            && ((exists o :: o in outs && o.Broadcast?) <==> env.denomDecimals >= 1)
            && (env.denomDecimals >= 1 ==>
                  Broadcast(u.wallet.value.address, Trim(to), NatOf(Parse(amount, env.denomDecimals).value)) in outs)
  {
    hide ExecuteSend, IsValidAddress, Parse, Format, Trim, NatOf, Dec, W.Unlock, L.Balance, OnMessage, OnBeginSend;
    var D := env.denomDecimals;
    WizardDraft(env, u, to, amount);
    var n := ParsedIsPositive(amount, D);
    RoundTripIff(n, D);
    StoredTyped(n, D);
    ShownNotEmpty(Dec(n), D);
    var shown := Format(Dec(n), D);
    SendIff(env, l, u.wallet.value, Trim(to), shown, net, telegram);
    var outs := ExecuteSend(env, l, u.wallet.value, Trim(to), shown, net, telegram).outs;
    if D >= 1 {
      assert outs[1] in outs;
    }
  }

  // ---------- wallets are written once ----------

  lemma {:induction false} WalletKept(env: W.Env, u: User, l: L.Ledger, upd: Update)
    requires u.wallet.Some?
    ensures React(env, u, l, upd).user.wallet == u.wallet
  {
    hide ExecuteSend, IsValidAddress, Parse, Format, Trim, W.CreateWallet, W.ImportWallet;
  }

  /** No run replaces or removes a wallet. */
  lemma {:induction false} WalletsWriteOnce(env: W.Env, s: State, arrivals: seq<Arrival>, id: UserId)
    requires s.users[id].wallet.Some?
    ensures Run(env, s, arrivals).state.users[id].wallet == s.users[id].wallet
  {
    hide React;
    if arrivals != [] {
      var n := |arrivals| - 1;
      WalletsWriteOnce(env, s, arrivals[..n], id);
      var b := Run(env, s, arrivals[..n]).state;
      if arrivals[n].user == id {
        WalletKept(env, b.users[id], b.ledger, arrivals[n].update);
      }
    }
  }

  /** A user's record depends on nobody else's updates: it is left alone by them. */
  lemma {:induction false} OthersUntouched(env: W.Env, s: State, arrivals: seq<Arrival>, id: UserId)
    requires forall a :: a in arrivals ==> a.user != id
    ensures Run(env, s, arrivals).state.users[id] == s.users[id]
  {
    hide React;
    if arrivals != [] {
      var n := |arrivals| - 1;
      assert arrivals[n] in arrivals;
      OthersUntouched(env, s, arrivals[..n], id);
    }
  }

  // ---------- how often a confirmation can send ----------

  ghost predicate Broadcasts(e: Entry) {
    exists i :: 0 <= i < |e.outs| && e.outs[i].Broadcast?
  }

  ghost predicate ConfirmBroadcasts(e: Entry) {
    e.update.ConfirmSend? && Broadcasts(e)
  }

  /** The transfer went out, but neither the success reply nor the error reply reached the user. */
  ghost predicate LostBroadcast(e: Entry) {
    ConfirmBroadcasts(e) && !e.update.telegram.success && !e.update.telegram.error
  }

  /** How many of a user's entries have a property. */
  ghost function Count(log: seq<Entry>, id: UserId, p: Entry -> bool): nat {
    if log == [] then 0
    else
      var e := log[|log| - 1];
      Count(log[..|log| - 1], id, p) + if e.user == id && p(e) then 1 else 0
  }

  /** The positions of a user's entries that have a property. */
  ghost function Positions(log: seq<Entry>, id: UserId, p: Entry -> bool): set<int> {
    set i | 0 <= i < |log| && log[i].user == id && p(log[i])
  }

  lemma PositionsNext(log: seq<Entry>, id: UserId, p: Entry -> bool)
    requires log != []
    ensures var n := |log| - 1;
            var before := Positions(log[..n], id, p);
            n !in before && Positions(log, id, p) == before + if log[n].user == id && p(log[n]) then {n} else {}
  {
  }

  /** The count is the number of such positions. */
  lemma {:induction false} CountIsCardinality(log: seq<Entry>, id: UserId, p: Entry -> bool)
    ensures Count(log, id, p) == |Positions(log, id, p)|
  {
    if log == [] {
      assert Positions(log, id, p) == {};
    } else {
      hide Positions;
      PositionsNext(log, id, p);
      CountIsCardinality(log[..|log| - 1], id, p);
    }
  }

  ghost function Pending(u: User): nat {
    if u.sendDraft.Some? then 1 else 0
  }

  /** A send that throws after its broadcast lost both replies. */
  lemma {:induction false} ThrewAfterBroadcast(env: W.Env, l: L.Ledger, wallet: W.StoredWallet, to: string,
                                               amountInput: string, net: Network, telegram: Telegram)
    ensures var r := ExecuteSend(env, l, wallet, to, amountInput, net, telegram);
            r.threw && (exists i :: 0 <= i < |r.outs| && r.outs[i].Broadcast?) ==>
              !telegram.success && !telegram.error
  {
    hide Parse, Format, NatOf, Itoa, W.Unlock, L.Transfer, L.Balance;
  }

  lemma {:induction false} CountStep(env: W.Env, u: User, l: L.Ledger, upd: Update, id: UserId)
    ensures var r := React(env, u, l, upd);
            var e := Entry(id, upd, r.outs);
            (if ConfirmBroadcasts(e) then 1 else 0) + Pending(r.user)
            <= Pending(u) + (if AcceptsAddress(e) then 1 else 0) + (if LostBroadcast(e) then 1 else 0)
  {
    hide ExecuteSend, IsValidAddress, Parse, Format, Trim, W.CreateWallet, W.ImportWallet, W.Mnemonic;
    if upd.ConfirmSend? && u.wallet.Some? && Truthy(Recipient(u)) && Truthy(Amount(u)) && upd.telegram.answer {
      ThrewAfterBroadcast(env, l, u.wallet.value, u.sendDraft.value.to, u.sendDraft.value.amount.value,
                          upd.net, upd.telegram);
    }
  }

  /** In every run a user's confirmations broadcast at most as often as the bot accepted an address
      from that user, not counting confirmations whose replies were all lost. */
  lemma {:induction false} ConfirmsBounded(env: W.Env, s: State, arrivals: seq<Arrival>, id: UserId)
    ensures var r := Run(env, s, arrivals);
            Count(r.log, id, ConfirmBroadcasts) + Pending(r.state.users[id])
            <= Pending(s.users[id]) + Count(r.log, id, AcceptsAddress) + Count(r.log, id, LostBroadcast)
  {
    if arrivals != [] {
      hide React, ConfirmBroadcasts, AcceptsAddress, LostBroadcast;
      var n := |arrivals| - 1;
      ConfirmsBounded(env, s, arrivals[..n], id);
      var b := Run(env, s, arrivals[..n]);
      var r := Run(env, s, arrivals);
      assert r.log[..n] == b.log;
      CountStep(env, b.state.users[arrivals[n].user], b.state.ledger, arrivals[n].update, arrivals[n].user);
    }
  }

  /** After a confirmation that broadcast, pressing the button again, with the node and Telegram
      answering and enough funds left, broadcasts again exactly when both replies of the first
      one were lost: only then is the draft still there. */
  lemma {:induction false} SecondConfirmIff(env: W.Env, u: User, l: L.Ledger, net: Network, telegram: Telegram,
                                            net': Network, telegram': Telegram, o: Output)
    requires o in OnConfirm(env, u, l, net, telegram).outs && o.Broadcast?
    requires telegram'.answer && telegram'.first && net'.reachable && net'.delivery.Delivered?
    requires L.Balance(OnConfirm(env, u, l, net, telegram).ledger, L.User(o.sender)) >= o.base + FEE_BASE
    ensures var r := OnConfirm(env, u, l, net, telegram);
            (exists o' :: o' in OnConfirm(env, r.user, r.ledger, net', telegram').outs && o'.Broadcast?) <==>
            !telegram.success && !telegram.error
  {
    hide Parse, Format, NatOf, Itoa, W.Unlock, L.Transfer, L.Balance;
    var r := OnConfirm(env, u, l, net, telegram);
    var outs := OnConfirm(env, r.user, r.ledger, net', telegram').outs;
    if !telegram.success && !telegram.error {
      assert outs[1].Broadcast?;
    } else {
      assert outs == [];
    }
  }

  // ---------- balances ----------

  /** The ledger after the transfers recorded in a list of outputs. */
  function Settled(l: L.Ledger, outs: seq<Output>): L.Ledger {
    if outs == [] then l
    else
      var o := outs[|outs| - 1];
      var before := Settled(l, outs[..|outs| - 1]);
      if o.Broadcast? then L.Transfer(before, o.sender, o.to, o.base, FEE_BASE) else before
  }

  function SettledLog(l: L.Ledger, log: seq<Entry>): L.Ledger {
    if log == [] then l
    else Settled(SettledLog(l, log[..|log| - 1]), log[|log| - 1].outs)
  }

  lemma {:induction false} SettledQuiet(l: L.Ledger, outs: seq<Output>)
    requires forall i :: 0 <= i < |outs| ==> !outs[i].Broadcast?
    ensures Settled(l, outs) == l
  {
    if outs != [] {
      SettledQuiet(l, outs[..|outs| - 1]);
    }
  }

  lemma {:induction false} SettledOne(l: L.Ledger, outs: seq<Output>)
    requires |outs| >= 2 && outs[1].Broadcast?
    requires forall i :: 0 <= i < |outs| && i != 1 ==> !outs[i].Broadcast?
    ensures Settled(l, outs) == L.Transfer(l, outs[1].sender, outs[1].to, outs[1].base, FEE_BASE)
  {
    hide L.Transfer;
    var n := |outs| - 1;
    if n == 1 {
      SettledQuiet(l, outs[..1]);
    } else {
      SettledOne(l, outs[..n]);
    }
  }

  /** At most one transfer, of funds the sender has, fee included. */
  ghost predicate Funded(l: L.Ledger, outs: seq<Output>) {
    forall i :: 0 <= i < |outs| && outs[i].Broadcast? ==>
      i == 1 && L.Balance(l, L.User(outs[i].sender)) >= outs[i].base + FEE_BASE
  }

  lemma {:induction false} SendingFunded(env: W.Env, l: L.Ledger, wallet: W.StoredWallet, to: string,
                                         amountInput: string, net: Network, telegram: Telegram)
    ensures var r := ExecuteSend(env, l, wallet, to, amountInput, net, telegram);
            r.ledger == Settled(l, r.outs) && Funded(l, r.outs)
  {
    hide Parse, Format, NatOf, Itoa, W.Unlock, L.Transfer, L.Balance;
    PaidFeeIsNumeral();
    var outs := ExecuteSend(env, l, wallet, to, amountInput, net, telegram).outs;
    if |outs| >= 2 && outs[1].Broadcast? {
      SettledOne(l, outs);
    } else {
      SettledQuiet(l, outs);
    }
  }

  lemma {:induction false} ReactionFunded(env: W.Env, u: User, l: L.Ledger, upd: Update)
    ensures var r := React(env, u, l, upd);
            r.ledger == Settled(l, r.outs) && Funded(l, r.outs)
  {
    hide IsValidAddress, Parse, Format, NatOf, W.CreateWallet, W.ImportWallet, ExecuteSend, Settled;
    var r := React(env, u, l, upd);
    if upd.ConfirmSend? && u.wallet.Some? && Truthy(Recipient(u)) && Truthy(Amount(u)) && upd.telegram.answer {
      SendingFunded(env, l, u.wallet.value, u.sendDraft.value.to, u.sendDraft.value.amount.value, upd.net, upd.telegram);
    } else if upd.QuickSend? && u.wallet.Some? && IsValidAddress(upd.to, env.addrPrefix) {
      SendingFunded(env, l, u.wallet.value, upd.to, upd.amount, upd.net, upd.telegram);
    } else {
      SettledQuiet(l, r.outs);
    }
  }

  lemma FundedSettles(l: L.Ledger, outs: seq<Output>)
    requires L.Solvent(l) && Funded(l, outs)
    ensures L.Solvent(Settled(l, outs)) && L.Total(Settled(l, outs)) == L.Total(l)
  {
    if |outs| >= 2 && outs[1].Broadcast? {
      SettledOne(l, outs);
      L.TransferSafe(l, outs[1].sender, outs[1].to, outs[1].base, FEE_BASE);
    } else {
      SettledQuiet(l, outs);
    }
  }

  /** In every run the ledger is the initial one with exactly the logged transfers settled in
      order, nobody is ever overdrawn, and the total, fee collector included, is constant. */
  lemma {:induction false} LedgerSafe(env: W.Env, s: State, arrivals: seq<Arrival>)
    requires L.Solvent(s.ledger)
    ensures var r := Run(env, s, arrivals);
            && r.state.ledger == SettledLog(s.ledger, r.log)
            && L.Solvent(r.state.ledger)
            && L.Total(r.state.ledger) == L.Total(s.ledger)
  {
    if arrivals != [] {
      hide React, Settled, L.Solvent, L.Total, Funded;
      var n := |arrivals| - 1;
      LedgerSafe(env, s, arrivals[..n]);
      var b := Run(env, s, arrivals[..n]);
      var u := b.state.users[arrivals[n].user];
      var r := Run(env, s, arrivals);
      assert r.log[..n] == b.log;
      ReactionFunded(env, u, b.state.ledger, arrivals[n].update);
      FundedSettles(b.state.ledger, React(env, u, b.state.ledger, arrivals[n].update).outs);
    }
  }

  // ---------- stored secrets ----------

  ghost predicate WalletConsistent(env: W.Env, u: User) {
    u.wallet.Some? ==> W.Consistent(env, u.wallet.value)
  }

  /** What the libraries promise of generated wallets and nonces, and what a consistent import needs. */
  ghost predicate WellFormed(env: W.Env, upd: Update) {
    && (upd.NewWallet? ==> |upd.iv| == 12 && env.derive(upd.mnemonic) == Some(upd.address))
    && (upd.Import? ==> |upd.iv| == 12 && W.SingleSpaced(W.Stored(upd.text)))
  }

  lemma {:induction false} ImportRefused(env: W.Env, text: string, iv: Bytes, now: string)
    requires W.ImportFromMnemonic(env, text).Err?
    ensures W.ImportWallet(env, text, iv, now).Err?
  {
    hide W.ImportFromMnemonic, EncryptSecret;
  }

  lemma {:induction false} WalletConsistentKept(env: W.Env, u: User, l: L.Ledger, upd: Update)
    requires env.Lawful() && WalletConsistent(env, u) && WellFormed(env, upd)
    ensures WalletConsistent(env, React(env, u, l, upd).user)
  {
    hide W.Env.Lawful, ExecuteSend, IsValidAddress, Parse, Format, Trim, W.CreateWallet, W.ImportWallet,
      W.ImportFromMnemonic, W.Unlock, W.Mnemonic;
    if upd.NewWallet? {
      W.CreatedConsistent(env, upd.address, upd.mnemonic, upd.iv, upd.now);
    } else if upd.Import? {
      TrimIdempotent(upd.text);
      if W.ImportFromMnemonic(env, Trim(upd.text)).Ok? {
        W.ImportedConsistentIff(env, Trim(upd.text), upd.iv, upd.now);
      } else {
        ImportRefused(env, Trim(upd.text), upd.iv, upd.now);
      }
    }
  }

  /** In every run a user whose imports are single-spaced keeps a wallet that unlocks to its address. */
  lemma {:induction false} WalletsStayConsistent(env: W.Env, s: State, arrivals: seq<Arrival>, id: UserId)
    requires env.Lawful() && WalletConsistent(env, s.users[id])
    requires forall a :: a in arrivals && a.user == id ==> WellFormed(env, a.update)
    ensures WalletConsistent(env, Run(env, s, arrivals).state.users[id])
  {
    hide React, WalletConsistent, WellFormed, W.Env.Lawful;
    if arrivals != [] {
      var n := |arrivals| - 1;
      WalletsStayConsistent(env, s, arrivals[..n], id);
      var b := Run(env, s, arrivals[..n]).state;
      assert arrivals[n] in arrivals;
      if arrivals[n].user == id {
        WalletConsistentKept(env, b.users[id], b.ledger, arrivals[n].update);
      }
    }
  }

  lemma {:induction false} InconsistentNeverSends(env: W.Env, u: User, l: L.Ledger, upd: Update, i: nat)
    requires u.wallet.Some? && !W.Consistent(env, u.wallet.value)
    requires i < |React(env, u, l, upd).outs|
    ensures !React(env, u, l, upd).outs[i].Broadcast?
  {
    hide IsValidAddress, Parse, Format, Trim, NatOf, W.CreateWallet, W.ImportWallet, W.Unlock;
  }

  /** A wallet that does not unlock to its address, as after an import with other white space,
      never sends anything: no update of its owner broadcasts for the rest of the run. */
  lemma {:induction false} LockedOut(env: W.Env, s: State, arrivals: seq<Arrival>, i: nat)
    requires i < |arrivals|
    requires var u := s.users[arrivals[i].user]; u.wallet.Some? && !W.Consistent(env, u.wallet.value)
    ensures !Broadcasts(Run(env, s, arrivals).log[i])
  {
    hide React, W.Consistent;
    LogAt(env, s, arrivals, i);
    var b := Before(env, s, arrivals, i);
    var a := arrivals[i];
    WalletsWriteOnce(env, s, arrivals[..i], a.user);
    assert Run(env, s, arrivals).log[i] == Step(env, b, a).log[0];
    forall k | 0 <= k < |React(env, b.users[a.user], b.ledger, a.update).outs|
      ensures !React(env, b.users[a.user], b.ledger, a.update).outs[k].Broadcast?
    {
      InconsistentNeverSends(env, b.users[a.user], b.ledger, a.update, k);
    }
  }
}
