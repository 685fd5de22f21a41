/** Concrete inputs: the libraries' laws can be met, the wizard can send, and the failures that the
    exact conditions describe do occur. */
module Witnesses {
  import opened Wrappers
  import opened Text
  import opened Amounts
  import opened Crypto
  import opened Storage
  import opened Wizard
  import opened WizardRuns
  import Testnet
  import W = Wallets
  import L = Ledgers

  // ---------- libraries that meet their laws ----------

  /** Every character as three bytes. */
  function Encode(s: string): Bytes {
    if s == "" then []
    else
      var n := s[0] as int;
      [(n / 65536) as byte, (n / 256 % 256) as byte, (n % 256) as byte] + Encode(s[1..])
  }

  function CharOf(n: int): char {
    if 0 <= n < 0xD800 || 0xE000 <= n < 0x11_0000 then n as char else '?'
  }

  function Decode(bytes: Bytes): string {
    if |bytes| < 3 then ""
    else [CharOf(bytes[0] as int * 65536 + bytes[1] as int * 256 + bytes[2] as int)] + Decode(bytes[3..])
  }

  lemma {:induction false} DecodeEncode(s: string)
    ensures Decode(Encode(s)) == s
  {
    if s != "" {
      DecodeEncode(s[1..]);
      var n := s[0] as int;
      assert n == n / 65536 * 65536 + n / 256 % 256 * 256 + n % 256;
      assert Encode(s)[3..] == Encode(s[1..]);
    }
  }

  /** A cipher that hides nothing, but keeps its promises. */
  function PlainCipher(): Cipher {
    Cipher((k, iv, p) => Sealed(p, seq(16, _ => 0)), (k, iv, tag, data) => Some(data),
           s => Encode(s), bytes => Decode(bytes))
  }

  const SENDER := "mrph1sender"

  function Derive(mnemonic: string): Option<string> {
    if W.SingleSpaced(mnemonic) && mnemonic != "" then Some(SENDER) else None
  }

  function PlainEnv(D: nat): W.Env {
    W.Env(D, "mrph", Repeat('0', 64), PlainCipher(), m => Derive(m))
  }

  lemma PlainEnvLawful(D: nat)
    ensures PlainEnv(D).Lawful()
  {
    TrimmedStays(Repeat('0', 64));
    forall s
      ensures Decode(Encode(s)) == s
    {
      DecodeEncode(s);
    }
  }

  // ---------- the wizard sends, and can send twice ----------

  const RECIPIENT := "mrph" + Repeat('q', 38)

  function Nonce(): Bytes {
    seq(12, _ => 0)
  }

  /** A user who created a wallet and has no wizard under way. */
  function Owner(): User {
    match W.CreateWallet(PlainEnv(6), SENDER, "m", Nonce(), "")
    case Ok(wallet) => NEW_USER.(wallet := Some(wallet))
    case Err(_) => NEW_USER
  }

  lemma OwnerConsistent()
    ensures Owner().wallet.Some? && W.Consistent(PlainEnv(6), Owner().wallet.value)
    ensures Owner().wallet.value.address == SENDER
  {
    PlainEnvLawful(6);
    W.CreatedConsistent(PlainEnv(6), SENDER, "m", Nonce(), "");
  }

  function Funds(): L.Ledger {
    map[L.User(SENDER) := 10_000_000]
  }

  lemma OneToken()
    ensures Parse("1", 6) == Ok(Dec(1_000_000)) && NatOf(Dec(1_000_000)) == 1_000_000
  {
    OneDigit('1');
    assert NatOf("") == 0 by { NatOfZero(""); }
    assert Pow10(1) == 10;
    assert Pow10(2) == 100;
    assert Pow10(3) == 1000;
    assert Pow10(4) == 10000;
    assert Pow10(5) == 100000;
    assert Pow10(6) == 1_000_000;
    assert Reads("1", "1", "");
    NormalizeReading("1", "1", "");
    assert BaseUnits("1", "", 6) == 1_000_000;
    ParseReading("1", "1", "", 6);
    DecDenotes(1_000_000);
  }

  /** The draft of the owner after the recipient and the amount "1" were accepted. */
  function Ready(): User {
    OnMessage(PlainEnv(6), OnMessage(PlainEnv(6), OnBeginSend(Owner()).0, RECIPIENT).0, "1").0
  }

  const NODE := Network(true, Delivered("hash"))

  /** A wizard from start to end broadcasts one token; when the success reply and the error reply
      of the confirmation are lost, pressing the button again broadcasts it once more. */
  lemma {:induction false} DoubleSendWitness()
    ensures var env := PlainEnv(6);
            var first := OnConfirm(env, Ready(), Funds(), NODE, Telegram(true, true, false, false));
            var second := OnConfirm(env, first.user, first.ledger, NODE, Telegram(true, true, true, true));
            && Broadcast(SENDER, RECIPIENT, 1_000_000) in first.outs
            && (exists o :: o in second.outs && o.Broadcast?)
  {
    hide Parse, Format, NatOf, Dec, Trim, IsValidAddress, Owner, PlainEnv, OnConfirm, OnMessage, OnBeginSend,
      L.Transfer, W.Unlock;
    var env := PlainEnv(6);
    var u := Owner();
    var lost := Telegram(true, true, false, false);
    OwnerConsistent();
    OneToken();
    RecipientValid();
    EnvFields();
    WizardDeliversIff(env, u, Funds(), RECIPIENT, "1", NODE, lost);
    var o := Broadcast(SENDER, RECIPIENT, 1_000_000);
    var first := OnConfirm(env, Ready(), Funds(), NODE, lost);
    assert o in first.outs;
    FundsLeft(env, Ready(), lost);
    SecondConfirmIff(env, Ready(), Funds(), NODE, lost, NODE, Telegram(true, true, true, true), o);
  }

  lemma EnvFields()
    ensures PlainEnv(6).denomDecimals == 6 && PlainEnv(6).addrPrefix == "mrph"
  {
  }

  lemma RecipientValid()
    ensures Trim(RECIPIENT) == RECIPIENT && IsValidAddress(RECIPIENT, "mrph")
  {
    assert RECIPIENT[4..] == Repeat('q', 38);
    TrimmedStays(RECIPIENT);
  }

  /** The first confirmation leaves enough for the second one. */
  lemma {:induction false} FundsLeft(env: W.Env, u: User, telegram: Telegram)
    requires Broadcast(SENDER, RECIPIENT, 1_000_000) in OnConfirm(env, u, Funds(), NODE, telegram).outs
    ensures L.Balance(OnConfirm(env, u, Funds(), NODE, telegram).ledger, L.User(SENDER)) >= 1_000_000 + FEE_BASE
  {
    hide OnConfirm, L.Transfer, Settled;
    var r := OnConfirm(env, u, Funds(), NODE, telegram);
    ReactionFunded(env, u, Funds(), ConfirmSend(NODE, telegram));
    var k :| 0 <= k < |r.outs| && r.outs[k] == Broadcast(SENDER, RECIPIENT, 1_000_000);
    assert k == 1;
    SettledOne(Funds(), r.outs);
    assert SENDER != RECIPIENT by { assert |SENDER| == 11; }
    L.TransferSafe(Funds(), SENDER, RECIPIENT, 1_000_000, FEE_BASE);
  }

  // ---------- an import that locks its owner out ----------

  /** n words separated by single spaces. */
  function Words(n: nat): string
    requires n >= 1
  {
    if n == 1 then "a" else "a " + Words(n - 1)
  }

  lemma {:induction false} WordsShape(n: nat)
    requires n >= 1
    ensures Words(n) != "" && Words(n)[0] == 'a' && Words(n)[|Words(n)| - 1] == 'a'
    ensures forall i :: 0 <= i < |Words(n)| ==> Words(n)[i] == 'a' || Words(n)[i] == ' '
  {
    if n > 1 {
      WordsShape(n - 1);
    }
  }

  lemma {:induction false} WordsSplit(n: nat)
    requires n >= 1
    ensures |Split(Words(n), ' ')| == n
  {
    if n == 1 {
      SplitFree("a", ' ');
    } else {
      WordsSplit(n - 1);
      assert Words(n) == "a" + [' '] + Words(n - 1);
      SplitCons("a", ' ', Words(n - 1));
    }
  }

  lemma {:induction false} WordsSpaced(n: nat)
    requires n >= 1
    ensures W.SingleSpaced(Words(n))
  {
    hide W.SingleSpaced;
    if n == 1 {
      W.SingleSpacedTail("a");
      W.CollapseFixedIff("");
      assert "a"[1..] == "";
    } else {
      var s := Words(n);
      WordsSpaced(n - 1);
      WordsShape(n - 1);
      assert s[1..] == " " + Words(n - 1) && s[1..][1..] == Words(n - 1);
      W.SingleSpacedTail(s);
      W.SingleSpacedTail(s[1..]);
    }
  }

  /** Twelve words, two spaces after the first. */
  function DoubledSpace(): string {
    "a  " + Words(11)
  }

  lemma LowerStays(s: string)
    requires forall i :: 0 <= i < |s| ==> s[i] == 'a' || s[i] == ' '
    ensures W.Lower(s) == s
  {
  }

  lemma CollapseStep(s: string)
    requires s != ""
    ensures W.Collapse(s) == if IsSpace(s[0]) then " " + W.Collapse(TrimStart(s)) else [s[0]] + W.Collapse(s[1..])
  {
  }

  lemma TrimStartTwo(rest: string)
    requires rest != "" && !IsSpace(rest[0])
    ensures TrimStart("  " + rest) == rest
  {
    var spaced := "  " + rest;
    assert spaced[1..] == " " + rest && spaced[1..][1..] == rest;
    assert TrimStart(spaced[1..]) == TrimStart(rest) == rest;
  }

  lemma {:induction false} DoubledCollapses(rest: string)
    requires W.SingleSpaced(rest) && rest != "" && rest[0] == 'a'
    ensures W.Collapse("a  " + rest) == "a " + rest
  {
    hide W.SingleSpaced, W.Collapse, TrimStart;
    var spaced := "  " + rest;
    assert ("a  " + rest)[1..] == spaced;
    CollapseStep("a  " + rest);
    CollapseStep(spaced);
    TrimStartTwo(rest);
    W.CollapseFixedIff(rest);
  }

  lemma {:induction false} DoubledSpaceFacts()
    ensures W.Stored(DoubledSpace()) == DoubledSpace()
    ensures W.Collapse(DoubledSpace()) == Words(12)
    ensures !W.SingleSpaced(DoubledSpace())
  {
    hide W.Lower, W.Collapse, Trim;
    var text := DoubledSpace();
    WordsShape(11);
    WordsSpaced(11);
    TrimmedStays(text);
    LowerStays(text);
    DoubledCollapses(Words(11));
    assert text[1] == ' ' && text[2] == ' ';
  }

  /** The bot accepts this import, and its owner can never send. */
  lemma {:induction false} ImportWitness()
    ensures var env := PlainEnv(6);
            var imported := W.ImportWallet(env, DoubledSpace(), Nonce(), "");
            && imported.Ok? && imported.value.address == SENDER
            && W.Unlock(env, imported.value) == None
  {
    hide W.Collapse, W.Stored, Trim, DoubledSpace, PlainCipher, Words, W.SingleSpaced, W.Unlock, EncryptSecret;
    var env := PlainEnv(6);
    PlainEnvLawful(6);
    DoubledSpaceFacts();
    WordsSplit(12);
    WordsSpaced(12);
    WordsShape(12);
    assert env.derive(Words(12)) == Some(SENDER);
    assert W.ImportFromMnemonic(env, DoubledSpace()) == Ok(SENDER) by {
      ImportsCollapsed(env, DoubledSpace());
    }
    W.ImportedConsistentIff(env, DoubledSpace(), Nonce(), "");
  }

  lemma ImportsCollapsed(env: W.Env, text: string)
    ensures var normalized := W.Collapse(W.Stored(text));
            |Split(normalized, ' ')| == 12 && env.derive(normalized).Some? ==>
              W.ImportFromMnemonic(env, text) == Ok(env.derive(normalized).value)
  {
  }

  // ---------- a file that its own directory does not recognise ----------

  lemma DotDotWitness()
    ensures ["gentx"] < ["gentx", "..x"] && !Testnet.IsSubDir(["gentx", "..x"], ["gentx"])
  {
    assert Testnet.Component("gentx") && Testnet.Component("..x");
    assert HasPrefix("..x", "..");
    Testnet.IsSubDirIff(["gentx", "..x"], ["gentx"]);
  }
}
