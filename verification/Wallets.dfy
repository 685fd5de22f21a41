/** Wallet creation, import and unlocking (telegram-bot/src/chain.ts, telegram-bot/src/bot.ts). */
module Wallets {
  import opened Wrappers
  import opened Text
  import opened Crypto

  datatype StoredWallet = StoredWallet(address: string, encryptedMnemonic: string, createdAt: string)

  /** The bot's configuration and the libraries it calls. `derive` is the address that the wallet
      library derives from a mnemonic, `None` where the library throws. */
  datatype Env = Env(
    denomDecimals: nat,
    addrPrefix: string,
    encryptionKey: string,
    cipher: Cipher,
    derive: string -> Option<string>)
  {
    /** The wallet library accepts only words separated by single spaces. */
    ghost predicate Lawful() {
      && cipher.Lawful()
      && KeyFromHex(encryptionKey).Some?
      && forall m :: derive(m).Some? ==> SingleSpaced(m) && m != ""
    }
  }

  /** Lower case, as far as the result can be an ASCII letter; the Kelvin sign is the one other
      character with such a lower case. */
  function LowerChar(c: char): char {
    if 'A' <= c <= 'Z' then (c as int + 32) as char
    else if c == '\U{212A}' then 'k'
    else c
  }

  function Lower(s: string): (r: string)
    ensures |r| == |s|
  {
    seq(|s|, i requires 0 <= i < |s| => LowerChar(s[i]))
  }

  lemma {:induction false} LowerCharExact(c: char)
    ensures forall k :: 0 <= k < 26 && c == "ABCDEFGHIJKLMNOPQRSTUVWXYZ"[k] ==>
              LowerChar(c) == "abcdefghijklmnopqrstuvwxyz"[k]
    ensures LowerChar(c) != c <==> 'A' <= c <= 'Z' || c == '\U{212A}'
  {
  }

  /** Capital letters, and nothing else but the Kelvin sign, have another lower case. */
  lemma {:induction false} LowerExact(s: string, i: nat)
    requires i < |s|
    ensures forall k :: 0 <= k < 26 && s[i] == "ABCDEFGHIJKLMNOPQRSTUVWXYZ"[k] ==>
              Lower(s)[i] == "abcdefghijklmnopqrstuvwxyz"[k]
    ensures s[i] == '\U{212A}' ==> Lower(s)[i] == 'k'
    ensures !('A' <= s[i] <= 'Z') && s[i] != '\U{212A}' ==> Lower(s)[i] == s[i]
  {
    LowerCharExact(s[i]);
    assert Lower(s)[i] == LowerChar(s[i]);
    assert s[i] == '\U{212A}' ==> LowerChar(s[i]) == 'k';
    hide Lower, LowerChar;
  }

  /** `s.replace(/\s+/g, " ")` */
  function Collapse(s: string): (r: string)
    ensures |r| <= |s| && (r == [] <==> s == [])
    decreases |s|
  {
    if s == [] then []
    else if IsSpace(s[0]) then
      TrimStartShorter(s);
      " " + Collapse(TrimStart(s))
    else [s[0]] + Collapse(s[1..])
  }

  lemma {:induction false} TrimStartShorter(s: string)
    ensures |TrimStart(s)| <= |s|
    ensures s != [] && IsSpace(s[0]) ==> |TrimStart(s)| <= |s| - 1
    ensures |s| > 1 && IsSpace(s[0]) && IsSpace(s[1]) ==> |TrimStart(s)| < |s| - 1
  {
    if s != [] {
      TrimStartShorter(s[1..]);
    }
  }

  /** Every run of white space is one space character. */
  predicate SingleSpaced(s: string) {
    forall i :: 0 <= i < |s| && IsSpace(s[i]) ==>
      s[i] == ' ' && (i + 1 < |s| ==> !IsSpace(s[i + 1]))
  }

  lemma SingleSpacedTail(s: string)
    requires s != []
    ensures SingleSpaced(s) <==>
            && SingleSpaced(s[1..])
            && (IsSpace(s[0]) ==> s[0] == ' ' && (|s| > 1 ==> !IsSpace(s[1])))
  {
    var t := s[1..];
    assert forall i :: 0 <= i < |t| ==> t[i] == s[i + 1];
    if SingleSpaced(t) && (IsSpace(s[0]) ==> s[0] == ' ' && (|s| > 1 ==> !IsSpace(s[1]))) {
      forall i | 0 <= i < |s| && IsSpace(s[i])
        ensures s[i] == ' ' && (i + 1 < |s| ==> !IsSpace(s[i + 1]))
      {
        if i > 0 { assert t[i - 1] == s[i]; }
      }
    }
  }

  /** Collapsing leaves a string alone exactly when it is single-spaced. */
  lemma {:induction false} CollapseFixedIff(s: string)
    ensures Collapse(s) == s <==> SingleSpaced(s)
    decreases |s|
  {
    if s != [] {
      SingleSpacedTail(s);
      var t := s[1..];
      if IsSpace(s[0]) {
        TrimStartShorter(s);
        if t == [] || !IsSpace(t[0]) {
          assert TrimStart(s) == t;
          CollapseFixedIff(t);
          assert Collapse(s)[0] == ' ' && Collapse(s)[1..] == Collapse(t);
        }
      } else {
        CollapseFixedIff(t);
        assert Collapse(s)[1..] == Collapse(t);
      }
      assert s == [s[0]] + t;
    }
  }

  /** The form of a mnemonic that is stored. */
  function Stored(text: string): string {
    Lower(Trim(text))
  }

  // ---------- words and gaps ----------

  predicate IsWord(s: string) {
    s != "" && forall i :: 0 <= i < |s| ==> !IsSpace(s[i])
  }

  predicate IsGap(s: string) {
    s != "" && AllSpaces(s)
  }

  /** Words with gaps between them. */
  function Spaced(words: seq<string>, gaps: seq<string>): string
    requires words != [] && |gaps| == |words| - 1
  {
    if |words| == 1 then words[0] else words[0] + (gaps[0] + Spaced(words[1..], gaps[1..]))
  }

  predicate WordsAndGaps(words: seq<string>, gaps: seq<string>) {
    && words != [] && |gaps| == |words| - 1
    && (forall i :: 0 <= i < |words| ==> IsWord(words[i]))
    && (forall i :: 0 <= i < |gaps| ==> IsGap(gaps[i]))
  }

  lemma {:induction false} SpacedEnds(words: seq<string>, gaps: seq<string>)
    requires WordsAndGaps(words, gaps)
    ensures var s := Spaced(words, gaps); s != "" && Trimmed(s) && s[0] == words[0][0]
  {
    if |words| > 1 {
      SpacedEnds(words[1..], gaps[1..]);
      var rest := Spaced(words[1..], gaps[1..]);
      assert Spaced(words, gaps)[|Spaced(words, gaps)| - 1] == rest[|rest| - 1];
    }
  }

  lemma {:induction false} CollapseWord(word: string, rest: string)
    requires forall i :: 0 <= i < |word| ==> !IsSpace(word[i])
    ensures Collapse(word + rest) == word + Collapse(rest)
  {
    if word == "" {
      assert word + rest == rest;
    } else {
      assert (word + rest)[1..] == word[1..] + rest;
      CollapseWord(word[1..], rest);
    }
  }

  lemma {:induction false} CollapseGap(gap: string, rest: string)
    requires IsGap(gap) && rest != "" && !IsSpace(rest[0])
    ensures Collapse(gap + rest) == " " + Collapse(rest)
  {
    TrimStartOf(gap, rest);
  }

  /** Collapsing leaves the words and puts one space between any two. */
  lemma {:induction false} CollapseSpaced(words: seq<string>, gaps: seq<string>)
    requires WordsAndGaps(words, gaps)
    ensures Collapse(Spaced(words, gaps)) == Spaced(words, seq(|gaps|, _ => " "))
  {
    hide Collapse;
    var spaces := seq(|gaps|, _ => " ");
    if |words| == 1 {
      CollapseWord(words[0], "");
      assert words[0] + "" == words[0];
      assert Collapse("") == "" by { CollapseFixedIff(""); }
    } else {
      var rest := Spaced(words[1..], gaps[1..]);
      SpacedEnds(words[1..], gaps[1..]);
      CollapseWord(words[0], gaps[0] + rest);
      CollapseGap(gaps[0], rest);
      CollapseSpaced(words[1..], gaps[1..]);
      assert spaces[1..] == seq(|gaps| - 1, _ => " ");
    }
  }

  lemma LowerConcat(a: string, b: string)
    ensures Lower(a + b) == Lower(a) + Lower(b)
  {
  }

  lemma LowerKinds(s: string)
    ensures IsWord(s) ==> IsWord(Lower(s))
    ensures IsGap(s) ==> IsGap(Lower(s))
  {
  }

  /** `Lower` of every string. */
  function Lowered(list: seq<string>): seq<string> {
    seq(|list|, i requires 0 <= i < |list| => Lower(list[i]))
  }

  lemma {:induction false} LoweredKinds(words: seq<string>, gaps: seq<string>)
    requires WordsAndGaps(words, gaps)
    ensures WordsAndGaps(Lowered(words), Lowered(gaps))
  {
    hide Lower, IsWord, IsGap;
    forall i | 0 <= i < |words| ensures IsWord(Lowered(words)[i]) { LowerKinds(words[i]); }
    forall i | 0 <= i < |gaps| ensures IsGap(Lowered(gaps)[i]) { LowerKinds(gaps[i]); }
  }

  lemma {:induction false} LowerSpaced(words: seq<string>, gaps: seq<string>)
    requires words != [] && |gaps| == |words| - 1
    ensures Lower(Spaced(words, gaps)) == Spaced(Lowered(words), Lowered(gaps))
  {
    hide Lower;
    if |words| > 1 {
      var rest := Spaced(words[1..], gaps[1..]);
      LowerSpaced(words[1..], gaps[1..]);
      LowerConcat(words[0], gaps[0] + rest);
      LowerConcat(gaps[0], rest);
      assert Lowered(words)[1..] == Lowered(words[1..]);
      assert Lowered(gaps)[1..] == Lowered(gaps[1..]);
    }
  }

  lemma {:induction false} SpacedSplits(words: seq<string>)
    requires words != [] && forall i :: 0 <= i < |words| ==> IsWord(words[i])
    ensures Split(Spaced(words, seq(|words| - 1, _ => " ")), ' ') == words
  {
    var spaces := seq(|words| - 1, _ => " ");
    assert forall c :: c in words[0] ==> !IsSpace(c);
    if |words| == 1 {
      SplitFree(words[0], ' ');
    } else {
      assert spaces[1..] == seq(|words| - 2, _ => " ");
      SpacedSplits(words[1..]);
      var rest := Spaced(words[1..], spaces[1..]);
      assert Spaced(words, spaces) == words[0] + [' '] + rest;
      SplitCons(words[0], ' ', rest);
    }
  }

  /** `importFromMnemonic` */
  function ImportFromMnemonic(env: Env, mnemonic: string): Result<string> {
    var normalized := Collapse(Lower(Trim(mnemonic)));
    var words := Split(normalized, ' ');
    if |words| != 12 && |words| != 24 then Err("INVALID_MNEMONIC")
    else match env.derive(normalized)
         case None => Err("Invalid mnemonic")
         case Some(address) => Ok(address)
  }

  /** A text is accepted exactly when it is 12 or 24 words from which the library derives an address;
      neither capital letters nor the width and kind of the gaps matter. */
  lemma {:induction false} ImportExact(env: Env, words: seq<string>, gaps: seq<string>, a: string, b: string)
    requires WordsAndGaps(words, gaps) && AllSpaces(a) && AllSpaces(b)
    ensures var derived := env.derive(Spaced(Lowered(words), seq(|gaps|, _ => " ")));
            ImportFromMnemonic(env, a + Spaced(words, gaps) + b) ==
            if |words| != 12 && |words| != 24 then Err("INVALID_MNEMONIC")
            else if derived.None? then Err("Invalid mnemonic")
            else Ok(derived.value)
  {
    hide Lower, Collapse, Spaced, Split, Trim, WordsAndGaps;
    WordsAndGapsFacts(words, gaps);
    SpacedEnds(words, gaps);
    TrimOf(a, Spaced(words, gaps), b);
    LowerSpaced(words, gaps);
    LoweredKinds(words, gaps);
    CollapseSpaced(Lowered(words), Lowered(gaps));
    WordsAndGapsFacts(Lowered(words), Lowered(gaps));
    SpacedSplits(Lowered(words));
  }

  lemma WordsAndGapsFacts(words: seq<string>, gaps: seq<string>)
    requires WordsAndGaps(words, gaps)
    ensures words != [] && |gaps| == |words| - 1 && forall i :: 0 <= i < |words| ==> IsWord(words[i])
  {
  }

  /** The wallet that `/import` stores: the address of the normalised text with the text itself. */
  function ImportWallet(env: Env, text: string, iv: Bytes, now: string): Result<StoredWallet> {
    match ImportFromMnemonic(env, text)
    case Err(e) => Err(e)
    case Ok(address) =>
      match EncryptSecret(env.cipher, Stored(text), env.encryptionKey, iv)
      case Err(e) => Err(e)
      case Ok(payload) => Ok(StoredWallet(address, payload, now))
  }

  /** The wallet that creation stores, for an address and mnemonic the library generated. */
  function CreateWallet(env: Env, address: string, mnemonic: string, iv: Bytes, now: string): Result<StoredWallet> {
    match EncryptSecret(env.cipher, mnemonic, env.encryptionKey, iv)
    case Err(e) => Err(e)
    case Ok(payload) => Ok(StoredWallet(address, payload, now))
  }

  /** The mnemonic of a stored wallet, as it is exported and used for signing. */
  function Mnemonic(env: Env, wallet: StoredWallet): Result<string> {
    DecryptSecret(env.cipher, wallet.encryptedMnemonic, env.encryptionKey)
  }

  /** `walletFromStored`: the address of the key that signs for a stored wallet. */
  function Unlock(env: Env, wallet: StoredWallet): Option<string> {
    match Mnemonic(env, wallet)
    case Err(_) => None
    case Ok(mnemonic) => env.derive(mnemonic)
  }

  /** A wallet unlocks to the address that the library derives from the mnemonic its payload decrypts to. */
  lemma {:induction false} UnlockIff(env: Env, wallet: StoredWallet, address: string)
    ensures Unlock(env, wallet) == Some(address) <==>
            exists mnemonic :: DecryptSecret(env.cipher, wallet.encryptedMnemonic, env.encryptionKey) == Ok(mnemonic)
                               && env.derive(mnemonic) == Some(address)
  {
    hide DecryptSecret;
    if Unlock(env, wallet) == Some(address) {
      var mnemonic := Mnemonic(env, wallet).value;
      assert env.derive(mnemonic) == Some(address);
    }
  }

  ghost predicate Consistent(env: Env, wallet: StoredWallet) {
    Unlock(env, wallet) == Some(wallet.address)
  }

  /** A created wallet unlocks to its address. */
  lemma CreatedConsistent(env: Env, address: string, mnemonic: string, iv: Bytes, now: string)
    requires env.Lawful() && |iv| == 12 && env.derive(mnemonic) == Some(address)
    ensures var w := CreateWallet(env, address, mnemonic, iv, now);
            && w.Ok? && w.value.address == address && w.value.createdAt == now
            && Mnemonic(env, w.value) == Ok(mnemonic)
            && Consistent(env, w.value)
  {
    PayloadRoundTrip(env.cipher, mnemonic, env.encryptionKey, iv);
  }

  /** An imported wallet unlocks to its address exactly when the imported text was single-spaced;
      otherwise it does not unlock at all. */
  lemma ImportedConsistentIff(env: Env, text: string, iv: Bytes, now: string)
    requires env.Lawful() && |iv| == 12 && ImportFromMnemonic(env, text).Ok?
    ensures var w := ImportWallet(env, text, iv, now);
            && w.Ok? && Ok(w.value.address) == ImportFromMnemonic(env, text) && w.value.createdAt == now
            && Mnemonic(env, w.value) == Ok(Lower(Trim(text)))
            && (Consistent(env, w.value) <==> SingleSpaced(Stored(text)))
            && (!SingleSpaced(Stored(text)) ==> Unlock(env, w.value) == None)
  {
    CollapseFixedIff(Stored(text));
    PayloadRoundTrip(env.cipher, Stored(text), env.encryptionKey, iv);
  }
}
