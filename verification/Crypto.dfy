/** The encrypted payload format (telegram-bot/src/crypto.ts). AES-256-GCM and UTF-8 are values
    with the laws of `Lawful`; everything around them is spelled out. */
module Crypto {
  import opened Wrappers
  import opened Text

  newtype byte = b: int | 0 <= b < 256
  type Bytes = seq<byte>

  datatype Sealed = Sealed(data: Bytes, tag: Bytes)

  datatype Cipher = Cipher(
    seal: (Bytes, Bytes, Bytes) -> Sealed,
    unseal: (Bytes, Bytes, Bytes, Bytes) -> Option<Bytes>,
    utf8: string -> Bytes,
    fromUtf8: Bytes -> string)
  {
    /** What the library calls promise: decryption inverts encryption under the same key and
        nonce, ciphertexts are as long as plaintexts, tags have 16 bytes, UTF-8 is injective and
        maps only the empty string to no bytes. */
    ghost predicate Lawful() {
      && (forall k, iv, p :: unseal(k, iv, seal(k, iv, p).tag, seal(k, iv, p).data) == Some(p))
      && (forall k, iv, p :: |seal(k, iv, p).data| == |p| && |seal(k, iv, p).tag| == 16)
      && (forall s :: fromUtf8(utf8(s)) == s)
      && (forall s :: utf8(s) == [] <==> s == "")
    }
  }

  // ---------- hexadecimal ----------

  function HexDigit(d: int): char
    requires 0 <= d < 16
  {
    if d < 10 then ('0' as int + d) as char else ('a' as int + d - 10) as char
  }

  function HexValue(c: char): (d: int)
    ensures -1 <= d < 16
  {
    if IsDigit(c) then c as int - '0' as int
    else if 'a' <= c <= 'f' then c as int - 'a' as int + 10
    else if 'A' <= c <= 'F' then c as int - 'A' as int + 10
    else -1
  }

  /** `buffer.toString("hex")` */
  function ToHex(bytes: Bytes): string {
    if bytes == [] then ""
    else [HexDigit(bytes[0] as int / 16), HexDigit(bytes[0] as int % 16)] + ToHex(bytes[1..])
  }

  /** `Buffer.from(s, "hex")` stops at the first pair that is not hexadecimal. */
  function FromHex(s: string): Bytes {
    if |s| < 2 || HexValue(s[0]) < 0 || HexValue(s[1]) < 0 then []
    else [(16 * HexValue(s[0]) + HexValue(s[1])) as byte] + FromHex(s[2..])
  }

  lemma {:induction false} HexRoundTrip(bytes: Bytes)
    ensures FromHex(ToHex(bytes)) == bytes
    ensures Free(ToHex(bytes), ':')
    ensures ToHex(bytes) == "" <==> bytes == []
  {
    if bytes != [] {
      HexRoundTrip(bytes[1..]);
      assert ToHex(bytes)[2..] == ToHex(bytes[1..]);
    }
  }

  /** A byte is written as its two lower-case digits, the higher one first. */
  lemma {:induction false} HexOfByte(high: int, low: int)
    requires 0 <= high < 16 && 0 <= low < 16
    ensures ToHex([(16 * high + low) as byte]) == ["0123456789abcdef"[high], "0123456789abcdef"[low]]
    ensures FromHex(["0123456789abcdef"[high], "0123456789abcdef"[low]]) == [(16 * high + low) as byte]
  {
    var b := (16 * high + low) as byte;
    HexDigitExact(high);
    HexDigitExact(low);
    assert b as int / 16 == high && b as int % 16 == low;
    assert [b][1..] == [];
    HexRoundTrip([b]);
    hide HexDigit, FromHex;
  }

  lemma {:induction false} HexDigitExact(d: int)
    requires 0 <= d < 16
    ensures HexDigit(d) == "0123456789abcdef"[d]
  {
  }

  /** The digits of either case, by value. */
  lemma {:induction false} HexValueExact(c: char)
    ensures HexValue(c) >= 0 <==> c in "0123456789abcdef" || c in "ABCDEF"
    ensures HexValue(c) >= 0 ==> "0123456789abcdef"[HexValue(c)] == c || "0123456789ABCDEF"[HexValue(c)] == c
  {
  }

  lemma FromHexPair(b: byte, rest: string)
    ensures FromHex([HexDigit(b as int / 16), HexDigit(b as int % 16)] + rest) == [b] + FromHex(rest)
  {
    var s := [HexDigit(b as int / 16), HexDigit(b as int % 16)] + rest;
    assert s[2..] == rest;
    assert HexValue(s[0]) == b as int / 16 && HexValue(s[1]) == b as int % 16;
  }

  /** Reading stops at the first pair that is not hexadecimal. */
  lemma {:induction false} FromHexStops(bytes: Bytes, rest: string)
    requires |rest| < 2 || HexValue(rest[0]) < 0 || HexValue(rest[1]) < 0
    ensures FromHex(ToHex(bytes) + rest) == bytes
  {
    hide HexDigit, HexValue;
    if bytes == [] {
      assert ToHex(bytes) + rest == rest;
    } else {
      var tail := ToHex(bytes[1..]);
      FromHexStops(bytes[1..], rest);
      FromHexPair(bytes[0], tail + rest);
      assert ToHex(bytes) + rest == [HexDigit(bytes[0] as int / 16), HexDigit(bytes[0] as int % 16)] + (tail + rest);
    }
  }

  // ---------- the payload ----------

  /** `keyFromHex`: 64 hexadecimal digits, white space around them ignored. */
  function KeyFromHex(hex: string): Option<Bytes> {
    var normalized := Trim(hex);
    if |normalized| == 64 && forall i :: 0 <= i < 64 ==> HexValue(normalized[i]) >= 0
    then Some(FromHex(normalized))
    else None
  }

  predicate HexText(h: string) {
    |h| == 64 && forall i :: 0 <= i < 64 ==> HexValue(h[i]) >= 0
  }

  lemma {:induction false} HexTextIff(h: string)
    ensures HexText(h) <==> |h| == 64 && forall c :: c in h ==> c in "0123456789abcdef" || c in "ABCDEF"
  {
    hide HexValue;
    forall c {
      HexValueExact(c);
    }
    assert forall i :: 0 <= i < |h| ==> h[i] in h;
  }

  lemma {:induction false} KeyText(a: string, h: string, b: string)
    requires AllSpaces(a) && AllSpaces(b) && HexText(h)
    ensures KeyFromHex(a + h + b) == Some(FromHex(h))
  {
    hide FromHex, HexValue, Trim, IsSpace;
    SpaceIsNoHexDigit(h[0]);
    SpaceIsNoHexDigit(h[63]);
    TrimOf(a, h, b);
  }

  /** A key is 64 hexadecimal digits of either case, with white space around. */
  lemma {:induction false} KeyIff(hex: string)
    ensures KeyFromHex(hex).Some? <==>
            exists a, h, b :: hex == a + h + b && AllSpaces(a) && AllSpaces(b) && |h| == 64
                              && forall c :: c in h ==> c in "0123456789abcdef" || c in "ABCDEF"
  {
    hide FromHex, HexValue, Trim, AllSpaces;
    if KeyFromHex(hex).Some? {
      var a, b := TrimSplits(hex);
      HexTextIff(Trim(hex));
      assert hex == a + Trim(hex) + b;
    }
    forall a, h, b | hex == a + h + b && AllSpaces(a) && AllSpaces(b) && |h| == 64
                     && forall c :: c in h ==> c in "0123456789abcdef" || c in "ABCDEF"
      ensures KeyFromHex(hex).Some?
    {
      HexTextIff(h);
      KeyText(a, h, b);
    }
  }

  lemma SpaceIsNoHexDigit(c: char)
    ensures HexValue(c) >= 0 ==> !IsSpace(c)
  {
  }

  lemma {:induction false} HexLength(bytes: Bytes)
    ensures |ToHex(bytes)| == 2 * |bytes|
    ensures forall i :: 0 <= i < |ToHex(bytes)| ==> HexValue(ToHex(bytes)[i]) >= 0
  {
    if bytes != [] {
      HexLength(bytes[1..]);
    }
  }

  /** The bytes of a key are those that its digits write. */
  lemma {:induction false} KeyOfHex(a: string, key: Bytes, b: string)
    requires AllSpaces(a) && AllSpaces(b) && |key| == 32
    ensures KeyFromHex(a + ToHex(key) + b) == Some(key)
  {
    hide ToHex, FromHex, HexValue, Trim, KeyFromHex;
    HexLength(key);
    HexRoundTrip(key);
    KeyText(a, ToHex(key), b);
  }

  /** `encryptSecret`, with the random nonce as a parameter. */
  function EncryptSecret(cipher: Cipher, plaintext: string, keyHex: string, iv: Bytes): Result<string> {
    match KeyFromHex(keyHex)
    case None => Err("BOT_ENCRYPTION_KEY must be 64 hex characters (32 bytes)")
    case Some(key) =>
      var sealed := cipher.seal(key, iv, cipher.utf8(plaintext));
      Ok(ToHex(iv) + ":" + ToHex(sealed.tag) + ":" + ToHex(sealed.data))
  }

  /** `decryptSecret`: parts after the third are ignored, empty parts are refused. */
  function DecryptSecret(cipher: Cipher, payload: string, keyHex: string): Result<string> {
    match KeyFromHex(keyHex)
    case None => Err("BOT_ENCRYPTION_KEY must be 64 hex characters (32 bytes)")
    case Some(key) =>
      var parts := Split(payload, ':');
      if |parts| < 3 || parts[0] == "" || parts[1] == "" || parts[2] == "" then
        Err("Invalid encrypted payload")
      else
        match cipher.unseal(key, FromHex(parts[0]), FromHex(parts[1]), FromHex(parts[2]))
        case None => Err("Unsupported state or unable to authenticate data")
        case Some(plain) => Ok(cipher.fromUtf8(plain))
  }

  lemma PayloadSplits(a: string, b: string, c: string)
    requires Free(a, ':') && Free(b, ':') && Free(c, ':')
    ensures Split(a + ":" + b + ":" + c, ':') == [a, b, c]
  {
    assert a + ":" + b + ":" + c == a + [':'] + (b + [':'] + c);
    SplitCons(a, ':', b + [':'] + c);
    SplitCons(b, ':', c);
    SplitFree(c, ':');
  }

  /** The payload's three parts write the nonce, the tag and the ciphertext under the given key; without
      a valid key there is no payload. */
  lemma {:induction false} PayloadExact(cipher: Cipher, plaintext: string, keyHex: string, iv: Bytes)
    ensures EncryptSecret(cipher, plaintext, keyHex, iv).Ok? <==> KeyFromHex(keyHex).Some?
    ensures KeyFromHex(keyHex).Some? ==>
              var sealed := cipher.seal(KeyFromHex(keyHex).value, iv, cipher.utf8(plaintext));
              var parts := Split(EncryptSecret(cipher, plaintext, keyHex, iv).value, ':');
              && |parts| == 3
              && FromHex(parts[0]) == iv && FromHex(parts[1]) == sealed.tag && FromHex(parts[2]) == sealed.data
  {
    hide ToHex, FromHex, KeyFromHex, Split;
    if KeyFromHex(keyHex).Some? {
      var sealed := cipher.seal(KeyFromHex(keyHex).value, iv, cipher.utf8(plaintext));
      HexRoundTrip(iv);
      HexRoundTrip(sealed.tag);
      HexRoundTrip(sealed.data);
      PayloadSplits(ToHex(iv), ToHex(sealed.tag), ToHex(sealed.data));
    }
  }

  lemma PayloadSplitsMore(a: string, b: string, c: string, more: string)
    requires Free(a, ':') && Free(b, ':') && Free(c, ':')
    ensures var parts := Split(a + ":" + b + ":" + c + (":" + more), ':');
            |parts| >= 3 && parts[0] == a && parts[1] == b && parts[2] == c
  {
    assert a + ":" + b + ":" + c + (":" + more) == a + [':'] + (b + [':'] + (c + [':'] + more));
    SplitCons(a, ':', b + [':'] + (c + [':'] + more));
    SplitCons(b, ':', c + [':'] + more);
    SplitCons(c, ':', more);
  }

  /** Decryption opens the ciphertext that a payload writes with the nonce and tag it writes, under the
      given key, whatever follows a third colon. Without a valid key, or when one of the three is empty,
      it throws. */
  lemma {:induction false} DecryptExact(cipher: Cipher, iv: Bytes, tag: Bytes, data: Bytes, more: string, keyHex: string)
    ensures var payload := ToHex(iv) + ":" + ToHex(tag) + ":" + ToHex(data);
            var r := DecryptSecret(cipher, payload, keyHex);
            && DecryptSecret(cipher, payload + (":" + more), keyHex) == r
            && if KeyFromHex(keyHex).None? || iv == [] || tag == [] || data == [] then r.Err?
               else
                 var plain := cipher.unseal(KeyFromHex(keyHex).value, iv, tag, data);
                 if plain.None? then r.Err? else r == Ok(cipher.fromUtf8(plain.value))
  {
    hide ToHex, FromHex, KeyFromHex, Split;
    HexRoundTrip(iv);
    HexRoundTrip(tag);
    HexRoundTrip(data);
    PayloadSplits(ToHex(iv), ToHex(tag), ToHex(data));
    PayloadSplitsMore(ToHex(iv), ToHex(tag), ToHex(data), more);
  }

  /** A payload with fewer than two colons is refused. */
  lemma {:induction false} DecryptNeedsParts(cipher: Cipher, a: string, b: string, keyHex: string)
    requires Free(a, ':') && Free(b, ':')
    ensures DecryptSecret(cipher, a, keyHex).Err? && DecryptSecret(cipher, a + ":" + b, keyHex).Err?
  {
    SplitFree(a, ':');
    SplitFree(b, ':');
    assert a + ":" + b == a + [':'] + b;
    SplitCons(a, ':', b);
  }

  /** Decryption returns the plaintext exactly when it is not empty: the empty plaintext has an
      empty third part, which is refused. */
  lemma PayloadRoundTrip(cipher: Cipher, plaintext: string, keyHex: string, iv: Bytes)
    requires cipher.Lawful() && |iv| == 12 && KeyFromHex(keyHex).Some?
    ensures var payload := EncryptSecret(cipher, plaintext, keyHex, iv);
            && payload.Ok?
            && (DecryptSecret(cipher, payload.value, keyHex) == Ok(plaintext) <==> plaintext != "")
            && (plaintext == "" ==>
                  DecryptSecret(cipher, payload.value, keyHex) == Err("Invalid encrypted payload"))
  {
    var key := KeyFromHex(keyHex).value;
    var sealed := cipher.seal(key, iv, cipher.utf8(plaintext));
    HexRoundTrip(iv);
    HexRoundTrip(sealed.tag);
    HexRoundTrip(sealed.data);
    PayloadSplits(ToHex(iv), ToHex(sealed.tag), ToHex(sealed.data));
  }
}
