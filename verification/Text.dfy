/** The string operations of JavaScript and Go that the modelled code calls, with the laws the
    other components rely on. Strings are sequences of Unicode scalar values. */
module Text {

  // ---------- character classes ----------

  /** White space and line terminators, as `trim` and `\s` see them. */
  predicate IsSpace(c: char) {
    || '\t' <= c <= '\r' || c == ' ' || c == '\U{00A0}' || c == '\U{1680}'
    || '\U{2000}' <= c <= '\U{200A}' || c == '\U{2028}' || c == '\U{2029}'
    || c == '\U{202F}' || c == '\U{205F}' || c == '\U{3000}' || c == '\U{FEFF}'
  }

  /** The characters, one by one. */
  lemma SpaceChars()
    ensures forall c :: IsSpace(c) <==>
              c in "\t\n\U{B}\U{C}\r \U{A0}\U{1680}\U{2028}\U{2029}\U{202F}\U{205F}\U{3000}\U{FEFF}"
              || c in "\U{2000}\U{2001}\U{2002}\U{2003}\U{2004}\U{2005}\U{2006}\U{2007}\U{2008}\U{2009}\U{200A}"
  {
  }

  predicate IsDigit(c: char) {
    '0' <= c <= '9'
  }

  lemma Digits()
    ensures forall c :: IsDigit(c) <==> c in "0123456789"
  {
  }

  lemma LowerLetters()
    ensures forall c :: 'a' <= c <= 'z' <==> c in "abcdefghijklmnopqrstuvwxyz"
  {
  }

  predicate AllDigits(s: string) {
    forall i :: 0 <= i < |s| ==> IsDigit(s[i])
  }

  predicate Free(s: string, c: char) {
    c !in s
  }

  // ---------- trimming, slicing, padding ----------

  function TrimStart(s: string): (r: string) {
    if s != [] && IsSpace(s[0]) then TrimStart(s[1..]) else s
  }

  function TrimEnd(s: string): (r: string) {
    if s != [] && IsSpace(s[|s| - 1]) then TrimEnd(s[..|s| - 1]) else s
  }

  function Trim(s: string): (r: string) {
    TrimEnd(TrimStart(s))
  }

  predicate AllSpaces(s: string) {
    forall i :: 0 <= i < |s| ==> IsSpace(s[i])
  }

  predicate Trimmed(s: string) {
    s == [] || (!IsSpace(s[0]) && !IsSpace(s[|s| - 1]))
  }

  lemma {:induction false} TrimStartSplits(s: string) returns (a: string)
    ensures AllSpaces(a) && s == a + TrimStart(s)
    ensures TrimStart(s) == [] || !IsSpace(TrimStart(s)[0])
  {
    if s != [] && IsSpace(s[0]) {
      var b := TrimStartSplits(s[1..]);
      a := [s[0]] + b;
    } else {
      a := [];
    }
  }

  lemma {:induction false} TrimEndSplits(s: string) returns (b: string)
    ensures AllSpaces(b) && s == TrimEnd(s) + b
    ensures TrimEnd(s) == [] || !IsSpace(TrimEnd(s)[|TrimEnd(s)| - 1])
  {
    if s != [] && IsSpace(s[|s| - 1]) {
      var c := TrimEndSplits(s[..|s| - 1]);
      b := c + [s[|s| - 1]];
    } else {
      b := [];
    }
  }

  /** Trimming removes white space at the two ends and nothing else. */
  lemma TrimSplits(s: string) returns (a: string, b: string)
    ensures AllSpaces(a) && AllSpaces(b) && s == a + Trim(s) + b
    ensures Trimmed(Trim(s))
  {
    a := TrimStartSplits(s);
    b := TrimEndSplits(TrimStart(s));
    assert s == a + (Trim(s) + b);
    if Trim(s) != [] {
      assert TrimStart(s)[0] == Trim(s)[0];
    }
  }

  lemma TrimmedStays(s: string)
    requires Trimmed(s)
    ensures Trim(s) == s
  {
  }

  lemma TrimIdempotent(s: string)
    ensures Trim(Trim(s)) == Trim(s)
  {
    var _, _ := TrimSplits(s);
  }

  lemma {:induction false} TrimStartOf(a: string, s: string)
    requires AllSpaces(a) && (s == [] || !IsSpace(s[0]))
    ensures TrimStart(a + s) == s
  {
    if a == [] {
      assert a + s == s;
    } else {
      assert (a + s)[1..] == a[1..] + s;
      TrimStartOf(a[1..], s);
    }
  }

  lemma {:induction false} TrimEndOf(s: string, b: string)
    requires AllSpaces(b) && (s == [] || !IsSpace(s[|s| - 1]))
    ensures TrimEnd(s + b) == s
  {
    if b == [] {
      assert s + b == s;
    } else {
      assert (s + b)[..|s + b| - 1] == s + b[..|b| - 1];
      TrimEndOf(s, b[..|b| - 1]);
    }
  }

  /** Whatever white space surrounds it, a text is found. */
  lemma {:induction false} TrimOf(a: string, s: string, b: string)
    requires AllSpaces(a) && AllSpaces(b) && Trimmed(s) && s != []
    ensures Trim(a + s + b) == s
  {
    assert a + s + b == a + (s + b);
    TrimStartOf(a, s + b);
    TrimEndOf(s, b);
  }

  /** JavaScript's `s.slice(start, end)`; a negative index counts from the end. */
  function Slice(s: string, start: int, end: int): (r: string)
    ensures AllDigits(s) ==> AllDigits(r)
  {
    var a := Clamp(start, |s|);
    var b := Clamp(end, |s|);
    if a < b then s[a..b] else []
  }

  function Clamp(index: int, length: nat): (r: nat)
    ensures r <= length
  {
    if index < 0 then (if length + index < 0 then 0 else length + index)
    else if index > length then length else index
  }

  function Repeat(c: char, n: nat): (r: string)
    ensures |r| == n && forall i :: 0 <= i < n ==> r[i] == c
  {
    seq(n, _ => c)
  }

  function PadStart(s: string, width: nat, c: char): string {
    if |s| >= width then s else Repeat(c, width - |s|) + s
  }

  function PadEnd(s: string, width: nat, c: char): (r: string)
    ensures AllDigits(s) && IsDigit(c) ==> AllDigits(r)
  {
    if |s| >= width then s else s + Repeat(c, width - |s|)
  }

  /** `s.replace(from, to)` with one-character strings: only the first match is replaced. */
  function ReplaceFirst(s: string, from: char, to: char): string {
    if s == [] then []
    else if s[0] == from then [to] + s[1..]
    else [s[0]] + ReplaceFirst(s[1..], from, to)
  }

  lemma {:induction false} ReplaceFirstAbsent(s: string, from: char, to: char)
    requires Free(s, from)
    ensures ReplaceFirst(s, from, to) == s
  {
    if s != [] {
      ReplaceFirstAbsent(s[1..], from, to);
    }
  }

  /** The first occurrence is the one that is replaced. */
  lemma {:induction false} ReplaceFirstAt(a: string, from: char, b: string, to: char)
    requires Free(a, from)
    ensures ReplaceFirst(a + [from] + b, from, to) == a + [to] + b
  {
    if a == [] {
      assert (a + [from] + b)[1..] == b;
    } else {
      assert (a + [from] + b)[1..] == a[1..] + [from] + b;
      ReplaceFirstAt(a[1..], from, b, to);
    }
  }

  lemma {:induction false} FirstOccurrence(s: string, c: char) returns (a: string, b: string)
    requires c in s
    ensures Free(a, c) && s == a + [c] + b
  {
    if s[0] == c {
      a, b := [], s[1..];
    } else {
      a, b := FirstOccurrence(s[1..], c);
      a := [s[0]] + a;
    }
  }

  predicate HasPrefix(s: string, p: string) {
    |p| <= |s| && s[..|p|] == p
  }

  predicate Contains(s: string, p: string)
    decreases |s|
  {
    HasPrefix(s, p) || (s != [] && Contains(s[1..], p))
  }

  lemma {:induction false} ContainsInside(a: string, p: string, b: string)
    ensures Contains(a + p + b, p)
  {
    var s := a + p + b;
    if a == [] {
      assert s[..|p|] == p;
    } else {
      assert s[1..] == a[1..] + p + b;
      ContainsInside(a[1..], p, b);
    }
  }

  lemma {:induction false} ContainedSplits(s: string, p: string) returns (a: string, b: string)
    requires Contains(s, p)
    ensures s == a + p + b
    decreases |s|
  {
    if HasPrefix(s, p) {
      a, b := [], s[|p|..];
    } else {
      a, b := ContainedSplits(s[1..], p);
      a := [s[0]] + a;
    }
  }

  /** `s.includes(p)`: `p` stands somewhere in `s`. */
  lemma {:induction false} ContainsIff(s: string, p: string)
    ensures Contains(s, p) <==> exists a, b :: s == a + p + b
  {
    hide Contains;
    if Contains(s, p) {
      var a, b := ContainedSplits(s, p);
    }
    forall a, b | s == a + p + b
      ensures Contains(s, p)
    {
      ContainsInside(a, p, b);
    }
  }

  /** `s.split(c)` for a one-character separator. */
  function Split(s: string, c: char): (r: seq<string>)
    ensures |r| >= 1
  {
    if s == [] then [[]]
    else
      var rest := Split(s[1..], c);
      if s[0] == c then [[]] + rest else [[s[0]] + rest[0]] + rest[1..]
  }

  lemma {:induction false} SplitFree(s: string, c: char)
    requires Free(s, c)
    ensures Split(s, c) == [s]
  {
    if s != [] {
      SplitFree(s[1..], c);
      assert [s[0]] + s[1..] == s;
    }
  }

  /** Splitting undoes joining, one part at a time. */
  lemma {:induction false} SplitCons(a: string, c: char, rest: string)
    requires Free(a, c)
    ensures Split(a + [c] + rest, c) == [a] + Split(rest, c)
  {
    if a == [] {
      assert (a + [c] + rest)[1..] == rest;
    } else {
      assert (a + [c] + rest)[1..] == a[1..] + [c] + rest;
      SplitCons(a[1..], c, rest);
      assert [a[0]] + a[1..] == a;
    }
  }

  // ---------- decimal numerals ----------

  function DigitOf(d: nat): (c: char)
    requires d < 10
    ensures IsDigit(c) && c as int == '0' as int + d
  {
    ('0' as int + d) as char
  }

  function Pow10(k: nat): (r: nat)
    ensures r >= 1
  {
    if k == 0 then 1 else 10 * Pow10(k - 1)
  }

  /** The number a digit string denotes, `BigInt(s)`. */
  function NatOf(s: string): nat
    requires AllDigits(s)
  {
    if s == [] then 0 else 10 * NatOf(s[..|s| - 1]) + (s[|s| - 1] as int - '0' as int)
  }

  /** The shortest decimal numeral, `n.toString()` or `strconv.Itoa(n)`. */
  function Dec(n: nat): (r: string)
    ensures r != [] && AllDigits(r)
  {
    if n < 10 then [DigitOf(n)] else Dec(n / 10) + [DigitOf(n % 10)]
  }

  function Itoa(n: int): string {
    if n < 0 then "-" + Dec(-n) else Dec(n)
  }

  predicate NoExcessZeros(s: string) {
    |s| == 1 || (|s| > 1 && s[0] != '0')
  }

  lemma {:induction false} DecDenotes(n: nat)
    ensures NatOf(Dec(n)) == n
    ensures NoExcessZeros(Dec(n))
    ensures n > 0 ==> Dec(n)[0] != '0'
  {
    if n >= 10 {
      DecDenotes(n / 10);
      assert Dec(n)[..|Dec(n)| - 1] == Dec(n / 10);
    }
  }

  lemma DecInjective(a: nat, b: nat)
    requires Dec(a) == Dec(b)
    ensures a == b
  {
    DecDenotes(a);
    DecDenotes(b);
  }

  /** Different integers have different numerals, negative ones included. */
  lemma ItoaInjective(a: int, b: int)
    requires Itoa(a) == Itoa(b)
    ensures a == b
  {
    assert a >= 0 ==> IsDigit(Itoa(a)[0]);
    assert b >= 0 ==> IsDigit(Itoa(b)[0]);
    if a < 0 && b < 0 {
      assert Itoa(a)[1..] == Dec(-a) && Itoa(b)[1..] == Dec(-b);
      DecInjective(-a, -b);
    } else if a >= 0 && b >= 0 {
      DecInjective(a, b);
    }
  }

  lemma {:induction false} DecOfNatOf(s: string)
    requires AllDigits(s) && NoExcessZeros(s)
    ensures Dec(NatOf(s)) == s
  {
    var init, last := s[..|s| - 1], s[|s| - 1];
    assert s == init + [last];
    if |s| == 1 {
      assert NatOf(init) == 0;
    } else {
      DecOfNatOf(init);
      NatOfPositive(init);
      assert NatOf(s) / 10 == NatOf(init);
    }
  }

  lemma {:induction false} NatOfPositive(s: string)
    requires AllDigits(s) && s != [] && s[0] != '0'
    ensures NatOf(s) > 0
  {
    if |s| > 1 {
      NatOfPositive(s[..|s| - 1]);
    }
  }

  predicate AllZeros(s: string) {
    forall i :: 0 <= i < |s| ==> s[i] == '0'
  }

  lemma {:induction false} NatOfZero(s: string)
    requires AllDigits(s)
    ensures NatOf(s) == 0 <==> AllZeros(s)
  {
    if s != [] {
      var init := s[..|s| - 1];
      assert s == init + [s[|s| - 1]];
      NatOfZero(init);
    }
  }

  lemma MulTen(x: int, y: int)
    ensures 10 * (x * y) == x * (10 * y)
  {
  }

  lemma {:induction false} NatOfConcat(a: string, b: string)
    requires AllDigits(a) && AllDigits(b)
    ensures AllDigits(a + b) && NatOf(a + b) == NatOf(a) * Pow10(|b|) + NatOf(b)
  {
    if b == [] {
      assert a + b == a;
    } else {
      var init := b[..|b| - 1];
      NatOfConcat(a, init);
      assert (a + b)[..|a + b| - 1] == a + init;
      MulTen(NatOf(a), Pow10(|init|));
    }
  }

  lemma {:induction false} PadStartOfDec(s: string)
    requires AllDigits(s) && s != []
    ensures |Dec(NatOf(s))| <= |s| && PadStart(Dec(NatOf(s)), |s|, '0') == s
  {
    var init, last := s[..|s| - 1], s[|s| - 1];
    assert s == init + [last];
    if |s| == 1 {
      assert NatOf(init) == 0;
    } else {
      PadStartOfDec(init);
      if NatOf(init) == 0 {
        NatOfZero(init);
        assert Dec(NatOf(s)) == [last];
        assert PadStart([last], |s|, '0') == Repeat('0', |s| - 1) + [last];
        assert Repeat('0', |s| - 1) == init;
      } else {
        assert NatOf(s) / 10 == NatOf(init);
        assert Dec(NatOf(s)) == Dec(NatOf(init)) + [last];
      }
    }
  }

  /** Padding with zeros on the left does not change the number. */
  lemma NatOfPadStart(s: string, width: nat)
    requires AllDigits(s)
    ensures AllDigits(PadStart(s, width, '0')) && NatOf(PadStart(s, width, '0')) == NatOf(s)
  {
    if |s| < width {
      var zeros := Repeat('0', width - |s|);
      NatOfConcat(zeros, s);
      NatOfZero(zeros);
    }
  }

  // ---------- prefix plus decimal index ----------

  /** Names made of one prefix and a decimal index differ when the indices differ. */
  lemma IndexedNameInjective(prefix: string, i: nat, j: nat)
    requires prefix + Dec(i) == prefix + Dec(j)
    ensures i == j
  {
    assert Dec(i) == (prefix + Dec(i))[|prefix|..];
    assert Dec(j) == (prefix + Dec(j))[|prefix|..];
    DecInjective(i, j);
  }
}
