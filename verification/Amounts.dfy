/** Token amounts: the printer `formatAmount` and the parser `parseDisplayAmount`
    (telegram-bot/src/chain.ts). `D` is the configured number of decimals. */
module Amounts {
  import opened Wrappers
  import opened Text

  const INVALID_AMOUNT := "INVALID_AMOUNT"

  // ---------- the code ----------

  function StripZeros(s: string): (r: string)
    ensures r <= s
  {
    if s != [] && s[|s| - 1] == '0' then StripZeros(s[..|s| - 1]) else s
  }

  /** `formatAmount`. At D = 0 the indices `-D` are 0, not the end of the string. */
  function Format(base: string, D: nat): string {
    var padded := PadStart(base, D + 1, '0');
    var cut := Slice(padded, 0, -(D as int));
    var whole := if cut == [] then "0" else cut;
    var fraction := StripZeros(Slice(padded, -(D as int), |padded|));
    if fraction == [] then whole else whole + "." + fraction
  }

  /** Length of the longest prefix of digits. */
  function DigitRun(s: string): (k: nat)
    ensures k <= |s| && AllDigits(s[..k]) && (k < |s| ==> !IsDigit(s[k]))
  {
    if s != [] && IsDigit(s[0]) then
      var k := 1 + DigitRun(s[1..]);
      assert s[..k] == [s[0]] + s[1..][..k - 1];
      k
    else 0
  }

  /** The regular expression `^\d+(\.\d+)?$`. */
  predicate MatchesAmount(s: string) {
    var k := DigitRun(s);
    && k > 0
    && (k == |s| || (s[k] == '.' && k + 1 < |s| && DigitRun(s[k + 1..]) == |s| - k - 1))
  }

  function Normalize(input: string): string {
    ReplaceFirst(Trim(input), ',', '.')
  }

  /** `parseDisplayAmount`: the amount in base units, as a numeral. */
  function Parse(input: string, D: nat): (r: Result<string>)
    ensures r.Ok? ==> AllDigits(r.value) && r.value != []
  {
    var s := Normalize(input);
    if !MatchesAmount(s) then Err(INVALID_AMOUNT) else
    MatchSplits(s);
    var parts := Split(s, '.');
    var whole := parts[0];
    var fraction := if |parts| > 1 then parts[1] else "";
    if |fraction| > D then Err(INVALID_AMOUNT) else
    var base := whole + Slice(PadEnd(fraction, D, '0'), 0, D);
    if base == Repeat('0', |base|) then Err(INVALID_AMOUNT)
    else Ok(Dec(NatOf(base)))
  }

  // ---------- what the parser accepts ----------

  /** `s` reads as the whole part `w` and the fraction digits `f`. */
  ghost predicate Reads(s: string, w: string, f: string) {
    && w != [] && AllDigits(w) && AllDigits(f)
    && s == (if f == [] then w else w + "." + f)
  }

  /** The number of base units that whole digits `w` and fraction digits `f` denote. */
  function BaseUnits(w: string, f: string, D: nat): nat
    requires AllDigits(w) && AllDigits(f) && |f| <= D
  {
    NatOf(w) * Pow10(D) + NatOf(f) * Pow10(D - |f|)
  }

  lemma {:induction false} DigitRunIs(s: string, k: nat)
    requires k <= |s| && AllDigits(s[..k]) && (k < |s| ==> !IsDigit(s[k]))
    ensures DigitRun(s) == k
  {
    if k > 0 {
      assert s[0] == s[..k][0];
      assert s[1..][..k - 1] == s[..k][1..];
      DigitRunIs(s[1..], k - 1);
    }
  }

  lemma ReadsSplits(s: string, w: string, f: string)
    requires Reads(s, w, f)
    ensures MatchesAmount(s)
    ensures Split(s, '.') == if f == [] then [w] else [w, f]
  {
    SplitFree(w, '.');
    SplitFree(f, '.');
    assert s[..|w|] == w;
    DigitRunIs(s, |w|);
    if f != [] {
      assert s == w + ['.'] + f;
      SplitCons(w, '.', f);
      assert s[|w| + 1..] == f;
      DigitRunIs(f, |f|);
    }
  }

  lemma MatchSplits(s: string)
    requires MatchesAmount(s)
    ensures var parts := Split(s, '.');
            var f := if |parts| > 1 then parts[1] else "";
            Reads(s, parts[0], f)
  {
    var k := DigitRun(s);
    if k == |s| {
      assert s[..k] == s;
      ReadsSplits(s, s, "");
    } else {
      var f := s[k + 1..];
      assert f[..DigitRun(f)] == f;
      assert s == s[..k] + "." + f;
      ReadsSplits(s, s[..k], f);
    }
  }

  lemma BaseDenotes(w: string, f: string, D: nat)
    requires w != [] && AllDigits(w) && AllDigits(f) && |f| <= D
    ensures var base := w + PadEnd(f, D, '0');
            AllDigits(base) && NatOf(base) == BaseUnits(w, f, D)
            && (base == Repeat('0', |base|) <==> NatOf(base) == 0)
  {
    var padded := PadEnd(f, D, '0');
    var zeros := Repeat('0', D - |f|);
    assert padded == f + zeros;
    NatOfConcat(f, zeros);
    NatOfZero(zeros);
    NatOfConcat(w, padded);
    NatOfZero(w + padded);
  }

  lemma ParseParts(input: string, w: string, f: string, D: nat)
    requires Reads(Normalize(input), w, f)
    ensures |f| > D ==> Parse(input, D) == Err(INVALID_AMOUNT)
    ensures |f| <= D ==>
              var base := w + PadEnd(f, D, '0');
              && AllDigits(base)
              && Parse(input, D) == if base == Repeat('0', |base|) then Err(INVALID_AMOUNT)
                                    else Ok(Dec(NatOf(base)))
  {
    ReadsSplits(Normalize(input), w, f);
    if |f| <= D {
      assert Slice(PadEnd(f, D, '0'), 0, D) == PadEnd(f, D, '0');
    }
  }

  /** The result of parsing, for a string that reads as `w` and `f`. */
  lemma ParseReading(input: string, w: string, f: string, D: nat)
    requires Reads(Normalize(input), w, f)
    ensures Parse(input, D) ==
            if |f| <= D && BaseUnits(w, f, D) != 0 then Ok(Dec(BaseUnits(w, f, D)))
            else Err(INVALID_AMOUNT)
  {
    ParseParts(input, w, f, D);
    if |f| <= D {
      BaseDenotes(w, f, D);
    }
  }

  /** An input that is whole digits `w`, with fraction digits `f` after a point or a comma if there are
      any, and white space around. */
  ghost predicate ReadsAs(input: string, w: string, f: string) {
    && w != [] && AllDigits(w) && AllDigits(f)
    && exists a, b :: AllSpaces(a) && AllSpaces(b) &&
         if f == [] then input == a + w + b else input == a + w + "." + f + b || input == a + w + "," + f + b
  }

  lemma NormalizeOf(a: string, core: string, b: string)
    requires AllSpaces(a) && AllSpaces(b) && core != [] && IsDigit(core[0]) && IsDigit(core[|core| - 1])
    ensures Normalize(a + core + b) == ReplaceFirst(core, ',', '.')
  {
    TrimOf(a, core, b);
  }

  lemma {:induction false} ReadsAsNormalized(input: string, w: string, f: string)
    requires ReadsAs(input, w, f)
    ensures Reads(Normalize(input), w, f)
  {
    hide Normalize, AllSpaces;
    var a, b :| AllSpaces(a) && AllSpaces(b) &&
                if f == [] then input == a + w + b else input == a + w + "." + f + b || input == a + w + "," + f + b;
    var point, comma := w + "." + f, w + "," + f;
    if f == [] {
      NormalizeOf(a, w, b);
      ReplaceFirstAbsent(w, ',', '.');
    } else if input == a + w + "." + f + b {
      assert input == a + point + b;
      NormalizeOf(a, point, b);
      ReplaceFirstAbsent(point, ',', '.');
    } else {
      assert input == a + comma + b;
      NormalizeOf(a, comma, b);
      ReplaceFirstAt(w, ',', f, '.');
    }
  }

  lemma {:induction false} CommaReplaced(core: string, w: string, f: string)
    requires ',' in core && Reads(ReplaceFirst(core, ',', '.'), w, f)
    ensures f != [] && core == w + "," + f
  {
    hide ReplaceFirst;
    var c, d := FirstOccurrence(core, ',');
    ReplaceFirstAt(c, ',', d, '.');
    var s := c + ['.'] + d;
    assert s[|c|] == '.';
    assert c == s[..|c|] && d == s[|c| + 1..];
    assert |c| == |w|;
  }

  lemma {:induction false} NormalizedReadsAs(input: string, w: string, f: string)
    requires Reads(Normalize(input), w, f)
    ensures ReadsAs(input, w, f)
  {
    hide Trim, AllSpaces, AllDigits, ReplaceFirst;
    var a, b := TrimSplits(input);
    var core := Trim(input);
    if ',' in core {
      CommaReplaced(core, w, f);
      assert input == a + w + "," + f + b;
    } else {
      ReplaceFirstAbsent(core, ',', '.');
      if f != [] {
        assert input == a + w + "." + f + b;
      }
    }
  }

  /** The parser accepts exactly the inputs that are digits, or digits, a point or a comma, and at most D
      more digits, with white space around, and do not denote zero; the result is the numeral of
      whole * 10^D + fraction * 10^(D - |fraction|). */
  lemma {:induction false} ParserExact(input: string, D: nat)
    ensures Parse(input, D).Ok? <==>
            exists w, f :: ReadsAs(input, w, f) && |f| <= D && BaseUnits(w, f, D) != 0
    ensures forall w, f :: ReadsAs(input, w, f) ==>
              Parse(input, D) == if |f| <= D && BaseUnits(w, f, D) != 0 then Ok(Dec(BaseUnits(w, f, D)))
                                 else Err(INVALID_AMOUNT)
    ensures Parse(input, D).Err? ==> Parse(input, D) == Err(INVALID_AMOUNT)
  {
    forall w, f | ReadsAs(input, w, f)
      ensures Parse(input, D) ==
              if |f| <= D && BaseUnits(w, f, D) != 0 then Ok(Dec(BaseUnits(w, f, D)))
              else Err(INVALID_AMOUNT)
    {
      ReadsAsNormalized(input, w, f);
      ParseReading(input, w, f, D);
    }
    if Parse(input, D).Ok? {
      MatchSplits(Normalize(input));
      var parts := Split(Normalize(input), '.');
      NormalizedReadsAs(input, parts[0], if |parts| > 1 then parts[1] else "");
    }
    hide ReadsAs, BaseUnits;
  }

  /** A comma is as good as a point, and white space around an amount does not matter. */
  lemma {:induction false} SeparatorsEqual(a: string, w: string, f: string, b: string, D: nat)
    requires AllSpaces(a) && AllSpaces(b) && w != [] && AllDigits(w) && f != [] && AllDigits(f)
    ensures Parse(a + w + "," + f + b, D) == Parse(w + "." + f, D)
    ensures Parse(w + "," + f, D) ==
            if |f| <= D && BaseUnits(w, f, D) != 0 then Ok(Dec(BaseUnits(w, f, D))) else Err(INVALID_AMOUNT)
  {
    hide Parse, BaseUnits;
    assert "" + w + "." + f + "" == w + "." + f && "" + w + "," + f + "" == w + "," + f;
    assert AllSpaces("") && ReadsAs(w + "." + f, w, f) && ReadsAs(w + "," + f, w, f);
    assert ReadsAs(a + w + "," + f + b, w, f);
    ParserExact(a + w + "," + f + b, D);
    ParserExact(w + "." + f, D);
    ParserExact(w + "," + f, D);
  }

  // ---------- canonical amounts ----------

  /** No excess zeros before the point, none at the end after it. */
  ghost predicate CanonicalParts(w: string, f: string) {
    && AllDigits(w) && AllDigits(f) && NoExcessZeros(w)
    && (f == [] || f[|f| - 1] != '0')
  }

  ghost predicate Canonical(s: string) {
    exists w, f :: CanonicalParts(w, f) && Reads(s, w, f)
  }

  lemma {:induction false} StripZerosPads(s: string)
    ensures PadEnd(StripZeros(s), |s|, '0') == s
    ensures StripZeros(s) == [] || StripZeros(s)[|StripZeros(s)| - 1] != '0'
  {
    if s != [] && s[|s| - 1] == '0' {
      var init := s[..|s| - 1];
      StripZerosPads(init);
      assert PadEnd(StripZeros(s), |s|, '0') == PadEnd(StripZeros(init), |init|, '0') + ['0'];
    }
  }

  lemma {:induction false} StripZerosOfPadEnd(f: string, width: nat)
    requires |f| <= width && (f == [] || f[|f| - 1] != '0')
    ensures StripZeros(PadEnd(f, width, '0')) == f
    decreases width
  {
    if |f| < width {
      assert PadEnd(f, width, '0')[..width - 1] == PadEnd(f, width - 1, '0');
      StripZerosOfPadEnd(f, width - 1);
    }
  }

  /** The printer's slices are the last D digits and what stands before them. */
  lemma FormatSlices(padded: string, D: nat)
    requires 1 <= D < |padded|
    ensures Slice(padded, 0, -(D as int)) == padded[..|padded| - D]
    ensures Slice(padded, -(D as int), |padded|) == padded[|padded| - D..]
  {
  }

  /** What the printer writes when there is at least one decimal. */
  lemma {:induction false} FormatParts(base: string, D: nat) returns (w: string, f: string)
    requires AllDigits(base) && D >= 1
    ensures w != [] && AllDigits(w) && AllDigits(f) && |f| <= D
    ensures Reads(Format(base, D), w, f)
    ensures w + PadEnd(f, D, '0') == PadStart(base, D + 1, '0')
    ensures f == [] || f[|f| - 1] != '0'
  {
    hide NatOf, Dec, Slice;
    NatOfPadStart(base, D + 1);
    var padded := PadStart(base, D + 1, '0');
    var tail := padded[|padded| - D..];
    FormatSlices(padded, D);
    StripZerosPads(tail);
    w := padded[..|padded| - D];
    f := StripZeros(tail);
    assert padded == w + tail;
  }

  lemma FormatCanonical(n: nat, D: nat) returns (w: string, f: string)
    requires D >= 1
    ensures CanonicalParts(w, f) && Reads(Format(Dec(n), D), w, f)
    ensures |f| <= D && BaseUnits(w, f, D) == n
  {
    w, f := FormatParts(Dec(n), D);
    DecDenotes(n);
    NatOfPadStart(Dec(n), D + 1);
    BaseDenotes(w, f, D);
    if |w| > 1 {
      assert w[0] == (w + PadEnd(f, D, '0'))[0];
    }
  }

  lemma {:induction false} NormalizeReading(s: string, w: string, f: string)
    requires Reads(s, w, f)
    ensures Normalize(s) == s
  {
    hide TrimStart, TrimEnd;
    assert s[0] == w[0];
    assert s[|s| - 1] == if f == [] then w[|w| - 1] else f[|f| - 1];
    TrimmedStays(s);
    ReplaceFirstAbsent(s, ',', '.');
  }

  lemma PadOfReading(w: string, f: string, D: nat)
    requires CanonicalParts(w, f) && |f| <= D
    ensures PadStart(Dec(BaseUnits(w, f, D)), D + 1, '0') == w + PadEnd(f, D, '0')
  {
    var base := w + PadEnd(f, D, '0');
    BaseDenotes(w, f, D);
    if |w| == 1 {
      PadStartOfDec(base);
    } else {
      assert base[0] == w[0];
      DecOfNatOf(base);
    }
  }

  /** The printer inverts every canonical reading. */
  lemma {:induction false} FormatOfReading(w: string, f: string, D: nat)
    requires CanonicalParts(w, f) && |f| <= D && D >= 1
    ensures Reads(Format(Dec(BaseUnits(w, f, D)), D), w, f)
  {
    hide NatOf, Dec, BaseUnits, Slice, StripZeros;
    PadOfReading(w, f, D);
    var base := w + PadEnd(f, D, '0');
    FormatSlices(base, D);
    assert base[..|base| - D] == w && base[|base| - D..] == PadEnd(f, D, '0');
    StripZerosOfPadEnd(f, D);
  }

  // ---------- the parser and the printer undo each other ----------

  /** Parsing the printed form of n base units gives n back, for every D >= 1. */
  lemma ParseOfFormat(n: nat, D: nat)
    requires n > 0 && D >= 1
    ensures Parse(Format(Dec(n), D), D) == Ok(Dec(n))
  {
    var w, f := FormatCanonical(n, D);
    NormalizeReading(Format(Dec(n), D), w, f);
    ParseReading(Format(Dec(n), D), w, f, D);
  }

  /** With no decimals the printer writes every positive amount with a fraction. */
  lemma {:induction false} FormatWithoutDecimals(base: string)
    requires AllDigits(base) && base != [] && !AllZeros(base)
    ensures Format(base, 0) == "0." + StripZeros(base)
    ensures Parse(Format(base, 0), 0).Err?
  {
    hide Parse, Normalize, BaseUnits;
    assert Slice(base, 0, |base|) == base;
    assert StripZeros(base) != [] by {
      StripZerosPads(base);
      assert PadEnd([], |base|, '0') == Repeat('0', |base|);
    }
    assert forall i :: 0 <= i < |StripZeros(base)| ==> StripZeros(base)[i] == base[i];
    assert Reads(Format(base, 0), "0", StripZeros(base));
    NormalizeReading(Format(base, 0), "0", StripZeros(base));
    ParseReading(Format(base, 0), "0", StripZeros(base), 0);
  }

  /** The exact condition of the round trip: at least one decimal is configured. */
  lemma RoundTripIff(n: nat, D: nat)
    requires n > 0
    ensures Parse(Format(Dec(n), D), D) == Ok(Dec(n)) <==> D >= 1
  {
    if D >= 1 {
      ParseOfFormat(n, D);
    } else {
      DecDenotes(n);
      NatOfZero(Dec(n));
      FormatWithoutDecimals(Dec(n));
    }
  }

  /** With no decimals 5 base units are shown as 0.5, and so are 50. */
  lemma NoDecimalsCounterexample()
    ensures Format("5", 0) == "0.5" && Format("50", 0) == "0.5" && Parse("0.5", 0).Err?
  {
    assert StripZeros("50") == StripZeros("50"[..1]) && "50"[..1] == "5";
    assert Slice("5", 0, 1) == "5" && Slice("50", 0, 2) == "50";
    assert AllDigits("5");
    FormatWithoutDecimals("5");
  }

  lemma ParsedIsPositive(input: string, D: nat) returns (n: nat)
    requires Parse(input, D).Ok?
    ensures n > 0 && Parse(input, D).value == Dec(n)
  {
    ParserExact(input, D);
    var w, f :| ReadsAs(input, w, f) && |f| <= D && BaseUnits(w, f, D) != 0;
    n := BaseUnits(w, f, D);
  }

  /** Printing what was parsed gives a canonical amount that parses to the same base units; it is
      the input itself exactly when the input was canonical. */
  lemma FormatOfParse(input: string, D: nat)
    requires D >= 1 && Parse(input, D).Ok?
    ensures var shown := Format(Parse(input, D).value, D);
            && Canonical(shown)
            && Parse(shown, D) == Parse(input, D)
            && (shown == input <==> Canonical(input))
  {
    var n := ParsedIsPositive(input, D);
    var w, f := FormatCanonical(n, D);
    ParseOfFormat(n, D);
    if Canonical(input) {
      var w', f' :| CanonicalParts(w', f') && Reads(input, w', f');
      NormalizeReading(input, w', f');
      ParseReading(input, w', f', D);
      DecInjective(n, BaseUnits(w', f', D));
      FormatOfReading(w', f', D);
    }
  }

  /** Two accepted inputs are shown alike exactly when they denote the same base units. */
  lemma ShownAlikeIff(a: string, b: string, D: nat)
    requires D >= 1 && Parse(a, D).Ok? && Parse(b, D).Ok?
    ensures Format(Parse(a, D).value, D) == Format(Parse(b, D).value, D)
            <==> Parse(a, D).value == Parse(b, D).value
  {
    FormatOfParse(a, D);
    FormatOfParse(b, D);
  }

  /** Without decimals two positive amounts are shown alike exactly when they differ only in zeros at
      the end of their numerals. */
  lemma ShownAlikeWithoutDecimalsIff(a: nat, b: nat)
    requires a > 0 && b > 0
    ensures Format(Dec(a), 0) == Format(Dec(b), 0) <==> StripZeros(Dec(a)) == StripZeros(Dec(b))
  {
    DecDenotes(a);
    DecDenotes(b);
    NatOfZero(Dec(a));
    NatOfZero(Dec(b));
    FormatWithoutDecimals(Dec(a));
    FormatWithoutDecimals(Dec(b));
    var s, t := StripZeros(Dec(a)), StripZeros(Dec(b));
    assert s == ("0." + s)[2..] && t == ("0." + t)[2..];
  }

  // ---------- recipient addresses ----------

  /** `isValidAddress` */
  predicate IsValidAddress(address: string, prefix: string) {
    && HasPrefix(address, prefix)
    && var body := address[|prefix|..];
       20 <= |body| <= 90
       && forall i :: 0 <= i < |body| ==> 'a' <= body[i] <= 'z' || IsDigit(body[i])
  }

  /** The valid addresses are the prefix followed by 20 to 90 lower-case letters and digits. */
  lemma ValidAddressIff(address: string, prefix: string)
    ensures IsValidAddress(address, prefix) <==>
            exists body :: address == prefix + body && 20 <= |body| <= 90
                           && forall c :: c in body ==> c in "abcdefghijklmnopqrstuvwxyz" || c in "0123456789"
  {
    LowerLetters();
    Digits();
    if IsValidAddress(address, prefix) {
      var body := address[|prefix|..];
      assert address == prefix + body;
    }
    if body :| address == prefix + body && 20 <= |body| <= 90
               && forall c :: c in body ==> c in "abcdefghijklmnopqrstuvwxyz" || c in "0123456789" {
      assert body == address[|prefix|..] && forall i :: 0 <= i < |body| ==> body[i] in body;
    }
  }
}
