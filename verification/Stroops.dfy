/**
  The front end's conversion between stroops (USDC with seven decimals) and text.
 */
module Stroops {
  import opened Platform
  import Text

  const STROOPS := 10_000_000

  // ---- Decimal digits ----

  predicate IsDigit(c: char) {
    '0' <= c <= '9'
  }

  predicate IsDigits(s: string) {
    forall i :: 0 <= i < |s| ==> IsDigit(s[i])
  }

  function DigitValue(c: char): int
    requires IsDigit(c)
  {
    c as int - '0' as int
  }

  function OfNat(n: nat): string {
    var last := ('0' as int + n % 10) as char;
    if n < 10 then [last] else OfNat(n / 10) + [last]
  }

  function OfInt(n: int): string {
    if n < 0 then "-" + OfNat(-n) else OfNat(n)
  }

  function ToNat(s: string): (n: int)
    requires IsDigits(s)
    ensures n >= 0
  {
    if s == [] then 0 else 10 * ToNat(s[..|s| - 1]) + DigitValue(s[|s| - 1])
  }

  /** The big-integer reading of a text: empty is 0, an optional sign, else digits only. */
  function BigInt(s: string): Option<int> {
    if IsDigits(s) then Some(ToNat(s))
    else if |s| >= 2 && s[0] == '-' && IsDigits(s[1..]) then Some(-ToNat(s[1..]))
    else if |s| >= 2 && s[0] == '+' && IsDigits(s[1..]) then Some(ToNat(s[1..]))
    else None
  }

  // ---- Padding and stripping ----

  function Zeros(n: nat): (z: string)
    ensures |z| == n && forall i :: 0 <= i < n ==> z[i] == '0'
  {
    seq(n, i => '0')
  }

  function PadStart(s: string, n: nat): string {
    if |s| >= n then s else Zeros(n - |s|) + s
  }

  function PadEnd(s: string, n: nat): string {
    if |s| >= n then s else s + Zeros(n - |s|)
  }

  function StripTrailing(s: string): (r: string)
    ensures |r| <= |s| && r == s[..|r|]
    ensures forall i :: |r| <= i < |s| ==> s[i] == '0'
    ensures r != [] ==> r[|r| - 1] != '0'
  {
    if s != [] && s[|s| - 1] == '0' then StripTrailing(s[..|s| - 1]) else s
  }

  /** Leading zeros dropped, but one digit kept. */
  function StripLeading(s: string): string {
    if s == [] then "0" else if |s| >= 2 && s[0] == '0' then StripLeading(s[1..]) else s
  }

  // ---- The two conversions ----

  /** The printed fraction: padded to seven places, trailing zeros dropped. */
  function FractionText(rest: int): string {
    StripTrailing(PadStart(OfInt(rest), 7))
  }

  /** A fraction padded and cut to seven places. */
  function SevenPlaces(frac: string): (p: string)
    ensures |p| == 7
  {
    PadEnd(frac, 7)[..7]
  }

  /** How the parser reads a fraction. */
  function ReadFraction(frac: string): Option<int> {
    BigInt(SevenPlaces(frac))
  }

  function Format(stroops: int): string {
    var whole := TruncDiv(stroops, STROOPS);
    var frac := FractionText(stroops - whole * STROOPS);
    if frac != "" then OfInt(whole) + "." + frac else OfInt(whole)
  }

  /** None where the original throws. */
  function Parse(usdc: string): Option<int> {
    var pieces := Text.Split(usdc, '.');
    var frac := if |pieces| > 1 then pieces[1] else "";
    var whole, part := BigInt(pieces[0]), ReadFraction(frac);
    if whole.Some? && part.Some? then Some(whole.value * STROOPS + part.value) else None
  }

  // ---- Digits and numbers ----

  lemma {:induction false} OfNatDigits(n: nat)
    ensures IsDigits(OfNat(n)) && OfNat(n) != []
    ensures ToNat(OfNat(n)) == n
    ensures n > 0 ==> OfNat(n)[0] != '0'
  {
    if n >= 10 {
      OfNatDigits(n / 10);
      var s := OfNat(n);
      assert s[..|s| - 1] == OfNat(n / 10);
    }
  }

  function Pow10(k: nat): nat {
    if k == 0 then 1 else 10 * Pow10(k - 1)
  }

  lemma {:induction false} OfNatLength(n: nat, k: nat)
    requires k >= 1
    ensures |OfNat(n)| <= k <==> n < Pow10(k)
  {
    if k > 1 && n >= 10 {
      OfNatLength(n / 10, k - 1);
    } else if k == 1 {
      assert n >= 10 ==> OfNat(n / 10) != [] by { if n >= 10 { OfNatDigits(n / 10); } }
    } else {
      assert Pow10(k - 1) >= 1 by { Pow10Positive(k - 1); }
    }
  }

  lemma {:induction false} Pow10Positive(k: nat)
    ensures Pow10(k) >= 1
  {
    if k > 0 { Pow10Positive(k - 1); }
  }

  lemma {:induction false} ToNatZero(s: string)
    requires IsDigits(s) && s != [] && s[0] == '0'
    ensures ToNat(s) == ToNat(s[1..])
  {
    if |s| > 1 {
      ToNatZero(s[..|s| - 1]);
      assert s[..|s| - 1][1..] == s[1..][..|s| - 2];
    }
  }

  lemma {:induction false} ToNatZeros(n: nat, s: string)
    requires IsDigits(s)
    ensures IsDigits(Zeros(n) + s) && ToNat(Zeros(n) + s) == ToNat(s)
  {
    if n == 0 {
      assert Zeros(n) + s == s;
    } else {
      assert (Zeros(n) + s)[1..] == Zeros(n - 1) + s;
      ToNatZeros(n - 1, s);
      ToNatZero(Zeros(n) + s);
    }
  }

  lemma {:induction false} ToNatBelow(s: string)
    requires IsDigits(s)
    ensures ToNat(s) < Pow10(|s|)
  {
    if s != [] {
      ToNatBelow(s[..|s| - 1]);
    }
  }

  lemma {:induction false} CanonicalDigits(s: string)
    requires IsDigits(s) && s != [] && s[0] != '0'
    ensures ToNat(s) > 0 && OfNat(ToNat(s)) == s
  {
    if |s| > 1 {
      CanonicalDigits(s[..|s| - 1]);
    }
  }

  /** Printing what was read drops the leading zeros. */
  lemma {:induction false} OfNatToNat(s: string)
    requires IsDigits(s)
    ensures OfNat(ToNat(s)) == StripLeading(s)
  {
    if s != [] && s[0] != '0' {
      CanonicalDigits(s);
    } else if |s| >= 2 {
      OfNatToNat(s[1..]);
      ToNatZero(s);
    }
  }

  lemma {:induction false} PadStripLeading(s: string)
    requires s != []
    ensures PadStart(StripLeading(s), |s|) == s
  {
    if |s| >= 2 && s[0] == '0' {
      PadStripLeading(s[1..]);
      var r := StripLeading(s);
      assert PadStart(r, |s| - 1) == s[1..];
      assert |r| <= |s| - 1 by { StripLeadingShorter(s[1..]); }
      assert PadStart(r, |s|) == "0" + PadStart(r, |s| - 1);
      assert s == "0" + s[1..];
    }
  }

  lemma {:induction false} StripLeadingShorter(s: string)
    requires s != []
    ensures |StripLeading(s)| <= |s|
  {
    if |s| >= 2 && s[0] == '0' { StripLeadingShorter(s[1..]); }
  }

  // ---- Fractions ----

  /** Padding undoes stripping, on any text of at least seven characters up to the seventh. */
  lemma RestoreFraction(s: string)
    requires |s| >= 7
    ensures SevenPlaces(StripTrailing(s)) == s[..7]
  {
    var r := StripTrailing(s);
    hide StripTrailing;
    var p := SevenPlaces(r);
    forall i | 0 <= i < 7 ensures p[i] == s[..7][i] {
      if i < |r| {
        assert r[i] == s[i];
      }
    }
  }

  lemma {:induction false} StripTrailingZeros(s: string, n: nat)
    ensures StripTrailing(s + Zeros(n)) == StripTrailing(s)
  {
    if n == 0 {
      assert s + Zeros(0) == s;
    } else {
      assert (s + Zeros(n))[..|s| + n - 1] == s + Zeros(n - 1);
      StripTrailingZeros(s, n - 1);
    }
  }

  lemma DigitsHaveNoDot(s: string)
    requires forall i :: 0 <= i < |s| ==> IsDigit(s[i]) || s[i] == '-'
    ensures '.' !in s
  {
  }

  /** Parsing two dot-free pieces. */
  lemma ParsePieces(whole: string, frac: string)
    requires '.' !in whole && '.' !in frac
    ensures var part := ReadFraction(frac);
            Parse(whole + "." + frac) ==
            if BigInt(whole).Some? && part.Some? then Some(BigInt(whole).value * STROOPS + part.value) else None
  {
    hide Text.Split, ReadFraction, BigInt;
    Text.SplitFirst(whole, frac, '.');
    Text.SplitNone(frac, '.');
    assert Text.Split(whole + "." + frac, '.') == [whole, frac];
  }

  lemma ParseWhole(whole: string)
    requires '.' !in whole
    ensures Parse(whole) == if BigInt(whole).Some? then Some(BigInt(whole).value * STROOPS) else None
  {
    Text.SplitNone(whole, '.');
    ToNatZeros(7, []);
    assert SevenPlaces("") == Zeros(7) + [];
  }

  lemma OfIntReads(n: int)
    ensures BigInt(OfInt(n)) == Some(n)
    ensures '.' !in OfInt(n)
  {
    hide OfNat, ToNat;
    if n >= 0 {
      OfNatDigits(n);
    } else {
      OfNatDigits(-n);
      assert OfInt(n)[1..] == OfNat(-n);
    }
  }

  // ---- Round trip ----

  lemma LengthBounds(m: nat)
    ensures |OfNat(m)| <= 5 <==> m < 100_000
    ensures |OfNat(m)| <= 6 <==> m < 1_000_000
    ensures |OfNat(m)| <= 7 <==> m < STROOPS
  {
    OfNatLength(m, 5);
    OfNatLength(m, 6);
    OfNatLength(m, 7);
    assert Pow10(5) == 100_000 && Pow10(6) == 1_000_000 && Pow10(7) == STROOPS;
  }

  /** A padded text is read back from its stripped form. */
  lemma ReadStripped(p: string)
    requires |p| >= 7
    ensures ReadFraction(StripTrailing(p)) == BigInt(p[..7])
  {
    RestoreFraction(p);
  }

  lemma PaddedDigits(m: nat)
    requires m < STROOPS
    ensures var p := PadStart(OfInt(m), 7);
            |p| == 7 && IsDigits(p) && ToNat(p) == m
  {
    OfNatDigits(m);
    LengthBounds(m);
    var d := OfNat(m);
    hide OfNat, ToNat;
    ToNatZeros(7 - |d|, d);
    assert Zeros(0) + d == d;
  }

  lemma {:induction false} StripDigits(p: string)
    requires IsDigits(p)
    ensures IsDigits(StripTrailing(p))
    ensures StripTrailing(p) == "" <==> ToNat(p) == 0
  {
    if p != [] {
      StripDigits(p[..|p| - 1]);
    }
  }

  /** The fraction of a non-negative amount is empty exactly for whole amounts and reads back as itself. */
  lemma FractionReads(m: nat)
    requires m < STROOPS
    ensures FractionText(m) == "" <==> m == 0
    ensures IsDigits(FractionText(m))
    ensures ReadFraction(FractionText(m)) == Some(m)
  {
    hide *;
    var p := PadStart(OfInt(m), 7);
    PaddedDigits(m);
    FractionTextIs(m);
    StripDigits(p);
    ReadStripped(p);
    assert p[..7] == p;
    DigitsRead(p);
  }

  lemma StripEmpty()
    ensures StripTrailing("") == ""
  {
  }

  /** Parsing what was printed, in terms of the two printed parts. */
  lemma FormatThenParse(n: int, whole: int, rest: int)
    requires whole == TruncDiv(n, STROOPS) && rest == n - whole * STROOPS
    requires '.' !in FractionText(rest)
    ensures Parse(Format(n)) ==
            if FractionText(rest) == "" then Some(whole * STROOPS)
            else var part := ReadFraction(FractionText(rest));
                 if part.Some? then Some(whole * STROOPS + part.value) else None
  {
    OfIntReads(whole);
    hide OfInt, FractionText, ReadFraction, BigInt, TruncDiv, Parse;
    if FractionText(rest) == "" {
      ParseWhole(OfInt(whole));
    } else {
      ParsePieces(OfInt(whole), FractionText(rest));
    }
  }

  lemma RoundTripNonNegative(n: nat)
    ensures Parse(Format(n)) == Some(n)
  {
    var q, m := n / STROOPS, n % STROOPS;
    hide FractionText, ReadFraction, Parse, Format;
    FractionReads(m);
    DigitsHaveNoDot(FractionText(m));
    FormatThenParse(n, q, m);
  }

  /** The padded fraction of a negative amount: a sign, pushed to the right by zeros if there is room. */
  lemma NegativePadded(m: int, d: string)
    requires 0 < m < STROOPS && d == OfNat(m)
    ensures IsDigits(d) && d != [] && d[0] != '0'
    ensures PadStart(OfInt(-m), 7) == Zeros(if |d| <= 6 then 6 - |d| else 0) + ("-" + d)
  {
    OfNatDigits(m);
    LengthBounds(m);
    hide OfNat;
    assert OfInt(-m) == "-" + d;
    assert Zeros(0) + ("-" + d) == "-" + d;
  }

  lemma SignedReads(d: string)
    requires IsDigits(d) && d != []
    ensures BigInt("-" + d) == Some(-ToNat(d))
  {
    assert ("-" + d)[1..] == d;
  }

  /** A sign inside the seven places does not parse ... */
  lemma ShortNegativeReads(d: string, p: string)
    requires IsDigits(d) && 1 <= |d| <= 5 && p == Zeros(6 - |d|) + ("-" + d)
    ensures |p| == 7 && p[..7] == p && BigInt(p).None?
  {
    hide ToNat;
    assert p[0] == '0' && p[6 - |d|] == '-';
  }

  /** ... and one in front of them does. */
  lemma LongNegativeReads(d: string, p: string)
    requires IsDigits(d) && 6 <= |d| <= 7 && p == Zeros(0) + ("-" + d)
    ensures |p| == |d| + 1
    ensures BigInt(p[..7]) == Some(-ToNat(d[..6]))
  {
    hide ToNat, BigInt;
    assert IsDigits(d[..6]);
    assert p[..7] == "-" + d[..6];
    SignedReads(d[..6]);
  }

  lemma SignedHasNoDot(d: string, n: nat)
    requires IsDigits(d)
    ensures '.' !in Zeros(n) + ("-" + d)
  {
    DigitsHaveNoDot(Zeros(n) + ("-" + d));
  }

  /** The padded text of a negative fraction, as the parser sees it. */
  lemma NegativeReads(d: string, p: string)
    requires IsDigits(d) && 1 <= |d| <= 7
    requires p == Zeros(if |d| <= 6 then 6 - |d| else 0) + ("-" + d)
    ensures |p| >= 7 && '.' !in p
    ensures |d| <= 5 ==> BigInt(p[..7]).None?
    ensures |d| == 6 ==> BigInt(p[..7]) == Some(-ToNat(d))
    ensures |d| == 7 ==> BigInt(p[..7]) == Some(-ToNat(d[..6]))
  {
    SignedHasNoDot(d, if |d| <= 6 then 6 - |d| else 0);
    hide *;
    if |d| <= 5 {
      ShortNegativeReads(d, p);
    } else {
      LongNegativeReads(d, p);
      if |d| == 6 {
        assert d[..6] == d;
      }
    }
  }

  lemma StrippedNonEmpty(p: string, i: nat)
    requires i < |p| && p[i] != '0' && '.' !in p
    ensures StripTrailing(p) != "" && '.' !in StripTrailing(p)
  {
    var r := StripTrailing(p);
    hide StripTrailing;
    assert forall c :: c in r ==> c in p;
  }

  /** Five digits or fewer do not parse, six read back, seven lose the last one. */
  lemma NegativeFraction(m: int)
    requires 0 < m < STROOPS
    ensures FractionText(-m) != "" && '.' !in FractionText(-m)
    ensures m < 100_000 ==> ReadFraction(FractionText(-m)).None?
    ensures 100_000 <= m < 1_000_000 ==> ReadFraction(FractionText(-m)) == Some(-m)
    ensures 1_000_000 <= m ==> ReadFraction(FractionText(-m)) == Some(-(m / 10))
  {
    hide *;
    var d := OfNat(m);
    var p := PadStart(OfInt(-m), 7);
    NegativePadded(m, d);
    LengthBounds(m);
    OfNatDigits(m);
    if m >= 1_000_000 { DropLastDigit(m); }
    NegativeReads(d, p);
    ReadStripped(p);
    StrippedNonEmpty(p, |p| - |d|);
    FractionTextIs(-m);
  }

  lemma DropLastDigit(m: int)
    requires 1_000_000 <= m < STROOPS
    ensures |OfNat(m)| == 7 && IsDigits(OfNat(m)[..6]) && ToNat(OfNat(m)[..6]) == m / 10
  {
    LengthBounds(m);
    assert OfNat(m)[..6] == OfNat(m / 10);
    OfNatDigits(m / 10);
  }

  lemma FractionTextIs(rest: int)
    ensures FractionText(rest) == StripTrailing(PadStart(OfInt(rest), 7))
  {
  }

  lemma TruncNegative(n: int, q: int, m: int)
    requires n == -(q * STROOPS + m) && 0 <= q && 0 <= m < STROOPS && n < 0
    ensures TruncDiv(n, STROOPS) == -q
    ensures n == -q * STROOPS - m && STROOPS > 0
  {
  }

  lemma NegativeRoundTrip(n: int, q: int, m: int)
    requires n == -(q * STROOPS + m) && 0 <= q && 0 <= m < STROOPS && n < 0
    ensures Parse(Format(n)) == Some(n) <==> m == 0 || 100_000 <= m < 1_000_000
  {
    hide *;
    TruncNegative(n, q, m);
    if m == 0 {
      FractionReads(0);
    } else {
      NegativeFraction(m);
      assert m / 10 < m;
    }
    FormatThenParse(n, -q, -m);
  }

  /**
    Parsing a formatted amount gives the amount back for every non-negative
    amount, and for a negative one exactly when its fraction is zero or has six
    digits: with fewer digits the text does not parse, with seven it loses one.
   */
  lemma RoundTrip(n: int)
    ensures Parse(Format(n)) == Some(n) <==> n >= 0 || -n % STROOPS == 0 || 100_000 <= -n % STROOPS < 1_000_000
  {
    hide Parse, Format;
    if n >= 0 {
      RoundTripNonNegative(n);
    } else {
      NegativeRoundTrip(n, -n / STROOPS, -n % STROOPS);
    }
  }

  lemma FormatInjective(a: nat, b: nat)
    requires Format(a) == Format(b)
    ensures a == b
  {
    RoundTripNonNegative(a);
    RoundTripNonNegative(b);
  }

  // ---- The other direction ----

  /** Leading zeros dropped, the fraction cut to seven digits and its trailing zeros dropped. */
  function Canonical(whole: string, frac: string): string {
    var kept := StripTrailing(if |frac| <= 7 then frac else frac[..7]);
    if kept == "" then StripLeading(whole) else StripLeading(whole) + "." + kept
  }

  lemma KeptFraction(frac: string)
    requires IsDigits(frac)
    ensures var p := SevenPlaces(frac);
            && |p| == 7 && IsDigits(p)
            && StripTrailing(p) == StripTrailing(if |frac| <= 7 then frac else frac[..7])
  {
    hide StripTrailing;
    if |frac| <= 7 {
      assert frac + Zeros(0) == frac;
      assert SevenPlaces(frac) == frac + Zeros(7 - |frac|);
      StripTrailingZeros(frac, 7 - |frac|);
    }
  }

  lemma FormatIs(n: int, whole: int, rest: int)
    requires whole == TruncDiv(n, STROOPS) && rest == n - whole * STROOPS
    ensures Format(n) ==
            if FractionText(rest) == "" then OfInt(whole) else OfInt(whole) + "." + FractionText(rest)
  {
  }

  lemma OfIntIs(n: nat)
    ensures OfInt(n) == OfNat(n)
  {
  }

  lemma SevenDigitsBelow(p: string)
    requires IsDigits(p) && |p| == 7
    ensures 0 <= ToNat(p) < STROOPS
  {
    ToNatBelow(p);
    assert Pow10(7) == STROOPS;
  }

  lemma WholeOf(w: nat, rest: nat)
    requires rest < STROOPS
    ensures TruncDiv(w * STROOPS + rest, STROOPS) == w
    ensures w * STROOPS + rest >= 0
  {
  }

  lemma FormatOfParts(w: nat, p: string)
    requires IsDigits(p) && |p| == 7
    ensures Format(w * STROOPS + ToNat(p)) ==
            if StripTrailing(p) == "" then OfNat(w) else OfNat(w) + "." + StripTrailing(p)
  {
    hide *;
    var rest := ToNat(p);
    SevenDigitsBelow(p);
    WholeOf(w, rest);
    FormatIs(w * STROOPS + rest, w, rest);
    OfIntIs(w);
    OfIntIs(rest);
    OfNatToNat(p);
    PadStripLeading(p);
    FractionTextIs(rest);
  }

  lemma DigitsRead(s: string)
    requires IsDigits(s)
    ensures BigInt(s) == Some(ToNat(s)) && '.' !in s
  {
  }

  /** Formatting a parsed decimal gives its canonical form. */
  lemma ParseThenFormat(whole: string, frac: string)
    requires IsDigits(whole) && IsDigits(frac)
    ensures var amount := Parse(whole + "." + frac);
            amount.Some? && Format(amount.value) == Canonical(whole, frac)
  {
    hide *;
    DigitsRead(whole);
    DigitsRead(frac);
    ParsePieces(whole, frac);
    KeptFraction(frac);
    DigitsRead(SevenPlaces(frac));
    ReadFractionIs(frac);
    OfNatToNat(whole);
    FormatOfParts(ToNat(whole), SevenPlaces(frac));
    CanonicalIs(whole, frac);
  }

  lemma ReadFractionIs(frac: string)
    ensures ReadFraction(frac) == BigInt(SevenPlaces(frac))
  {
  }

  lemma CanonicalIs(whole: string, frac: string)
    ensures var kept := StripTrailing(if |frac| <= 7 then frac else frac[..7]);
            Canonical(whole, frac) == if kept == "" then StripLeading(whole) else StripLeading(whole) + "." + kept
  {
  }

  /** A text without a point counts as one without a fraction. */
  lemma ParseWholeThenFormat(whole: string)
    requires IsDigits(whole)
    ensures Parse(whole).Some? && Format(Parse(whole).value) == StripLeading(whole)
  {
    hide *;
    DigitsRead(whole);
    ParseWhole(whole);
    OfNatToNat(whole);
    NoFraction();
    KeptFraction("");
    StripEmpty();
    FormatOfParts(ToNat(whole), SevenPlaces(""));
  }

  lemma NoFraction()
    ensures IsDigits(SevenPlaces("")) && ToNat(SevenPlaces("")) == 0 && IsDigits("")
  {
    ToNatZeros(7, []);
    assert SevenPlaces("") == Zeros(7) + [];
  }

  /** What follows a second point is ignored. */
  lemma RestIgnored(whole: string, frac: string, rest: string)
    requires '.' !in whole && '.' !in frac
    ensures Parse(whole + "." + frac + "." + rest) == Parse(whole + "." + frac)
  {
    hide Text.Split, ReadFraction, BigInt;
    Text.SplitFirst(whole, frac, '.');
    Text.SplitNone(frac, '.');
    Text.SplitFirst(whole, frac + "." + rest, '.');
    Text.SplitFirst(frac, rest, '.');
    var more := Text.Split(rest, '.');
    assert whole + "." + frac + "." + rest == whole + ['.'] + (frac + "." + rest);
    assert Text.Split(whole + "." + frac + "." + rest, '.') == [whole] + ([frac] + more);
    assert Text.Split(whole + "." + frac, '.') == [whole, frac];
  }

  // ---- What the texts mean ----

  /** A printed amount: its whole units without leading zeros, and its ten-millionths as a fraction without trailing zeros. */
  lemma FormatExactly(n: nat) returns (whole: string, frac: string)
    ensures IsDigits(whole) && whole != "" && (|whole| > 1 ==> whole[0] != '0') && ToNat(whole) == n / 10_000_000
    ensures IsDigits(frac) && |frac| <= 7 && (frac != "" ==> frac[|frac| - 1] != '0')
    ensures IsDigits(frac + Zeros(7 - |frac|)) && ToNat(frac + Zeros(7 - |frac|)) == n % 10_000_000
    ensures Format(n) == if frac == "" then whole else whole + "." + frac
  {
    var units, rest := n / 10_000_000, n % 10_000_000;
    assert n == units * STROOPS + rest;
    whole, frac := OfNat(units), FractionText(rest);
    OfNatDigits(units);
    PaddedDigits(rest);
    var p := PadStart(OfInt(rest), 7);
    StripDigits(p);
    assert frac + Zeros(7 - |frac|) == p;
    FormatIs(n, units, rest);
    assert |whole| > 1 ==> units > 0;
    hide Format, ToNat, OfNat;
  }

  /** Exactly these texts read as big integers: digits, and digits after one sign. */
  lemma BigIntExactly(s: string, digits: string)
    requires IsDigits(digits)
    ensures BigInt(digits) == Some(ToNat(digits))
    ensures digits != "" ==> BigInt("-" + digits) == Some(-ToNat(digits)) && BigInt("+" + digits) == Some(ToNat(digits))
    ensures BigInt(s).Some? ==>
              IsDigits(s) || (|s| >= 2 && (s[0] == '-' || s[0] == '+') && IsDigits(s[1..]))
  {
    assert ("-" + digits)[1..] == digits && ("+" + digits)[1..] == digits;
    hide ToNat;
    assert ("-" + digits)[0] == '-' && ("+" + digits)[0] == '+';
  }

  lemma FractionDigits(frac: string)
    requires IsDigits(frac)
    ensures IsDigits(SevenPlaces(frac)) && ReadFraction(frac) == Some(ToNat(SevenPlaces(frac)))
    ensures '.' !in frac
  {
    hide ToNat;
  }

  /** A dot-free text that reads as a number, and digits after the point. */
  lemma PartsRead(whole: string, value: int, frac: string)
    requires BigInt(whole) == Some(value) && '.' !in whole && IsDigits(frac)
    ensures IsDigits(SevenPlaces(frac)) && Parse(whole + "." + frac) == Some(value * STROOPS + ToNat(SevenPlaces(frac)))
  {
    hide ToNat, Parse, BigInt, SevenPlaces;
    FractionDigits(frac);
    ParsePieces(whole, frac);
  }

  /** A leading minus makes the whole part negative and leaves the fraction positive. */
  lemma MinusIsOfTheWhole(whole: string, frac: string)
    requires IsDigits(whole) && whole != "" && IsDigits(frac)
    ensures IsDigits(SevenPlaces(frac))
    ensures Parse("-" + whole + "." + frac) == Some(ToNat(SevenPlaces(frac)) - ToNat(whole) * 10_000_000)
    ensures Parse(whole + "." + frac) == Some(ToNat(SevenPlaces(frac)) + ToNat(whole) * 10_000_000)
  {
    hide ToNat, Parse, BigInt, SevenPlaces;
    var minus := "-" + whole;
    BigIntExactly(whole, whole);
    DigitsHaveNoDot(whole);
    DigitsHaveNoDot(minus);
    PartsRead(minus, -ToNat(whole), frac);
    PartsRead(whole, ToNat(whole), frac);
  }
}
