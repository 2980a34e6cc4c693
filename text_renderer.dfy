/**
 * Text of the analyser (text_renderer.cpp): durations and time points written as decimal text
 * into a fixed character buffer from the right, and the renderer's cache of rendered
 * inscriptions, which is swept every 30 frames of entries unused for 60 frames.
 * Strings are the UTF-8 bytes the source stores in `std::string`.
 */
module TextRendering {
  import opened Bytes
  import opened Arith

  const Int64Limit: int := 0x8000_0000_0000_0000

  const Zero: byte := 48
  const DotChar: byte := 46
  const Minus: byte := 45
  const Space: byte := 32
  /** U+00B5 MICRO SIGN in UTF-8. */
  const Micro: Text := [0xC2, 0xB5]

  function Abs(v: int): nat
  {
    if v < 0 then -v else v
  }

  function Min(a: int, b: int): int
  {
    if a < b then a else b
  }

  /** The character of a decimal digit. */
  function Digit(d: nat): (c: byte)
    requires d < 10
    ensures Zero <= c <= Zero + 9
  {
    (48 + d) as byte
  }

  predicate IsDigit(c: byte)
  {
    Zero <= c <= Zero + 9
  }

  /** Every character is a decimal digit. */
  predicate AllDigits(s: Text)
  {
    forall i :: 0 <= i < |s| ==> IsDigit(s[i])
  }

  function DigitValue(c: byte): nat
    requires IsDigit(c)
  {
    (c - Zero) as nat
  }

  /** The decimal digits of `n`, most significant first, with none at all for 0. */
  function DigitsOf(n: nat): (ds: Text)
    ensures |ds| == 0 <==> n == 0
    ensures AllDigits(ds)
  {
    if n == 0 then [] else DigitsOf(n / 10) + [Digit(n % 10)]
  }

  /** The number a string of decimal digits spells. */
  function Value(ds: Text): nat
    requires AllDigits(ds)
  {
    if ds == [] then 0 else 10 * Value(ds[..|ds| - 1]) + DigitValue(ds[|ds| - 1])
  }

  /** Reading the digits back gives the number. */
  lemma {:induction false} ValueOfDigits(n: nat)
    ensures Value(DigitsOf(n)) == n
  {
    if n > 0 {
      var ds := DigitsOf(n);
      assert ds[..|ds| - 1] == DigitsOf(n / 10);
      ValueOfDigits(n / 10);
    }
  }

  /** The leading digit of a positive number is not zero. */
  lemma {:induction false} LeadingDigitNonZero(n: nat)
    requires n > 0
    ensures DigitsOf(n)[0] != Zero
  {
    if n >= 10 {
      LeadingDigitNonZero(n / 10);
    }
  }

  function Pow10(j: nat): (r: nat)
    ensures r >= 1
  {
    if j == 0 then 1 else 10 * Pow10(j - 1)
  }

  lemma Pow10Of19()
    ensures Pow10(19) == 10_000_000_000_000_000_000
  {
    assert Pow10(4) == 10_000;
    assert Pow10(8) == 100_000_000;
    assert Pow10(12) == 1_000_000_000_000;
    assert Pow10(16) == 10_000_000_000_000_000;
  }

  /** A number below 10^j has at most j digits. */
  lemma {:induction false} DigitsAtMost(n: nat, j: nat)
    requires n < Pow10(j)
    ensures |DigitsOf(n)| <= j
  {
    if n > 0 {
      DigitsAtMost(n / 10, j - 1);
    }
  }

  /** A number of at least 10^j has more than j digits. */
  lemma {:induction false} DigitsMoreThan(n: nat, j: nat)
    requires n >= Pow10(j)
    ensures |DigitsOf(n)| > j
  {
    if j > 0 {
      DigitsMoreThan(n / 10, j - 1);
    }
  }

  /** The digits of `n` without their last `j` are the digits of `n / 10^j`. */
  lemma {:induction false} DropLowDigits(n: nat, j: nat)
    requires j <= |DigitsOf(n)|
    ensures DigitsOf(n)[..|DigitsOf(n)| - j] == DigitsOf(Quotient(n, Pow10(j)))
  {
    if j > 0 {
      var ds, tail := DigitsOf(n), DigitsOf(n / 10);
      assert ds == tail + [Digit(n % 10)];
      DropLowDigits(n / 10, j - 1);
      assert ds[..|ds| - j] == tail[..|tail| - (j - 1)];
      var p := Pow10(j - 1);
      DivDiv(n, 10, p);
      assert n / 10 / p == n / Pow10(j);
    }
  }

  /** `s` without its trailing zero characters. */
  function StripZeros(s: Text): (r: Text)
    ensures r <= s
    ensures r == [] || r[|r| - 1] != Zero
    ensures forall i :: |r| <= i < |s| ==> s[i] == Zero
  {
    if s != [] && s[|s| - 1] == Zero then StripZeros(s[..|s| - 1]) else s
  }

  // ---------------------------------------------------------------- durations

  /**
   * The power of ten that `FormatDuration` divides by: seconds from 0.3162 s up, milliseconds
   * from 0.3162 ms, microseconds from 316 ns, nanoseconds below (each bound is 10^(k - 0.5)).
   */
  function DivisorLog10(n: nat): (k: nat)
    ensures k == 0 || k == 3 || k == 6 || k == 9
    ensures k > 0 ==> |DigitsOf(n)| >= k
  {
    if n >= 316_200_000 then
      DigitsMoreThan(n, 8);
      9
    else if n >= 316_200 then
      DigitsMoreThan(n, 5);
      6
    else if n >= 316 then
      DigitsMoreThan(n, 2);
      3
    else 0
  }

  /** The unit after the number. */
  function DurationSuffix(k: nat): Text
  {
    if k == 9 then [Space, 115]
    else if k == 6 then [Space, 109, 115]
    else if k == 3 then [Space] + Micro + [115]
    else [Space, 110, 115]
  }

  /** The digits before the dot: "0" when there are none. */
  function IntegerPart(n: nat, k: nat): (r: Text)
    requires k <= |DigitsOf(n)|
    ensures r != [] && AllDigits(r)
  {
    var ds := DigitsOf(n);
    if |ds| == k then [Zero] else ds[..|ds| - k]
  }

  /** The `k` digits after the dot, before they are cut. */
  function Fraction(n: nat, k: nat): (r: Text)
    requires k <= |DigitsOf(n)|
    ensures |r| == k && AllDigits(r)
  {
    var ds := DigitsOf(n);
    assert forall j :: |ds| - k <= j < |ds| ==> ds[|ds| - k..][j - (|ds| - k)] == ds[j];
    ds[|ds| - k..]
  }

  /** How many fraction digits a given number of significant digits leaves room for. */
  function Kept(k: nat, significant: int): (r: nat)
    ensures r <= k
  {
    if significant > 0 then Min(k, significant) else 0
  }

  /**
   * The number without sign and unit: the integer part, and after a dot as many fraction
   * digits as make up `significantDigits` together with the integer part, trailing zeros
   * dropped, and no dot when no digit is left after it. The integer part is never shortened.
   */
  function DurationBody(n: nat, significantDigits: int): Text
  {
    var k := DivisorLog10(n);
    if k == 0 then
      if n == 0 then [Zero] else DigitsOf(n)
    else CutNumber(n, k, significantDigits)
  }

  /** The number divided by 10^k, `k > 0`, cut to the significant digits. */
  function CutNumber(n: nat, k: nat, significantDigits: int): Text
    requires 0 < k <= |DigitsOf(n)|
  {
    var intPart := IntegerPart(n, k);
    var kept := StripZeros(Fraction(n, k)[..Kept(k, significantDigits - |intPart|)]);
    if kept == [] then intPart else intPart + [DotChar] + kept
  }

  /** `FormatDuration(durationNs, significantDigits)`. */
  function DurationText(durationNs: int, significantDigits: int): Text
  {
    var n := Abs(durationNs);
    (if durationNs < 0 then [Minus] else []) + DurationBody(n, significantDigits) + DurationSuffix(DivisorLog10(n))
  }

  /** The digits written so far, with the dot put in once the `k`th digit from the right is written. */
  function WithDot(written: Text, k: nat): Text
  {
    if k > 0 && |written| >= k then written[..|written| - k] + [DotChar] + written[|written| - k..] else written
  }

  /**
   * `FormatDuration` on an `int64_t` count of nanoseconds: the digits are written right to left
   * into a 32-character buffer ending at index 24, the dot is put in after the `k`th digit,
   * a leading "0" is added before a bare dot or an empty number, the fraction is cut to the
   * significant digits and stripped of trailing zeros and of a bare dot, the sign is put in
   * front and the unit copied after the last kept character. The source's branch that pads
   * with zeros up to the dot is never taken: a number at or over a unit's bound has at least
   * as many digits as the unit's exponent.
   */
  method FormatDuration(durationNs: int, significantDigits: int) returns (r: Text)
    requires -Int64Limit < durationNs < Int64Limit
    requires -100 <= significantDigits <= 100
    ensures r == DurationText(durationNs, significantDigits)
  {
    var negative := durationNs < 0;
    var n: nat := if negative then -durationNs else durationNs;
    var divisorLog10 := DivisorLog10(n);
    var suffix := DurationSuffix(divisorLog10);
    DigitsOfInt64(n);

    var text := new byte[32];
    var prependCharIdx, dotIdx := WriteNumber(text, n, divisorLog10);
    var lastCharIdx := 24;
    if dotIdx != -1 {
      lastCharIdx := ShortenFraction(text, n, divisorLog10, significantDigits, prependCharIdx, dotIdx);
    } else {
      WholeNumberBody(n, significantDigits);
    }
    ghost var body := text[prependCharIdx + 1 .. lastCharIdx + 1];
    assert body == DurationBody(n, significantDigits);

    prependCharIdx := PrependSign(text, prependCharIdx, lastCharIdx, negative);
    r := CopySuffix(text, prependCharIdx, lastCharIdx, suffix);
    assert n == Abs(durationNs);
  }

  /** Writes the minus sign in front of the number when it is negative. */
  method PrependSign(text: array<byte>, prependCharIdx: int, lastCharIdx: int, negative: bool) returns (p: int)
    requires 0 <= prependCharIdx <= lastCharIdx < text.Length
    modifies text
    ensures -1 <= p <= prependCharIdx
    ensures text[p + 1 .. lastCharIdx + 1] == (if negative then [Minus] else []) + old(text[prependCharIdx + 1 .. lastCharIdx + 1])
  {
    p := prependCharIdx;
    if negative {
      Prepend(text, p, lastCharIdx + 1, Minus);
      p := p - 1;
    }
  }

  /** Below 316 ns nothing is cut: the number is written whole. */
  lemma WholeNumberBody(n: nat, significantDigits: int)
    requires DivisorLog10(n) == 0
    ensures DurationBody(n, significantDigits) == NumberText(n, 0)
  {
  }

  /**
   * What the written number means: with a unit, the integer part reads back as the whole
   * number of units, and the text is the exact decimal quotient truncated (never rounded):
   * either the integer part alone, or it, the dot and a non-empty run of the following
   * digits that ends in a non-zero digit and is no longer than the significant digits the
   * integer part leaves over.
   */
  lemma CutNumberTruncates(n: nat, k: nat, significantDigits: int)
    requires 0 < k <= |DigitsOf(n)|
    ensures var intPart, cut := IntegerPart(n, k), CutNumber(n, k, significantDigits);
      && Value(intPart) == Quotient(n, Pow10(k))
      && cut <= intPart + [DotChar] + Fraction(n, k)
      && (cut == intPart || (|intPart| + 1 < |cut| <= significantDigits + 1 && cut[|cut| - 1] != Zero))
  {
    var intPart, fraction := IntegerPart(n, k), Fraction(n, k);
    var count := Kept(k, significantDigits - |intPart|);
    IntegerPartValue(n, k);
    CutNumberOfCut(n, k, significantDigits, |intPart|, significantDigits - |intPart|, fraction[..count], StripZeros(fraction[..count]));
    CutIsPrefix(intPart, fraction, count, significantDigits, CutNumber(n, k, significantDigits));
  }

  /** The integer part is the number of whole units, "0" when there are none. */
  lemma IntegerPartValue(n: nat, k: nat)
    requires 0 < k <= |DigitsOf(n)|
    ensures Value(IntegerPart(n, k)) == Quotient(n, Pow10(k))
  {
    if |DigitsOf(n)| == k {
      if n >= Pow10(k) {
        DigitsMoreThan(n, k);
      }
      DivUnique(n, Pow10(k), 0, n);
      assert IntegerPart(n, k) == [Zero];
    } else {
      DropLowDigits(n, k);
      ValueOfDigits(Quotient(n, Pow10(k)));
    }
  }

  /**
   * Cutting the fraction to what the significant digits leave and dropping its trailing zeros
   * leaves a prefix of the full number that is either the integer part alone or ends in a
   * non-zero digit within the significant digits.
   */
  lemma CutIsPrefix(intPart: Text, fraction: Text, count: nat, significantDigits: int, cut: Text)
    requires count == Kept(|fraction|, significantDigits - |intPart|)
    requires var kept := StripZeros(fraction[..count]);
      cut == if kept == [] then intPart else intPart + [DotChar] + kept
    ensures cut <= intPart + [DotChar] + fraction
    ensures cut == intPart || (|intPart| + 1 < |cut| <= significantDigits + 1 && cut[|cut| - 1] != Zero)
  {
    var kept := StripZeros(fraction[..count]);
    if kept != [] {
      assert kept == fraction[..|kept|];
      assert cut == (intPart + [DotChar] + fraction)[..|intPart| + 1 + |kept|];
      assert 0 < count <= significantDigits - |intPart|;
      assert cut[|cut| - 1] == kept[|kept| - 1];
    }
  }

  /** With no unit the number is written whole, and its digits read back as the number. */
  lemma WholeNumberReadsBack(n: nat, significantDigits: int)
    requires DivisorLog10(n) == 0
    ensures AllDigits(DurationBody(n, significantDigits)) && Value(DurationBody(n, significantDigits)) == n
  {
    ValueOfDigits(n);
  }

  /** A duration as the time-scale view labels its blocks, with four significant digits. */
  lemma DurationExampleMicro()
    ensures DurationText(1500, 4) == [49, DotChar, 53, Space] + Micro + [115]
  {
    CutExample();
    assert DivisorLog10(1500) == 3;
  }

  lemma DigitsExample()
    ensures DigitsOf(1500) == [49, 53, 48, 48]
  {
    assert DigitsOf(15) == [49, 53];
  }

  lemma CutExample()
    ensures CutNumber(1500, 3, 4) == [49, DotChar, 53]
  {
    DigitsExample();
    assert Fraction(1500, 3) == [53, 48, 48];
    assert StripZeros([53, 48, 48]) == [53] by {
      assert StripZeros([53, 48]) == [53];
    }
  }

  /** A negative duration below 316 ns: the sign, the digits whole, and "ns". */
  lemma DurationExampleNano()
    ensures DurationText(-42, 4) == [Minus, 52, 50, Space, 110, 115]
  {
    assert DigitsOf(42) == [52, 50];
  }

  /**
   * The number as the buffer holds it before the fraction is cut: the integer part ("0" if
   * empty), the dot and the `k` fraction digits, or with no unit to divide by the digits alone
   * ("0" for zero).
   */
  function NumberText(n: nat, k: nat): (r: Text)
    requires k <= |DigitsOf(n)|
    ensures k > 0 ==> |r| == |IntegerPart(n, k)| + 1 + k
    ensures 1 <= |r| <= |DigitsOf(n)| + 2
  {
    if k == 0 then (if n == 0 then [Zero] else DigitsOf(n))
    else IntegerPart(n, k) + [DotChar] + Fraction(n, k)
  }

  /**
   * The digit loop of `FormatDuration` and the leading zero that follows it: the number ends
   * at index 24 and the dot, if any, is at index `24 - k`.
   */
  method WriteNumber(text: array<byte>, n: nat, k: nat) returns (prependCharIdx: int, dotIdx: int)
    requires text.Length == 32 && |DigitsOf(n)| <= 19 && k <= |DigitsOf(n)| && k <= 9
    modifies text
    ensures dotIdx == (if k > 0 then 24 - k else -1)
    ensures 3 <= prependCharIdx && prependCharIdx + 1 + |NumberText(n, k)| == 25
    ensures text[prependCharIdx + 1 .. 25] == NumberText(n, k)
  {
    var lastCharIdx := 24;
    prependCharIdx, dotIdx := WriteDigits(text, n, k);
    if prependCharIdx + 1 == dotIdx || prependCharIdx == lastCharIdx {
      Prepend(text, prependCharIdx, 25, Zero);
      prependCharIdx := prependCharIdx - 1;
    }
    NumberLaidOut(n, k, text[prependCharIdx + 1 .. 25]);
  }

  /**
   * The cut after the dot: the integer part counts toward the significant digits, the rest
   * (if positive) bounds the fraction, trailing zeros and a bare dot are dropped. Returns the
   * index of the last character kept.
   */
  method ShortenFraction(text: array<byte>, n: nat, k: nat, significantDigits: int, prependCharIdx: int, dotIdx: int)
    returns (lastCharIdx: int)
    requires text.Length == 32 && 0 < k <= 9 && k <= |DigitsOf(n)| && dotIdx == 24 - k
    requires -100 <= significantDigits <= 100
    requires -1 <= prependCharIdx && prependCharIdx + 1 + |NumberText(n, k)| == 25
    requires text[prependCharIdx + 1 .. 25] == NumberText(n, k)
    ensures prependCharIdx < lastCharIdx <= 24
    ensures text[prependCharIdx + 1 .. lastCharIdx + 1] == CutNumber(n, k, significantDigits)
  {
    ghost var t := text[..];
    var significant := significantDigits - (dotIdx - prependCharIdx - 1);
    lastCharIdx := 24;
    if significant > 0 {
      lastCharIdx := Min(lastCharIdx, dotIdx + significant);
    } else {
      lastCharIdx := dotIdx;
    }
    ghost var cutIdx := lastCharIdx;
    assert cutIdx - dotIdx == Kept(k, significant);
    DigitsAfterDot(t, n, k, prependCharIdx, dotIdx, cutIdx);
    lastCharIdx := TrimFraction(text, dotIdx, lastCharIdx);
    CutInPlace(t, n, k, significantDigits, prependCharIdx, dotIdx, significant, cutIdx, lastCharIdx);
    assert text[prependCharIdx + 1 .. lastCharIdx + 1] == t[prependCharIdx + 1 .. lastCharIdx + 1];
  }

  /** What the trimming loops need: a dot, then digits up to the cut. */
  lemma DigitsAfterDot(t: Text, n: nat, k: nat, prependCharIdx: int, dotIdx: int, cutIdx: int)
    requires |t| == 32 && 0 < k <= 9 && k <= |DigitsOf(n)| && dotIdx == 24 - k
    requires -1 <= prependCharIdx && prependCharIdx + 1 + |NumberText(n, k)| == 25
    requires t[prependCharIdx + 1 .. 25] == NumberText(n, k)
    requires dotIdx <= cutIdx <= 24
    ensures t[dotIdx] == DotChar && AllDigits(t[dotIdx + 1 .. cutIdx + 1])
  {
    FractionInPlace(t, n, k, prependCharIdx, dotIdx, cutIdx);
  }

  /**
   * Once the fraction is cut after `Kept(k, significant)` digits and trimmed, the text from the
   * first digit to the last character kept is `CutNumber`.
   */
  lemma CutInPlace(t: Text, n: nat, k: nat, significantDigits: int, prependCharIdx: int, dotIdx: int,
                   significant: int, cutIdx: int, last: int)
    requires |t| == 32 && 0 < k <= 9 && k <= |DigitsOf(n)| && dotIdx == 24 - k
    requires -1 <= prependCharIdx && prependCharIdx + 1 + |NumberText(n, k)| == 25
    requires t[prependCharIdx + 1 .. 25] == NumberText(n, k)
    requires significant == significantDigits - (dotIdx - prependCharIdx - 1)
    requires dotIdx <= cutIdx <= 24 && cutIdx - dotIdx == Kept(k, significant)
    requires var kept := StripZeros(t[dotIdx + 1 .. cutIdx + 1]);
      last + 1 == if kept == [] then dotIdx else dotIdx + 1 + |kept|
    ensures prependCharIdx < last <= 24
    ensures t[prependCharIdx + 1 .. last + 1] == CutNumber(n, k, significantDigits)
  {
    var cut := Fraction(n, k)[..Kept(k, significant)];
    var kept := StripZeros(cut);
    assert cut == Fraction(n, k)[..cutIdx - dotIdx];
    KeptInPlace(t, n, k, prependCharIdx, dotIdx, cutIdx, last, kept);
    CutAtDot(t, n, k, significantDigits, prependCharIdx, dotIdx, last, cut, kept);
  }

  /** The integer part before the dot and the kept fraction digits after it make up `CutNumber`. */
  lemma CutAtDot(t: Text, n: nat, k: nat, significantDigits: int, prependCharIdx: int, dotIdx: int, last: int,
                 cut: Text, kept: Text)
    requires 0 < k <= |DigitsOf(n)| && -1 <= prependCharIdx < dotIdx < |t|
    requires |IntegerPart(n, k)| == dotIdx - prependCharIdx - 1
    requires t[prependCharIdx + 1 .. dotIdx] == IntegerPart(n, k) && t[dotIdx] == DotChar
    requires cut == Fraction(n, k)[..Kept(k, significantDigits - (dotIdx - prependCharIdx - 1))]
    requires kept == StripZeros(cut)
    requires last + 1 == (if kept == [] then dotIdx else dotIdx + 1 + |kept|) && last < |t|
    requires kept != [] ==> t[dotIdx + 1 .. last + 1] == kept
    ensures t[prependCharIdx + 1 .. last + 1] == CutNumber(n, k, significantDigits)
  {
    JoinAtDot(t, prependCharIdx + 1, dotIdx, last + 1, IntegerPart(n, k), kept);
    CutNumberOfCut(n, k, significantDigits, dotIdx - prependCharIdx - 1,
                   significantDigits - (dotIdx - prependCharIdx - 1), cut, kept);
  }

  /** After trimming, the integer part, the dot and the kept fraction digits sit in place. */
  lemma KeptInPlace(t: Text, n: nat, k: nat, prependCharIdx: int, dotIdx: int, cutIdx: int, last: int, kept: Text)
    requires |t| == 32 && 0 < k <= 9 && k <= |DigitsOf(n)| && dotIdx == 24 - k
    requires -1 <= prependCharIdx && prependCharIdx + 1 + |NumberText(n, k)| == 25
    requires t[prependCharIdx + 1 .. 25] == NumberText(n, k)
    requires dotIdx <= cutIdx <= 24 && kept == StripZeros(Fraction(n, k)[..cutIdx - dotIdx])
    requires var trimmed := StripZeros(t[dotIdx + 1 .. cutIdx + 1]);
      last + 1 == if trimmed == [] then dotIdx else dotIdx + 1 + |trimmed|
    ensures |IntegerPart(n, k)| == dotIdx - prependCharIdx - 1
    ensures t[prependCharIdx + 1 .. dotIdx] == IntegerPart(n, k) && t[dotIdx] == DotChar
    ensures last + 1 == if kept == [] then dotIdx else dotIdx + 1 + |kept|
    ensures kept != [] ==> t[dotIdx + 1 .. last + 1] == kept
  {
    FractionInPlace(t, n, k, prependCharIdx, dotIdx, cutIdx);
    var digits := t[dotIdx + 1 .. cutIdx + 1];
    assert digits == Fraction(n, k)[..cutIdx - dotIdx];
    assert StripZeros(digits) == kept;
    KeptAfterDot(t, dotIdx, cutIdx, last, kept);
  }

  /** The fraction digits kept after trimming are the ones right after the dot. */
  lemma KeptAfterDot(t: Text, dotIdx: int, cutIdx: int, last: int, kept: Text)
    requires 0 <= dotIdx <= cutIdx < |t| && kept == StripZeros(t[dotIdx + 1 .. cutIdx + 1])
    requires last + 1 == if kept == [] then dotIdx else dotIdx + 1 + |kept|
    ensures kept != [] ==> t[dotIdx + 1 .. last + 1] == kept
  {
    if kept != [] {
      PrefixInPlace(t, dotIdx + 1, cutIdx + 1, kept);
    }
  }

  /** The number written around the dot splits into the integer part and the leading fraction digits. */
  lemma FractionInPlace(t: Text, n: nat, k: nat, prependCharIdx: int, dotIdx: int, cutIdx: int)
    requires |t| == 32 && 0 < k <= 9 && k <= |DigitsOf(n)| && dotIdx == 24 - k
    requires -1 <= prependCharIdx && prependCharIdx + 1 + |NumberText(n, k)| == 25
    requires t[prependCharIdx + 1 .. 25] == NumberText(n, k)
    requires dotIdx <= cutIdx <= 24
    ensures |IntegerPart(n, k)| == dotIdx - prependCharIdx - 1
    ensures t[prependCharIdx + 1 .. dotIdx] == IntegerPart(n, k) && t[dotIdx] == DotChar
    ensures t[dotIdx + 1 .. cutIdx + 1] == Fraction(n, k)[..cutIdx - dotIdx]
    ensures AllDigits(t[dotIdx + 1 .. cutIdx + 1])
  {
    SplitAtDot(t, prependCharIdx + 1, dotIdx, 25, IntegerPart(n, k), Fraction(n, k));
    CutFraction(t, dotIdx, cutIdx, Fraction(n, k));
  }

  /** `CutNumber` keeps what survives of the fraction digits left after the integer part takes its share. */
  lemma CutNumberOfCut(n: nat, k: nat, significantDigits: int, intLength: nat, significant: int, cut: Text, kept: Text)
    requires 0 < k <= |DigitsOf(n)| && |IntegerPart(n, k)| == intLength
    requires significant == significantDigits - intLength && cut == Fraction(n, k)[..Kept(k, significant)]
    requires kept == StripZeros(cut)
    ensures CutNumber(n, k, significantDigits) == if kept == [] then IntegerPart(n, k) else IntegerPart(n, k) + [DotChar] + kept
  {
  }

  /** Every digit string of a magnitude of an `int64_t` has at most 19 digits. */
  lemma DigitsOfInt64(n: nat)
    requires n < Int64Limit
    ensures |DigitsOf(n)| <= 19
  {
    Pow10Of19();
    DigitsAtMost(n, 19);
  }

  /**
   * The digit loop of `FormatDuration`: writes the digits of `n` right to left ending at index
   * 24, putting the dot in once the `k`th digit is written.
   */
  method WriteDigits(text: array<byte>, n: nat, k: nat) returns (prependCharIdx: int, dotIdx: int)
    requires text.Length == 32 && |DigitsOf(n)| <= 19 && k <= |DigitsOf(n)| && k <= 9
    modifies text
    ensures dotIdx == (if k > 0 then 24 - k else -1)
    ensures prependCharIdx == 24 - |DigitsOf(n)| - (if k > 0 then 1 else 0)
    ensures text[prependCharIdx + 1 .. 25] == WithDot(DigitsOf(n), k)
  {
    var rest := n;
    var digitIdx := 0;
    prependCharIdx := 24;
    dotIdx := -1;
    ghost var written: Text := [];
    assert DigitsOf(rest) + written == DigitsOf(n);
    while rest > 0
      invariant DigitsOf(rest) + written == DigitsOf(n)
      invariant digitIdx == |written|
      invariant dotIdx == (if k > 0 && |written| >= k then 24 - k else -1)
      invariant prependCharIdx == 24 - |written| - (if dotIdx == -1 then 0 else 1)
      invariant text[prependCharIdx + 1 .. 25] == WithDot(written, k)
      decreases rest
    {
      rest, prependCharIdx, dotIdx, written := WriteNextDigit(text, n, k, rest, prependCharIdx, dotIdx, digitIdx, written);
      digitIdx := digitIdx + 1;
    }
    DigitsDone(rest, written, n);
  }

  /** When no digit is left, everything written is the whole number. */
  lemma DigitsDone(rest: nat, written: Text, n: nat)
    requires rest == 0 && DigitsOf(rest) + written == DigitsOf(n)
    ensures written == DigitsOf(n)
  {
    assert DigitsOf(rest) == [] && [] + written == written;
  }

  /** One turn of the digit loop, taking the lowest digit off `rest`. */
  method WriteNextDigit(text: array<byte>, n: nat, k: nat, rest: nat, prependCharIdx: int, dotIdx: int, digitIdx: nat, ghost written: Text)
    returns (nextRest: nat, newPrependCharIdx: int, newDotIdx: int, ghost nextWritten: Text)
    requires text.Length == 32 && |DigitsOf(n)| <= 19 && k <= 9 && rest > 0
    requires DigitsOf(rest) + written == DigitsOf(n) && digitIdx == |written|
    requires dotIdx == (if k > 0 && |written| >= k then 24 - k else -1)
    requires prependCharIdx == 24 - |written| - (if dotIdx == -1 then 0 else 1)
    requires text[prependCharIdx + 1 .. 25] == WithDot(written, k)
    modifies text
    ensures nextRest < rest && DigitsOf(nextRest) + nextWritten == DigitsOf(n) && digitIdx + 1 == |nextWritten|
    ensures newDotIdx == (if k > 0 && |nextWritten| >= k then 24 - k else -1)
    ensures newPrependCharIdx == 24 - |nextWritten| - (if newDotIdx == -1 then 0 else 1)
    ensures text[newPrependCharIdx + 1 .. 25] == WithDot(nextWritten, k)
  {
    var digit := Digit(rest % 10);
    DigitsStep(rest, written, n);
    newPrependCharIdx, newDotIdx := PutDigit(text, prependCharIdx, dotIdx, digitIdx, k, digit, written);
    nextWritten := [digit] + written;
    nextRest := rest / 10;
  }

  /**
   * One turn of the digit loop: the digit goes in front, and once `k` digits are written the
   * dot goes in front of them.
   */
  method PutDigit(text: array<byte>, prependCharIdx: int, dotIdx: int, digitIdx: nat, k: nat, digit: byte, ghost written: Text)
    returns (newPrependCharIdx: int, newDotIdx: int)
    requires text.Length == 32 && k <= 9 && digitIdx == |written| < 19
    requires dotIdx == (if k > 0 && |written| >= k then 24 - k else -1)
    requires prependCharIdx == 24 - |written| - (if dotIdx == -1 then 0 else 1)
    requires text[prependCharIdx + 1 .. 25] == WithDot(written, k)
    modifies text
    ensures newDotIdx == (if k > 0 && |written| + 1 >= k then 24 - k else -1)
    ensures newPrependCharIdx == 24 - (|written| + 1) - (if newDotIdx == -1 then 0 else 1)
    ensures text[newPrependCharIdx + 1 .. 25] == WithDot([digit] + written, k)
  {
    WithDotPrepend(digit, written, k);
    Prepend(text, prependCharIdx, 25, digit);
    newPrependCharIdx, newDotIdx := prependCharIdx - 1, dotIdx;
    if digitIdx + 1 == k {
      assert WithDot(written, k) == written;
      ghost var laid := text[prependCharIdx .. 25];
      newDotIdx := newPrependCharIdx;
      newPrependCharIdx := newPrependCharIdx - 1;
      Prepend(text, newDotIdx, 25, DotChar);
      assert [DotChar] + laid == [DotChar, digit] + written;
    }
  }

  lemma DigitsStep(rest: nat, written: Text, n: nat)
    requires rest > 0 && DigitsOf(rest) + written == DigitsOf(n)
    ensures DigitsOf(rest / 10) + ([Digit(rest % 10)] + written) == DigitsOf(n)
    ensures |DigitsOf(rest / 10)| < |DigitsOf(n)| - |written|
  {
    var tail, d := DigitsOf(rest / 10), Digit(rest % 10);
    assert DigitsOf(rest) == tail + [d];
    assert tail + ([d] + written) == (tail + [d]) + written;
  }

  lemma WithDotPrepend(d: byte, w: Text, k: nat)
    ensures WithDot([d] + w, k) == if k > 0 && |w| + 1 == k then [DotChar, d] + w else [d] + WithDot(w, k)
  {
    var dw := [d] + w;
    if k > 0 && |w| + 1 == k {
      assert dw[..|dw| - k] == [] && dw[|dw| - k..] == dw;
      assert [] + [DotChar] + dw == [DotChar, d] + w;
    } else if k > 0 && |w| >= k {
      var h, t := w[..|w| - k], w[|w| - k..];
      assert dw[..|dw| - k] == [d] + h && dw[|dw| - k..] == t;
      assert ([d] + h) + [DotChar] + t == [d] + (h + [DotChar] + t);
    }
  }

  /**
   * The loops that drop trailing zeros after the dot, and then a bare dot: returns the index of
   * the last character kept.
   */
  method TrimFraction(text: array<byte>, dotIdx: int, lastCharIdx: int) returns (last: int)
    requires 0 <= dotIdx <= lastCharIdx < text.Length && text[dotIdx] == DotChar
    requires AllDigits(text[..][dotIdx + 1 .. lastCharIdx + 1])
    ensures var kept := StripZeros(text[..][dotIdx + 1 .. lastCharIdx + 1]);
      last + 1 == if kept == [] then dotIdx else dotIdx + 1 + |kept|
  {
    ghost var kept := StripZeros(text[..][dotIdx + 1 .. lastCharIdx + 1]);
    assert text[..][dotIdx + 1 .. lastCharIdx + 1] == text[dotIdx + 1 .. lastCharIdx + 1];
    assert forall i :: dotIdx < i <= lastCharIdx ==> text[dotIdx + 1 .. lastCharIdx + 1][i - dotIdx - 1] == text[i];
    last := lastCharIdx;
    while text[last] == Zero
      invariant dotIdx <= last <= lastCharIdx
      invariant StripZeros(text[dotIdx + 1 .. last + 1]) == kept
      decreases last
    {
      assert text[dotIdx + 1 .. last + 1] == text[dotIdx + 1 .. last] + [Zero];
      last := last - 1;
    }
    if text[last] == DotChar {
      last := last - 1;
    }
  }

  /** `text[prependCharIdx--] = c`: one character in front of the text that ends before `end`. */
  method Prepend(text: array<byte>, at: int, end: int, c: byte)
    requires 0 <= at < end <= text.Length
    modifies text
    ensures text[at..end] == [c] + old(text[at + 1 .. end])
  {
    text[at] := c;
  }

  /** Copies the unit after the number and returns the text from the sign to the unit's end. */
  method CopySuffix(text: array<byte>, prependCharIdx: int, lastCharIdx: int, suffix: Text) returns (r: Text)
    requires -1 <= prependCharIdx <= lastCharIdx && lastCharIdx + 1 + |suffix| <= text.Length
    modifies text
    ensures r == old(text[prependCharIdx + 1 .. lastCharIdx + 1]) + suffix
  {
    var i := 0;
    while i < |suffix|
      invariant 0 <= i <= |suffix|
      invariant text[prependCharIdx + 1 .. lastCharIdx + 1] == old(text[prependCharIdx + 1 .. lastCharIdx + 1])
      invariant text[lastCharIdx + 1 .. lastCharIdx + 1 + i] == suffix[..i]
    {
      text[lastCharIdx + 1 + i] := suffix[i];
      i := i + 1;
    }
    r := text[prependCharIdx + 1 .. lastCharIdx + 1 + |suffix|];
    assert r == text[prependCharIdx + 1 .. lastCharIdx + 1] + text[lastCharIdx + 1 .. lastCharIdx + 1 + |suffix|];
  }

  /** A slice laid out as integer part, dot and fraction splits into those three. */
  lemma SplitAtDot(t: Text, start: int, dot: int, end: int, intPart: Text, fraction: Text)
    requires 0 <= start <= dot < end <= |t|
    requires t[start..end] == intPart + [DotChar] + fraction && |intPart| == dot - start
    ensures t[start..dot] == intPart && t[dot] == DotChar && t[dot + 1 .. end] == fraction
  {
    assert t[start..dot] == t[start..end][..dot - start];
    assert t[dot + 1 .. end] == t[start..end][dot - start + 1..];
  }

  /** The characters up to the cut are the first ones of the fraction, all digits. */
  lemma CutFraction(t: Text, dot: int, last: int, fraction: Text)
    requires 0 <= dot <= last && dot + 1 + |fraction| <= |t| && last - dot <= |fraction|
    requires t[dot + 1 .. dot + 1 + |fraction|] == fraction && AllDigits(fraction)
    ensures t[dot + 1 .. last + 1] == fraction[..last - dot]
    ensures AllDigits(t[dot + 1 .. last + 1])
  {
    assert t[dot + 1 .. last + 1] == t[dot + 1 .. dot + 1 + |fraction|][..last - dot];
  }

  /** The integer part followed by what is kept after the dot, without a bare dot. */
  lemma PrefixInPlace(t: Text, from: int, end: int, kept: Text)
    requires 0 <= from <= end <= |t| && kept <= t[from..end]
    ensures from + |kept| <= end && t[from .. from + |kept|] == kept
  {
    assert t[from .. from + |kept|] == t[from..end][..|kept|];
  }

  lemma JoinAtDot(t: Text, start: int, dot: int, end: int, intPart: Text, kept: Text)
    requires 0 <= start <= dot < |t| && t[start..dot] == intPart && t[dot] == DotChar
    requires end == (if kept == [] then dot else dot + 1 + |kept|) && end <= |t|
    requires kept != [] ==> t[dot + 1 .. end] == kept
    ensures t[start..end] == if kept == [] then intPart else intPart + [DotChar] + kept
  {
    if kept != [] {
      assert t[start..end] == t[start..dot] + [t[dot]] + t[dot + 1 .. end];
    }
  }

  /**
   * After the digit loop and the leading zero: the buffer holds the number with its dot in
   * place, or its digits alone ("0" for zero) when there is no dot.
   */
  lemma NumberLaidOut(n: nat, k: nat, body: Text)
    requires k <= |DigitsOf(n)|
    requires body == WithDot(if |DigitsOf(n)| == k then [Zero] + DigitsOf(n) else DigitsOf(n), k)
    ensures k == 0 ==> body == if n == 0 then [Zero] else DigitsOf(n)
    ensures k > 0 ==> body == IntegerPart(n, k) + [DotChar] + Fraction(n, k)
  {
  }
}
