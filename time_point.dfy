/**
 * `FormatTimePoint` (text_renderer.cpp): a count of nanoseconds written as three-digit groups,
 * each followed by its unit ("n", "µ ", "m ", "s "), least significant group rightmost; the
 * groups that are all zeros at the low end are dropped with their units, and the digits above
 * the seconds' group stay in it.
 */
module TimePoints {
  import opened Bytes
  import opened Arith
  import opened TextRendering

  /** The unit after group `g`, counting groups from the least significant. */
  function GroupSuffix(g: nat): (s: Text)
    requires g < 4
    ensures 1 <= |s| <= 3
  {
    if g == 0 then [110]
    else if g == 1 then Micro + [Space]
    else if g == 2 then [109, Space]
    else [115, Space]
  }

  /** The three lowest digits of `m`, zero padded. */
  function Low3(m: nat): Text
  {
    [Digit(m / 100 % 10), Digit(m / 10 % 10), Digit(m % 10)]
  }

  const ZeroGroup: Text := [Zero, Zero, Zero]

  /** Every group of `m` from group `g` up, each followed by its unit, the top one unpadded. */
  function AllGroups(m: nat, g: nat): Text
    requires 0 < m && g < 4
    decreases m
  {
    if g == 3 || m < 1000 then DigitsOf(m) + GroupSuffix(g)
    else AllGroups(m / 1000, g + 1) + Low3(m) + GroupSuffix(g)
  }

  /** As `AllGroups`, without the groups of zeros at the low end and their units. */
  function SignificantGroups(m: nat, g: nat): Text
    requires 0 < m && g < 4
    decreases m
  {
    if g == 3 || m < 1000 then DigitsOf(m) + GroupSuffix(g)
    else if Low3(m) == ZeroGroup then SignificantGroups(m / 1000, g + 1)
    else AllGroups(m / 1000, g + 1) + Low3(m) + GroupSuffix(g)
  }

  /** `FormatTimePoint(timeNs)`: "0" for zero, a '-' in front of a negative time. */
  function TimePointText(timeNs: int): Text
  {
    var n := Abs(timeNs);
    (if timeNs < 0 then [Minus] else []) + (if n == 0 then [Zero] else SignificantGroups(n, 0))
  }

  /** Whether a group's unit goes in front of digit `digitIdx`, counting from the right. */
  predicate OpensGroup(digitIdx: nat)
  {
    digitIdx % 3 == 0 && digitIdx / 3 < 4
  }

  /**
   * What the digit loop leaves between its two indices when it goes on from `m` still to be
   * written, with `digitIdx` digits written, `nonZero` telling whether one of them was not
   * zero, and `kept` the text it keeps so far.
   */
  ghost function Remaining(m: nat, digitIdx: nat, nonZero: bool, kept: Text): Text
    decreases m
  {
    if m == 0 then kept
    else Remaining(m / 10, digitIdx + 1, nonZero || m % 10 != 0, [Digit(m % 10)] + Laid(digitIdx, nonZero, kept))
  }

  /**
   * What is kept in front of digit `digitIdx` is written: at the start of a group its unit,
   * in front of what was kept only once a non-zero digit was seen.
   */
  function Laid(digitIdx: nat, nonZero: bool, kept: Text): Text
  {
    if OpensGroup(digitIdx) then GroupSuffix(digitIdx / 3) + (if nonZero then kept else []) else kept
  }

  /** The characters of the units written for the first `digitIdx` digits. */
  function SuffixesBefore(digitIdx: nat): nat
  {
    (if digitIdx > 0 then 1 else 0) + (if digitIdx > 3 then 3 else 0) +
    (if digitIdx > 6 then 2 else 0) + (if digitIdx > 9 then 2 else 0)
  }

  /**
   * `FormatTimePoint` on an `int64_t`: the digits are written right to left into a
   * 32-character buffer ending at index 31, with the unit put in front of every third digit
   * up to the seconds; while only zeros were written, the end of the text is moved to the
   * unit just put in.
   */
  method FormatTimePoint(timeNs: int) returns (r: Text)
    requires -Int64Limit < timeNs < Int64Limit
    ensures r == TimePointText(timeNs)
  {
    var negative := timeNs < 0;
    var n: nat := if negative then -timeNs else timeNs;
    DigitsOfInt64(n);

    var text := new byte[32];
    var prependCharIdx, lastCharIdx := WriteGroups(text, n);
    if prependCharIdx == 31 {
      Prepend(text, prependCharIdx, lastCharIdx + 1, Zero);
      prependCharIdx := prependCharIdx - 1;
    }
    ghost var body := text[prependCharIdx + 1 .. lastCharIdx + 1];
    if n > 0 {
      RemainingGroups(n, 0, false, []);
    }
    assert body == if n == 0 then [Zero] else SignificantGroups(n, 0);
    prependCharIdx := PrependSign(text, prependCharIdx, lastCharIdx, negative);
    r := text[prependCharIdx + 1 .. lastCharIdx + 1];
  }

  /**
   * The digit loop of `FormatTimePoint`: the text between the two indices it returns is what
   * the loop keeps, and no digit at all is written for zero.
   */
  method WriteGroups(text: array<byte>, n: nat) returns (prependCharIdx: int, lastCharIdx: int)
    requires text.Length == 32 && |DigitsOf(n)| <= 19
    modifies text
    ensures 3 <= prependCharIdx <= lastCharIdx <= 31 && (prependCharIdx == 31 <==> n == 0)
    ensures text[prependCharIdx + 1 .. lastCharIdx + 1] == Remaining(n, 0, false, [])
  {
    var digitIdx := 0;
    lastCharIdx := 31;
    prependCharIdx := lastCharIdx;
    var nonZeroEncountered := false;
    var rest := n;
    while rest > 0
      invariant |DigitsOf(rest)| + digitIdx == |DigitsOf(n)|
      invariant prependCharIdx == 31 - digitIdx - SuffixesBefore(digitIdx)
      invariant prependCharIdx <= lastCharIdx <= 31 && (digitIdx == 0 <==> rest == n)
      invariant Remaining(rest, digitIdx, nonZeroEncountered, text[prependCharIdx + 1 .. lastCharIdx + 1])
        == Remaining(n, 0, false, [])
    {
      var quot, rem := rest / 10, rest % 10;
      prependCharIdx, lastCharIdx, nonZeroEncountered := PutTimeDigit(text, prependCharIdx, lastCharIdx, digitIdx, nonZeroEncountered, rem);
      digitIdx := digitIdx + 1;
      rest := quot;
    }
    SuffixStep(digitIdx);
  }

  /**
   * One turn of the digit loop: at the start of a group its unit goes in front, and if only
   * zeros were written the text is cut to end with that unit; then the digit goes in front.
   */
  method PutTimeDigit(text: array<byte>, prependCharIdx: int, lastCharIdx: int, digitIdx: nat, nonZero: bool, rem: nat)
    returns (p: int, last: int, nonZeroEncountered: bool)
    requires text.Length == 32 && digitIdx < 19 && rem < 10
    requires prependCharIdx == 31 - digitIdx - SuffixesBefore(digitIdx) && prependCharIdx <= lastCharIdx <= 31
    modifies text
    ensures p == 31 - (digitIdx + 1) - SuffixesBefore(digitIdx + 1) && p <= last <= 31
    ensures nonZeroEncountered == (nonZero || rem != 0)
    ensures text[p + 1 .. last + 1] == [Digit(rem)] + Laid(digitIdx, nonZero, old(text[prependCharIdx + 1 .. lastCharIdx + 1]))
  {
    SuffixStep(digitIdx);
    p, last := PutGroupSuffix(text, prependCharIdx, lastCharIdx, digitIdx, nonZero);
    nonZeroEncountered := nonZero || rem != 0;
    Prepend(text, p, last + 1, Digit(rem));
    p := p - 1;
  }

  /** The start of a digit turn: the unit of the group that opens at digit `digitIdx`, if one does. */
  method PutGroupSuffix(text: array<byte>, prependCharIdx: int, lastCharIdx: int, digitIdx: nat, nonZero: bool)
    returns (p: int, last: int)
    requires text.Length == 32 && 0 <= prependCharIdx - (if OpensGroup(digitIdx) then |GroupSuffix(digitIdx / 3)| else 0)
    requires prependCharIdx <= lastCharIdx <= 31
    modifies text
    ensures p == prependCharIdx - (if OpensGroup(digitIdx) then |GroupSuffix(digitIdx / 3)| else 0) && p <= last <= 31
    ensures text[p + 1 .. last + 1] == Laid(digitIdx, nonZero, old(text[prependCharIdx + 1 .. lastCharIdx + 1]))
  {
    ghost var kept := text[prependCharIdx + 1 .. lastCharIdx + 1];
    p, last := prependCharIdx, lastCharIdx;
    if digitIdx % 3 == 0 {
      var suffixIndex := digitIdx / 3;
      if suffixIndex < 4 {
        var suffix := GroupSuffix(suffixIndex);
        if !nonZero {
          last := p;
        }
        ghost var after := text[p + 1 .. last + 1];
        assert after == if nonZero then kept else [];
        p := p - |suffix|;
        PrependText(text, p + 1, last + 1, suffix);
        assert text[p + 1 .. last + 1] == suffix + after;
      }
    }
  }

  /** The units take at most 8 characters, each group's as it opens. */
  lemma SuffixStep(digitIdx: nat)
    ensures SuffixesBefore(digitIdx) <= 8
    ensures SuffixesBefore(digitIdx + 1) == SuffixesBefore(digitIdx) + if OpensGroup(digitIdx) then |GroupSuffix(digitIdx / 3)| else 0
  {
  }

  /** `strncpy(&text[at], s, |s|)` in front of the text that ends before `end`. */
  method PrependText(text: array<byte>, at: int, end: int, s: Text)
    requires 0 <= at && at + |s| <= end <= text.Length
    modifies text
    ensures text[at..end] == s + old(text[at + |s| .. end])
  {
    var i := 0;
    while i < |s|
      invariant 0 <= i <= |s|
      invariant text[at .. at + i] == s[..i]
      invariant text[at + |s| .. end] == old(text[at + |s| .. end])
    {
      text[at + i] := s[i];
      i := i + 1;
    }
    assert text[at..end] == text[at .. at + |s|] + text[at + |s| .. end];
  }

  /**
   * Past the seconds' group no unit is put in: the loop writes the remaining digits in front
   * of what it keeps.
   */
  lemma {:induction false} RemainingPlain(m: nat, digitIdx: nat, nonZero: bool, kept: Text)
    requires digitIdx >= 10
    ensures Remaining(m, digitIdx, nonZero, kept) == DigitsOf(m) + kept
  {
    if m > 0 {
      RemainingPlain(m / 10, digitIdx + 1, nonZero || m % 10 != 0, [Digit(m % 10)] + kept);
    }
  }

  /**
   * From the start of group `g`, the loop writes every group of `m` with its unit in front of
   * what it keeps once a non-zero digit was written, and only the significant groups before.
   */
  lemma {:induction false} RemainingGroups(m: nat, g: nat, nonZero: bool, kept: Text)
    requires 0 < m && g < 4
    ensures Remaining(m, 3 * g, nonZero, kept) == if nonZero then AllGroups(m, g) + kept else SignificantGroups(m, g)
  {
    if g == 3 || m < 1000 {
      TopGroup(m, g, nonZero, kept);
    } else {
      var low := Low3(m);
      var nz := nonZero || low != ZeroGroup;
      RemainingGroups(m / 1000, g + 1, nz, low + (GroupSuffix(g) + (if nonZero then kept else [])));
      FullGroup(m, g, nonZero, kept);
    }
  }

  /** The top group is written whole in front of its unit. */
  lemma TopGroup(m: nat, g: nat, nonZero: bool, kept: Text)
    requires 0 < m && g < 4 && (g == 3 || m < 1000)
    ensures Remaining(m, 3 * g, nonZero, kept) == if nonZero then AllGroups(m, g) + kept else SignificantGroups(m, g)
  {
    if g == 3 {
      SecondsGroup(m, nonZero, kept);
    } else {
      ShortGroup(m, g, nonZero, kept);
    }
  }

  /**
   * A full group below the seconds goes in front of its unit, and the groups above follow as
   * the loop goes on with a non-zero digit seen or not.
   */
  lemma FullGroup(m: nat, g: nat, nonZero: bool, kept: Text)
    requires 1000 <= m && g < 3
    requires var nz := nonZero || Low3(m) != ZeroGroup;
      var k := Low3(m) + (GroupSuffix(g) + (if nonZero then kept else []));
      Remaining(m / 1000, 3 * g + 3, nz, k) == if nz then AllGroups(m / 1000, g + 1) + k else SignificantGroups(m / 1000, g + 1)
    ensures Remaining(m, 3 * g, nonZero, kept) == if nonZero then AllGroups(m, g) + kept else SignificantGroups(m, g)
  {
    ThreeDigits(m, g, nonZero, kept);
    var above, low, suffix := AllGroups(m / 1000, g + 1), Low3(m), GroupSuffix(g);
    if nonZero {
      assert AllGroups(m, g) == above + low + suffix;
      Associate(above, low, suffix, kept);
    } else if low != ZeroGroup {
      assert SignificantGroups(m, g) == above + low + suffix;
      Associate(above, low, suffix, []);
    } else {
      assert SignificantGroups(m, g) == SignificantGroups(m / 1000, g + 1);
    }
  }

  /** The seconds' group takes every digit left, in front of its unit. */
  lemma SecondsGroup(m: nat, nonZero: bool, kept: Text)
    requires 0 < m
    ensures Remaining(m, 9, nonZero, kept) == DigitsOf(m) + (GroupSuffix(3) + (if nonZero then kept else []))
  {
    var k0 := GroupSuffix(3) + (if nonZero then kept else []);
    var d0 := Digit(m % 10);
    OpenStep(m, 9, nonZero, kept);
    RemainingPlain(m / 10, 10, nonZero || m % 10 != 0, [d0] + k0);
    assert DigitsOf(m) == DigitsOf(m / 10) + [d0];
    Regroup(DigitsOf(m / 10), d0, k0);
  }

  /** Group `g` starts at digit `3 * g`. */
  lemma GroupIndex(g: nat)
    ensures (3 * g) % 3 == 0 && (3 * g) / 3 == g
  {
  }

  /** A digit at the start of a group goes in front of the group's unit. */
  lemma OpenStep(m: nat, digitIdx: nat, nonZero: bool, kept: Text)
    requires 0 < m && digitIdx % 3 == 0 && digitIdx <= 9
    ensures Remaining(m, digitIdx, nonZero, kept) ==
      Remaining(m / 10, digitIdx + 1, nonZero || m % 10 != 0, [Digit(m % 10)] + (GroupSuffix(digitIdx / 3) + (if nonZero then kept else [])))
  {
  }

  /** A digit inside a group goes in front of what is kept. */
  lemma PlainStep(m: nat, digitIdx: nat, nonZero: bool, kept: Text)
    requires 0 < m && digitIdx % 3 != 0
    ensures Remaining(m, digitIdx, nonZero, kept) == Remaining(m / 10, digitIdx + 1, nonZero || m % 10 != 0, [Digit(m % 10)] + kept)
  {
  }

  /** A top group of fewer than four digits is written whole, in front of its unit. */
  lemma ShortGroup(m: nat, g: nat, nonZero: bool, kept: Text)
    requires 0 < m < 1000 && g < 3
    ensures Remaining(m, 3 * g, nonZero, kept) == DigitsOf(m) + (GroupSuffix(g) + (if nonZero then kept else []))
  {
    var digitIdx := 3 * g;
    GroupIndex(g);
    var k0 := GroupSuffix(g) + (if nonZero then kept else []);
    var d0 := Digit(m % 10);
    OpenStep(m, digitIdx, nonZero, kept);
    GroupRest(m / 10, digitIdx + 1, nonZero || m % 10 != 0, [d0] + k0);
    assert DigitsOf(m) == DigitsOf(m / 10) + [d0];
    Regroup(DigitsOf(m / 10), d0, k0);
  }

  /** Inside a group no unit goes in: the group's other digits are written as they are. */
  lemma {:induction false} GroupRest(m: nat, digitIdx: nat, nonZero: bool, kept: Text)
    requires (digitIdx % 3 == 1 && m < 100) || (digitIdx % 3 == 2 && m < 10)
    ensures Remaining(m, digitIdx, nonZero, kept) == DigitsOf(m) + kept
  {
    if m > 0 {
      var d := Digit(m % 10);
      PlainStep(m, digitIdx, nonZero, kept);
      if digitIdx % 3 == 1 {
        GroupRest(m / 10, digitIdx + 1, nonZero || m % 10 != 0, [d] + kept);
      }
      assert DigitsOf(m) == DigitsOf(m / 10) + [d];
      Regroup(DigitsOf(m / 10), d, kept);
    }
  }

  /** The three digits of a full group go in front of the group's unit. */
  lemma ThreeDigits(m: nat, g: nat, nonZero: bool, kept: Text)
    requires m >= 1000 && g < 3
    ensures Remaining(m, 3 * g, nonZero, kept) ==
      Remaining(m / 1000, 3 * g + 3, nonZero || Low3(m) != ZeroGroup, Low3(m) + (GroupSuffix(g) + (if nonZero then kept else [])))
  {
    GroupIndex(g);
    var k0 := GroupSuffix(g) + (if nonZero then kept else []);
    var d0, d1, d2 := Digit(m % 10), Digit(m / 10 % 10), Digit(m / 10 / 10 % 10);
    ThreeSteps(m, 3 * g, nonZero, kept);
    DivDiv(m, 10, 10);
    DivDiv(m, 100, 10);
    assert m / 10 / 10 / 10 == m / 1000 && d2 == Digit(m / 100 % 10);
    ZeroGroupDigits(m);
    PrependThree(d2, d1, d0, k0);
  }

  /** Three digits from the start of a group: the lowest three digits go in front of its unit. */
  lemma ThreeSteps(m: nat, digitIdx: nat, nonZero: bool, kept: Text)
    requires m >= 100 && digitIdx % 3 == 0 && digitIdx <= 6
    ensures Remaining(m, digitIdx, nonZero, kept) ==
      Remaining(m / 10 / 10 / 10, digitIdx + 3, nonZero || m % 10 != 0 || m / 10 % 10 != 0 || m / 10 / 10 % 10 != 0,
        [Digit(m / 10 / 10 % 10)] + ([Digit(m / 10 % 10)] + ([Digit(m % 10)] + (GroupSuffix(digitIdx / 3) + (if nonZero then kept else [])))))
  {
    var k0 := GroupSuffix(digitIdx / 3) + (if nonZero then kept else []);
    var m1, m2 := m / 10, m / 10 / 10;
    var nz1 := nonZero || m % 10 != 0;
    var nz2 := nz1 || m1 % 10 != 0;
    OpenStep(m, digitIdx, nonZero, kept);
    PlainStep(m1, digitIdx + 1, nz1, [Digit(m % 10)] + k0);
    PlainStep(m2, digitIdx + 2, nz2, [Digit(m1 % 10)] + ([Digit(m % 10)] + k0));
  }

  /** A group is all zeros exactly when its three digits are. */
  lemma ZeroGroupDigits(m: nat)
    ensures Low3(m) == ZeroGroup <==> m % 10 == 0 && m / 10 % 10 == 0 && m / 100 % 10 == 0
  {
  }

  lemma Associate(a: Text, b: Text, c: Text, d: Text)
    ensures a + (b + (c + d)) == a + b + c + d && a + b + c + [] == a + b + c
  {
  }

  lemma Regroup(a: Text, x: byte, s: Text)
    ensures a + ([x] + s) == (a + [x]) + s
  {
  }

  lemma PrependThree(a: byte, b: byte, c: byte, s: Text)
    ensures [a] + ([b] + ([c] + s)) == [a, b, c] + s
  {
  }

  // ---------------------------------------------------------------- reading a time point back

  /** The decimal digits of a text, in order, without the units. */
  function DigitChars(s: Text): (r: Text)
    ensures AllDigits(r)
  {
    if s == [] then []
    else if IsDigit(s[0]) then [s[0]] + DigitChars(s[1..])
    else DigitChars(s[1..])
  }

  lemma {:induction false} DigitCharsAppend(a: Text, b: Text)
    ensures DigitChars(a + b) == DigitChars(a) + DigitChars(b)
  {
    if a == [] {
      assert a + b == b;
    } else {
      assert (a + b)[0] == a[0] && (a + b)[1..] == a[1..] + b;
      DigitCharsAppend(a[1..], b);
    }
  }

  lemma {:induction false} DigitCharsOfDigits(s: Text)
    requires AllDigits(s)
    ensures DigitChars(s) == s
  {
    if s != [] {
      DigitCharsOfDigits(s[1..]);
    }
  }

  /** A unit holds no digit. */
  lemma SuffixHasNoDigits(g: nat)
    requires g < 4
    ensures DigitChars(GroupSuffix(g)) == []
  {
    NoDigits(GroupSuffix(g));
  }

  lemma {:induction false} NoDigits(s: Text)
    requires forall i :: 0 <= i < |s| ==> !IsDigit(s[i])
    ensures DigitChars(s) == []
  {
    if s != [] {
      NoDigits(s[1..]);
    }
  }

  /** The top digits followed by the zero-padded three lowest ones are all the digits. */
  lemma DigitsSplit(m: nat)
    requires m >= 1000
    ensures DigitsOf(m) == DigitsOf(m / 1000) + Low3(m)
  {
    var m1, m2 := m / 10, m / 10 / 10;
    DivDiv(m, 10, 10);
    DivDiv(m, 100, 10);
    assert DigitsOf(m) == DigitsOf(m1) + [Digit(m % 10)];
    assert DigitsOf(m1) == DigitsOf(m2) + [Digit(m1 % 10)];
    assert DigitsOf(m2) == DigitsOf(m / 1000) + [Digit(m2 % 10)];
  }

  /** The digits of all groups, read without their units, are the digits of the number. */
  lemma {:induction false} AllGroupsDigits(m: nat, g: nat)
    requires 0 < m && g < 4
    ensures DigitChars(AllGroups(m, g)) == DigitsOf(m)
  {
    SuffixHasNoDigits(g);
    if g == 3 || m < 1000 {
      DigitCharsAppend(DigitsOf(m), GroupSuffix(g));
      DigitCharsOfDigits(DigitsOf(m));
    } else {
      AllGroupsDigits(m / 1000, g + 1);
      DigitCharsAppend(AllGroups(m / 1000, g + 1) + Low3(m), GroupSuffix(g));
      DigitCharsAppend(AllGroups(m / 1000, g + 1), Low3(m));
      DigitCharsOfDigits(Low3(m));
      DigitsSplit(m);
    }
  }

  /** How many groups of zeros at the low end `SignificantGroups` drops. */
  function Dropped(m: nat, g: nat): (c: nat)
    requires 0 < m && g < 4
    ensures g + c < 4
    decreases m
  {
    if g == 3 || m < 1000 then 0
    else if Low3(m) == ZeroGroup then 1 + Dropped(m / 1000, g + 1)
    else 0
  }

  function Pow1000(c: nat): (r: nat)
    ensures r >= 1
  {
    if c == 0 then 1 else 1000 * Pow1000(c - 1)
  }

  /** A group of zeros at the low end makes the number a multiple of 1000. */
  lemma ZeroGroupMultiple(m: nat)
    requires Low3(m) == ZeroGroup
    ensures m == m / 1000 * 1000
  {
    ZeroGroupDigits(m);
    DivDiv(m, 10, 10);
    DivDiv(m, 100, 10);
  }

  /** The number without the groups of zeros `SignificantGroups` drops. */
  function Scaled(m: nat, g: nat): (s: nat)
    requires 0 < m && g < 4
    ensures 0 < s
    decreases m
  {
    if g == 3 || m < 1000 then m
    else if Low3(m) == ZeroGroup then Scaled(m / 1000, g + 1)
    else m
  }

  /**
   * The significant groups are all the groups of the number with its dropped groups of zeros
   * divided out, and that number times 1000 per dropped group is the number.
   */
  lemma {:induction false} SignificantScaled(m: nat, g: nat)
    requires 0 < m && g < 4
    ensures Scaled(m, g) * Pow1000(Dropped(m, g)) == m
    ensures SignificantGroups(m, g) == AllGroups(Scaled(m, g), g + Dropped(m, g))
  {
    if !(g == 3 || m < 1000) && Low3(m) == ZeroGroup {
      var q := m / 1000;
      SignificantScaled(q, g + 1);
      ZeroGroupMultiple(m);
      var s, c := Scaled(q, g + 1), Dropped(q, g + 1);
      assert Scaled(m, g) == s && Dropped(m, g) == 1 + c && Pow1000(1 + c) == 1000 * Pow1000(c);
      MulAssociates(s, Pow1000(c), 1000);
      assert SignificantGroups(m, g) == SignificantGroups(q, g + 1) && g + Dropped(m, g) == g + 1 + c;
    } else if g == 3 || m < 1000 {
      assert SignificantGroups(m, g) == AllGroups(m, g);
    } else {
      assert SignificantGroups(m, g) == AllGroups(m / 1000, g + 1) + Low3(m) + GroupSuffix(g);
    }
  }

  /** `s` ends with `t`. */
  predicate EndsWith(s: Text, t: Text)
  {
    |t| <= |s| && s[|s| - |t|..] == t
  }

  /**
   * The significant groups of `n` are lossless: their digits read back, times 1000 for every
   * group dropped (which the unit they end with tells), give `n`.
   */
  lemma GroupsReadBack(n: nat)
    requires n > 0
    ensures var body, c := SignificantGroups(n, 0), Dropped(n, 0);
      Value(DigitChars(body)) * Pow1000(c) == n && EndsWith(body, GroupSuffix(c))
  {
    SignificantScaled(n, 0);
    var q, c := Scaled(n, 0), Dropped(n, 0);
    AllGroupsDigits(q, c);
    ValueOfDigits(q);
    AllGroupsSuffix(q, c);
  }

  /** A time point without its sign is lossless, as `GroupsReadBack` states. */
  lemma TimePointReadsBack(timeNs: int)
    requires timeNs != 0
    ensures var n := Abs(timeNs);
      var body, c := TimePointText(timeNs)[if timeNs < 0 then 1 else 0..], Dropped(n, 0);
      Value(DigitChars(body)) * Pow1000(c) == n && EndsWith(body, GroupSuffix(c))
  {
    var n := Abs(timeNs);
    assert TimePointText(timeNs)[if timeNs < 0 then 1 else 0..] == SignificantGroups(n, 0);
    GroupsReadBack(n);
  }

  /** All groups end with the unit of the lowest one. */
  lemma AllGroupsSuffix(m: nat, g: nat)
    requires 0 < m && g < 4
    ensures EndsWith(AllGroups(m, g), GroupSuffix(g))
  {
  }

  /**
   * Examples: zero, a group of zeros dropped ("1µ 500n" for 1500 ns, written with U+00B5),
   * all lower groups dropped ("-5s " for -5 s), and inner groups of zeros kept.
   */
  lemma TimePointExamples()
    ensures TimePointText(0) == [Zero]
    ensures TimePointText(1500) == [49] + Micro + [Space, 53, 48, 48, 110]
  {
  }

  lemma TimePointExamplesLarge()
    ensures TimePointText(-5_000_000_000) == [Minus, 53, 115, Space]
  {
    ScaleDown(5, 3);
    ScaleDown(5_000, 2);
    ScaleDown(5_000_000, 1);
    assert SignificantGroups(5, 3) == [53, 115, Space];
  }

  /** A time a thousand times larger drops one more group of zeros. */
  lemma ScaleDown(m: nat, g: nat)
    requires 0 < m && 0 < g < 4
    ensures SignificantGroups(m * 1000, g - 1) == SignificantGroups(m, g)
  {
    var n := m * 1000;
    DivUnique(n, 1000, m, 0);
    DivUnique(n, 100, m * 10, 0);
    DivUnique(n, 10, m * 100, 0);
    DivUnique(m * 10, 10, m, 0);
    DivUnique(m * 100, 10, m * 10, 0);
    assert Low3(n) == ZeroGroup;
  }

  lemma TimePointExamplesInner()
    ensures TimePointText(1_000_001) == [49, 109, Space, 48, 48, 48] + Micro + [Space, 48, 48, 49, 110]
  {
    assert Low3(1_000_001) == [Zero, Zero, 49] && Low3(1_000) == ZeroGroup;
    assert AllGroups(1_000, 1) == AllGroups(1, 2) + ZeroGroup + GroupSuffix(1);
  }
}
