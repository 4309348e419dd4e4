/** Decimal number text as the push/pull samples produce and read it:
    `QString::number` of an `int` (optional minus sign, then digits without
    leading zeros) and Qt 5's `QByteArray::toUInt` in base 10. The parse reads
    the bytes up to the first NUL, skips white space on both sides, accepts
    one leading `+`, and yields 0 unless what is left is a non-empty run of
    digits denoting a value in the 32-bit unsigned range. */
module Decimal {
  import opened Engine

  const NUL: Byte := 0
  const ZERO: Byte := 48
  const MINUS: Byte := 45
  const PLUS: Byte := 43

  predicate IsDigit(b: Byte) {
    ZERO <= b <= ZERO + 9
  }

  predicate AllDigits(s: Frame) {
    forall i :: 0 <= i < |s| ==> IsDigit(s[i])
  }

  /** The C library's `isspace` in the "C" locale: space, tab, newline,
      vertical tab, form feed, carriage return. */
  predicate IsSpace(b: Byte) {
    b == 32 || 9 <= b <= 13
  }

  predicate AllSpace(s: Frame) {
    forall i :: 0 <= i < |s| ==> IsSpace(s[i])
  }

  /** Digits of `n`, most significant first. */
  function Text(n: nat): (s: Frame)
    ensures 0 < |s|
    ensures AllDigits(s)
    ensures s[0] == ZERO ==> n == 0
  {
    if n < 10 then [(48 + n) as Byte] else Text(n / 10) + [(48 + n % 10) as Byte]
  }

  /** `QString::number(int)`. */
  function IntText(i: int): (s: Frame)
    ensures i < 0 ==> |s| > 0 && s[0] == MINUS
    ensures i >= 0 ==> s == Text(i)
  {
    if i < 0 then [MINUS] + Text(-i) else Text(i)
  }

  /** The number a string of digits denotes. */
  function Value(s: Frame): nat
    requires AllDigits(s)
  {
    if |s| == 0 then 0 else Value(s[..|s| - 1]) * 10 + (s[|s| - 1] - ZERO) as nat
  }

  /** The bytes a C string parser sees: everything before the first NUL. */
  function UpToNul(s: Frame): (t: Frame)
    ensures |t| <= |s|
  {
    if |s| == 0 || s[0] == NUL then [] else [s[0]] + UpToNul(s[1..])
  }

  /** The parser sees a prefix free of NUL, cut at the first NUL if any. */
  lemma {:induction false} UpToNulStopsAtNul(s: Frame)
    ensures var t := UpToNul(s);
      && t == s[..|t|]
      && NoNul(t)
      && (|t| < |s| ==> s[|t|] == NUL)
    decreases |s|
  {
    if |s| > 0 && s[0] != NUL {
      UpToNulStopsAtNul(s[1..]);
    }
  }

  function TrimStart(s: Frame): (t: Frame)
    ensures |t| <= |s|
  {
    if |s| > 0 && IsSpace(s[0]) then TrimStart(s[1..]) else s
  }

  /** Trimming the start drops exactly the leading white space. */
  lemma {:induction false} TrimStartDropsLeadingSpace(s: Frame)
    ensures var t := TrimStart(s);
      && t == s[|s| - |t|..]
      && AllSpace(s[..|s| - |t|])
      && (|t| > 0 ==> !IsSpace(t[0]))
    decreases |s|
  {
    if |s| > 0 && IsSpace(s[0]) {
      TrimStartDropsLeadingSpace(s[1..]);
      var t := TrimStart(s);
      assert s[..|s| - |t|] == [s[0]] + s[1..][..|s| - 1 - |t|];
    }
  }

  function TrimEnd(s: Frame): (t: Frame)
    ensures |t| <= |s|
  {
    if |s| > 0 && IsSpace(s[|s| - 1]) then TrimEnd(s[..|s| - 1]) else s
  }

  /** Trimming the end drops exactly the trailing white space. */
  lemma {:induction false} TrimEndDropsTrailingSpace(s: Frame)
    ensures var t := TrimEnd(s);
      && t == s[..|t|]
      && AllSpace(s[|t|..])
      && (|t| > 0 ==> !IsSpace(t[|t| - 1]))
    decreases |s|
  {
    if |s| > 0 && IsSpace(s[|s| - 1]) {
      var init := s[..|s| - 1];
      TrimEndDropsTrailingSpace(init);
      var t := TrimEnd(s);
      assert s[|t|..] == init[|t|..] + [s[|s| - 1]];
    }
  }

  /** What is left for the digits: the text before any NUL, white space
      trimmed on both sides, without one leading plus sign. */
  function Numeral(s: Frame): Frame {
    var t := TrimEnd(TrimStart(UpToNul(s)));
    if |t| > 0 && t[0] == PLUS then t[1..] else t
  }

  /** `toUInt()`: the value of the numeral when it is a non-empty digit string
      within range, else 0. */
  function ToUInt(s: Frame): (v: nat)
    ensures v <= UINT_MAX
    ensures v > 0 ==> AllDigits(Numeral(s)) && Value(Numeral(s)) == v
  {
    var d := Numeral(s);
    if 0 < |d| && AllDigits(d) && Value(d) <= UINT_MAX then Value(d) else 0
  }

  lemma {:induction false} ValueOfText(n: nat)
    ensures Value(Text(n)) == n
    decreases n
  {
    var s := Text(n);
    if n >= 10 {
      ValueOfText(n / 10);
      assert s[..|s| - 1] == Text(n / 10);
    }
  }

  lemma {:induction false} NoNulKept(s: Frame)
    requires NoNul(s)
    ensures UpToNul(s) == s
    decreases |s|
  {
    if |s| > 0 {
      NoNulKept(s[1..]);
    }
  }

  lemma {:induction false} LeadingSpaceSkipped(pre: Frame, s: Frame)
    requires AllSpace(pre) && |s| > 0 && !IsSpace(s[0])
    ensures TrimStart(pre + s) == s
    decreases |pre|
  {
    if |pre| > 0 {
      assert (pre + s)[1..] == pre[1..] + s;
      LeadingSpaceSkipped(pre[1..], s);
    } else {
      assert pre + s == s;
    }
  }

  lemma {:induction false} TrailingSpaceSkipped(s: Frame, post: Frame)
    requires AllSpace(post) && |s| > 0 && !IsSpace(s[|s| - 1])
    ensures TrimEnd(s + post) == s
    decreases |post|
  {
    if |post| > 0 {
      assert (s + post)[..|s + post| - 1] == s + post[..|post| - 1];
      TrailingSpaceSkipped(s, post[..|post| - 1]);
    } else {
      assert s + post == s;
    }
  }

  /** Reading back the text of a number in the 32-bit unsigned range yields
      the number. */
  lemma TextRoundTrip(n: nat)
    requires n <= UINT_MAX
    ensures ToUInt(Text(n)) == n
    ensures ToUInt(IntText(n)) == n
  {
    PaddedTextReads(n, [], [], []);
    assert [] + [] + Text(n) + [] == Text(n);
  }

  predicate NoNul(s: Frame) {
    forall i :: 0 <= i < |s| ==> s[i] != NUL
  }

  /** Trimming undoes white-space padding around a core that starts and ends
      with something else. */
  lemma TrimmedCore(pre: Frame, core: Frame, post: Frame)
    requires AllSpace(pre) && AllSpace(post) && NoNul(core)
    requires |core| > 0 && !IsSpace(core[0]) && !IsSpace(core[|core| - 1])
    ensures TrimEnd(TrimStart(UpToNul(pre + core + post))) == core
  {
    var s := pre + core + post;
    assert s == pre + (core + post);
    assert UpToNul(s) == s by {
      SpaceHasNoNul(pre);
      SpaceHasNoNul(post);
      NoNulConcat(pre, core);
      NoNulConcat(pre + core, post);
      NoNulKept(s);
    }
    assert TrimStart(s) == core + post by {
      LeadingSpaceSkipped(pre, core + post);
    }
    TrailingSpaceSkipped(core, post);
  }

  lemma SpaceHasNoNul(s: Frame)
    requires AllSpace(s)
    ensures NoNul(s)
  {
  }

  lemma NoNulConcat(a: Frame, b: Frame)
    requires NoNul(a) && NoNul(b)
    ensures NoNul(a + b)
  {
    forall i | 0 <= i < |a + b| ensures (a + b)[i] != NUL {
      if i >= |a| { assert (a + b)[i] == b[i - |a|]; }
    }
  }

  /** The parse tolerates white space around the digits and one plus sign in
      front of them. */
  lemma PaddedTextReads(n: nat, pre: Frame, sign: Frame, post: Frame)
    requires n <= UINT_MAX
    requires AllSpace(pre) && AllSpace(post) && (sign == [] || sign == [PLUS])
    ensures ToUInt(pre + sign + Text(n) + post) == n
  {
    PaddedNumeral(Text(n), pre, sign, post);
    ValueOfText(n);
  }

  lemma Regroup(a: Frame, b: Frame, c: Frame, d: Frame)
    ensures a + b + c + d == a + (b + c) + d
  {
  }

  lemma PaddedNumeral(digits: Frame, pre: Frame, sign: Frame, post: Frame)
    requires |digits| > 0 && AllDigits(digits)
    requires AllSpace(pre) && AllSpace(post) && (sign == [] || sign == [PLUS])
    ensures Numeral(pre + sign + digits + post) == digits
  {
    var core := sign + digits;
    Regroup(pre, sign, digits, post);
    var first, last := digits[0], digits[|digits| - 1];
    assert IsDigit(first) && IsDigit(last);
    assert core[|core| - 1] == last;
    assert core[0] == if sign == [] then first else PLUS;
    assert NoNul(core) by {
      forall i | 0 <= i < |core| ensures core[i] != NUL {
        if i >= |sign| { assert core[i] == digits[i - |sign|]; }
      }
    }
    TrimmedCore(pre, core, post);
    if sign == [PLUS] {
      assert core[1..] == digits;
    } else {
      assert core == digits;
    }
  }

  /** The text of a negative number does not parse: `toUInt` yields 0. */
  lemma NegativeTextReadsAsZero(i: int)
    requires i < 0
    ensures ToUInt(IntText(i)) == 0
  {
    var s := IntText(i);
    var digits := Text(-i);
    assert s == [MINUS] + digits;
    assert UpToNul(s) == s by {
      NoNulConcat([MINUS], digits);
      NoNulKept(s);
    }
    assert TrimStart(s) == s;
    assert TrimEnd(s) == s by {
      assert s[|s| - 1] == digits[|digits| - 1];
    }
    assert Numeral(s) == s;
    assert !IsDigit(s[0]);
  }

  /** The text of a number beyond the 32-bit unsigned range reads as 0. */
  lemma OutOfRangeTextReadsAsZero(n: nat)
    requires n > UINT_MAX
    ensures ToUInt(Text(n)) == 0
  {
    var s := Text(n);
    forall i | 0 <= i < |s| ensures s[i] != NUL { }
    NoNulKept(s);
    assert TrimStart(s) == s;
    assert TrimEnd(s) == s;
    ValueOfText(n);
  }
}
