/**
 * Integer text as JavaScript writes and reads it: `String(n)` for a non-negative integer,
 * `padStart(2, '0')`, and `parseInt` without a radix, which skips white space, reads an optional
 * sign and a `0x` prefix, then the longest run of digits, and yields NaN (here: nothing) when
 * there is no digit.
 */
module Decimal {
  import opened Wrappers

  predicate IsDigit(c: char) { '0' <= c <= '9' }

  predicate AllDigits(s: string) { forall i :: 0 <= i < |s| ==> IsDigit(s[i]) }

  function DigitChar(d: nat): (c: char)
    requires d < 10
    ensures IsDigit(c) && (c as int) - ('0' as int) == d
  {
    (('0' as int) + d) as char
  }

  /** The value a run of digits denotes, most significant first. */
  function Value(s: string): (n: nat)
    requires AllDigits(s)
    ensures n < Pow10(|s|)
  {
    if |s| == 0 then 0
    else Value(s[..|s| - 1]) * 10 + ((s[|s| - 1] as int) - ('0' as int))
  }

  function Pow10(k: nat): (p: nat)
    ensures p >= 1
  {
    if k == 0 then 1 else 10 * Pow10(k - 1)
  }

  /** `String(n)`: the shortest decimal text of `n`. */
  function Digits(n: nat): (s: string)
    ensures AllDigits(s) && |s| >= 1
    ensures n < 10 <==> |s| == 1
  {
    if n < 10 then [DigitChar(n)] else Digits(n / 10) + [DigitChar(n % 10)]
  }

  /** Reading the text of `n` gives `n` back. */
  lemma {:induction false} ValueOfDigits(n: nat)
    ensures Value(Digits(n)) == n
  {
    if n >= 10 {
      var s := Digits(n);
      assert s[..|s| - 1] == Digits(n / 10);
      ValueOfDigits(n / 10);
    }
  }

  /** The text of `n` has `k` characters exactly when `10^(k-1) <= n < 10^k` (or `k` is 1 and `n < 10`). */
  lemma DigitsLength(n: nat, k: nat)
    ensures |Digits(n)| == k <==> k >= 1 && (k == 1 || Pow10(k - 1) <= n) && n < Pow10(k)
  {
    DigitsBounds(n);
    if k >= 1 && (k == 1 || Pow10(k - 1) <= n) && n < Pow10(k) {
      LengthWithinBounds(n, k);
    }
  }

  /** A number within the bounds of `k` digits is written with `k` digits. */
  lemma {:induction false} LengthWithinBounds(n: nat, k: nat)
    requires k >= 1 && (k == 1 || Pow10(k - 1) <= n) && n < Pow10(k)
    ensures |Digits(n)| == k
  {
    if k > 1 {
      if k > 2 {
        LengthWithinBounds(n / 10, k - 1);
      } else {
        LengthWithinBounds(n / 10, 1);
      }
    } else if n >= 10 {
      assert false;
    }
  }

  /** The text of `n` is as long as the bounds of `n` demand. */
  lemma {:induction false} DigitsBounds(n: nat)
    ensures |Digits(n)| == 1 || Pow10(|Digits(n)| - 1) <= n
    ensures n < Pow10(|Digits(n)|)
  {
    if n >= 10 {
      DigitsBounds(n / 10);
    }
  }

  /** `padStart(2, '0')` applied to the text of `n`. */
  function Pad2(n: nat): (s: string)
    ensures AllDigits(s)
    ensures n < 100 ==> |s| == 2
  {
    var t := Digits(n);
    assert 10 <= n < 100 ==> |t| == 2 by {
      if 10 <= n < 100 { DigitsLength(n, 2); }
    }
    if |t| < 2 then "0" + t else t
  }

  /** A padded number below 100 reads back as itself. */
  lemma ValueOfPad2(n: nat)
    requires n < 100
    ensures Value(Pad2(n)) == n
  {
    ValueOfDigits(n);
    if n < 10 {
      assert Pad2(n)[..1] == "0";
    } else {
      DigitsLength(n, 2);
    }
  }

  /**
   * The characters `parseInt` skips at the front: ECMAScript white space (tab, vertical tab,
   * form feed, the byte order mark and every space separator) and the line terminators.
   */
  predicate IsSpace(c: char)
  {
    || c == '\t' || c == '\n' || c == '\U{000B}' || c == '\U{000C}' || c == '\r' || c == ' '
    || c == '\U{00A0}' || c == '\U{1680}' || ('\U{2000}' <= c <= '\U{200A}')
    || c == '\U{2028}' || c == '\U{2029}' || c == '\U{202F}' || c == '\U{205F}'
    || c == '\U{3000}' || c == '\U{FEFF}'
  }

  /** `s` without its leading white space. */
  function TrimStart(s: string): (t: string)
    ensures |t| <= |s| && t == s[|s| - |t|..]
    ensures forall i :: 0 <= i < |s| - |t| ==> IsSpace(s[i])
    ensures |t| > 0 ==> !IsSpace(t[0])
  {
    if |s| > 0 && IsSpace(s[0]) then TrimStart(s[1..]) else s
  }

  /** A digit of `radix` (10 or 16): a decimal digit, or for 16 also `a`-`f` in either case. */
  predicate IsDigitIn(c: char, radix: nat)
  {
    IsDigit(c) || (radix == 16 && ('a' <= c <= 'f' || 'A' <= c <= 'F'))
  }

  /** The value of a digit of radix 16 or below. */
  function DigitValue(c: char): (d: nat)
    requires IsDigitIn(c, 16)
    ensures d < 16
    ensures IsDigit(c) <==> d < 10
  {
    if IsDigit(c) then (c as int) - ('0' as int)
    else if 'a' <= c <= 'f' then (c as int) - ('a' as int) + 10
    else (c as int) - ('A' as int) + 10
  }

  /** The number of digits of `radix` at the front of `s`. */
  function LeadingDigits(s: string, radix: nat): (k: nat)
    ensures k <= |s| && forall i :: 0 <= i < k ==> IsDigitIn(s[i], radix)
    ensures k < |s| ==> !IsDigitIn(s[k], radix)
  {
    if |s| == 0 || !IsDigitIn(s[0], radix) then 0
    else
      var k := 1 + LeadingDigits(s[1..], radix);
      assert forall i :: 1 <= i < k ==> s[i] == s[1..][i - 1];
      k
  }

  /** The value of a run of digits of `radix`, most significant first. */
  function RadixValue(s: string, radix: nat): (n: nat)
    requires forall i :: 0 <= i < |s| ==> IsDigitIn(s[i], radix)
  {
    if |s| == 0 then 0
    else
      assert IsDigitIn(s[|s| - 1], radix);
      RadixValue(s[..|s| - 1], radix) * radix + DigitValue(s[|s| - 1])
  }

  /** In radix 10, the value of a run of digits is its decimal value. */
  lemma {:induction false} DecimalRadixValue(s: string)
    requires AllDigits(s)
    ensures RadixValue(s, 10) == Value(s)
  {
    if |s| > 0 {
      DecimalRadixValue(s[..|s| - 1]);
    }
  }

  /** `0x` or `0X`: the prefix that switches `parseInt` without a radix to radix 16. */
  predicate HexPrefixed(s: string)
  {
    |s| >= 2 && s[0] == '0' && (s[1] == 'x' || s[1] == 'X')
  }

  /**
   * `parseInt(s)` with no radix (section 19.2.5 of ECMA-262): leading white space is skipped,
   * a `-` or `+` sign read, then a `0x` prefix selects radix 16 and otherwise radix 10 applies,
   * and the longest run of digits of that radix is read; without a digit the result is NaN
   * (here: nothing). A negative zero is zero.
   */
  function ParseInt(s: string): (r: Option<int>)
    ensures var t := TrimStart(s);
            |t| > 0 && !IsDigit(t[0]) && t[0] != '-' && t[0] != '+' ==> r.None?
  {
    ParseSigned(TrimStart(s))
  }

  /** `parseInt` after the white space: the sign, then the magnitude. */
  function ParseSigned(t: string): (r: Option<int>)
    ensures |t| > 0 && !IsDigit(t[0]) && t[0] != '-' && t[0] != '+' ==> r.None?
  {
    var magnitude := ParseMagnitude(Unsigned(t));
    if magnitude.None? then None
    else if |t| > 0 && t[0] == '-' then Some(-magnitude.value)
    else magnitude
  }

  /** `parseInt` after the sign: the radix the prefix selects, then the leading digits of that radix. */
  function ParseMagnitude(u: string): (r: Option<int>)
    ensures |u| > 0 && !IsDigit(u[0]) ==> r.None?
    ensures r.Some? ==> r.value >= 0
  {
    var radix := if HexPrefixed(u) then 16 else 10;
    var body := if HexPrefixed(u) then u[2..] else u;
    var k := LeadingDigits(body, radix);
    if k == 0 then None else Some(RadixValue(body[..k], radix))
  }

  /** `s` without its leading sign, if it has one. */
  function Unsigned(s: string): (t: string)
    ensures |s| > 0 && (s[0] == '-' || s[0] == '+') ==> t == s[1..]
    ensures |s| == 0 || (s[0] != '-' && s[0] != '+') ==> t == s
  {
    if |s| > 0 && (s[0] == '-' || s[0] == '+') then s[1..] else s
  }

  /** A non-empty run of digits parses to its value. */
  lemma {:induction false} ParseAllDigits(s: string)
    requires |s| > 0 && AllDigits(s)
    ensures ParseInt(s) == Some(Value(s))
  {
    assert TrimStart(s) == s && Unsigned(s) == s;
    MagnitudeOfDigits(s);
  }

  /** The magnitude of a non-empty run of digits is its decimal value. */
  lemma {:induction false} MagnitudeOfDigits(s: string)
    requires |s| > 0 && AllDigits(s)
    ensures ParseMagnitude(s) == Some(Value(s))
  {
    assert !HexPrefixed(s);
    var k := LeadingDigits(s, 10);
    assert k == |s|;
    assert s[..k] == s;
    DecimalRadixValue(s);
  }

  /** Writing a number and parsing the text gives the number. */
  lemma ParseDigits(n: nat)
    ensures ParseInt(Digits(n)) == Some(n)
  {
    ParseAllDigits(Digits(n));
    ValueOfDigits(n);
  }

  /** A minus sign before a run of digits negates the value read. */
  lemma {:induction false} ParseNegative(d: string)
    requires |d| > 0 && AllDigits(d)
    ensures ParseInt("-" + d) == Some(-(Value(d) as int))
  {
    var s := "-" + d;
    TrimmedAlready(s);
    assert Unsigned(s) == d;
    MagnitudeOfDigits(d);
    assert ParseSigned(s) == Some(-(Value(d) as int));
    assert ParseInt(s) == ParseSigned(s);
  }

  /** Text that does not start with white space is not trimmed. */
  lemma {:induction false} TrimmedAlready(s: string)
    requires |s| == 0 || !IsSpace(s[0])
    ensures TrimStart(s) == s
  {
  }

  /** White space before the text does not change what `parseInt` reads. */
  lemma {:induction false} ParseSkipsSpace(c: char, s: string)
    requires IsSpace(c)
    ensures ParseInt([c] + s) == ParseInt(s)
  {
    assert ([c] + s)[1..] == s;
  }

  /**
   * Reading stops at the first character that is not a digit: a run of digits followed by
   * anything else reads as the run, unless the run is a single `0` followed by `x` or `X`.
   */
  lemma {:induction false} ParseStopsAtNonDigit(d: string, rest: string)
    requires |d| > 0 && AllDigits(d)
    requires |rest| == 0 || !IsDigit(rest[0])
    requires !HexPrefixed(d + rest)
    ensures ParseInt(d + rest) == Some(Value(d))
  {
    var s := d + rest;
    TrimmedAlready(s);
    assert Unsigned(s) == s;
    StopsAtNonDigit(d, rest);
  }

  /** The magnitude part of `ParseStopsAtNonDigit`. */
  lemma {:induction false} StopsAtNonDigit(d: string, rest: string)
    requires |d| > 0 && AllDigits(d)
    requires |rest| == 0 || !IsDigit(rest[0])
    requires !HexPrefixed(d + rest)
    ensures ParseMagnitude(d + rest) == Some(Value(d))
  {
    var s := d + rest;
    var k := LeadingDigits(s, 10);
    assert forall i :: 0 <= i < |d| ==> s[i] == d[i] && IsDigitIn(s[i], 10);
    assert |d| == |s| || (s[|d|] == rest[0] && !IsDigitIn(s[|d|], 10));
    assert k == |d|;
    assert s[..k] == d;
    DecimalRadixValue(d);
  }

  /** After a `0x` prefix the digits are hexadecimal, and a prefix with no digit after it is NaN. */
  lemma {:induction false} ParseHexPrefix(s: string)
    requires HexPrefixed(s)
    ensures ParseInt(s).None? <==> |s| == 2 || !IsDigitIn(s[2], 16)
    ensures ParseInt(s).Some? ==> ParseInt(s) == Some(RadixValue(s[2..][..LeadingDigits(s[2..], 16)], 16))
  {
    assert TrimStart(s) == s && Unsigned(s) == s;
  }
}
