/** The three string primitives fitness-calendar's TypeScript code uses: `String(n)` of an
    integer, `padStart(2, '0')`, and `String.prototype.trim`. */
module Text {

  /** The character of a decimal digit. */
  function DigitChar(d: nat): (c: char)
    requires d < 10
    ensures '0' <= c <= '9'
  {
    ('0' as int + d) as char
  }

  /** Decimal rendering of a natural number, without leading zeros. */
  function NatToDecimal(n: nat): (r: string)
    ensures 1 <= |r|
    ensures forall i :: 0 <= i < |r| ==> '0' <= r[i] <= '9'
    ensures |r| == 1 <==> n < 10
    ensures n >= 10 ==> r[0] != '0'
  {
    if n < 10 then [DigitChar(n)] else NatToDecimal(n / 10) + [DigitChar(n % 10)]
  }

  /** The number a string of decimal digits denotes (reference reading of a rendering). */
  function DecimalValue(s: string): int
  {
    if |s| == 0 then 0 else 10 * DecimalValue(s[..|s| - 1]) + (s[|s| - 1] as int - '0' as int)
  }

  /** Reading back a rendered natural gives the number again. */
  lemma {:induction false} DecimalRoundTrip(n: nat)
    ensures DecimalValue(NatToDecimal(n)) == n
  {
    if n >= 10 {
      var r := NatToDecimal(n);
      assert r[..|r| - 1] == NatToDecimal(n / 10);
      DecimalRoundTrip(n / 10);
    }
  }

  /** `String(i)` for an integer `i`: a minus sign exactly for negatives, then decimal digits. */
  function IntToString(i: int): (r: string)
    ensures |r| >= 1
    ensures i >= 0 ==> forall k :: 0 <= k < |r| ==> '0' <= r[k] <= '9'
    ensures i < 0 ==> |r| >= 2 && r[0] == '-' && forall k :: 1 <= k < |r| ==> '0' <= r[k] <= '9'
  {
    if i < 0 then "-" + NatToDecimal(-i) else NatToDecimal(i)
  }

  /** The digits of `String(i)` denote the magnitude of `i`. */
  lemma IntToStringValue(i: int)
    ensures i >= 0 ==> DecimalValue(IntToString(i)) == i
    ensures i < 0 ==> DecimalValue(IntToString(i)[1..]) == -i
  {
    if i < 0 {
      var n: nat := -i;
      var r := IntToString(i);
      assert r == "-" + NatToDecimal(n);
      assert r[1..] == NatToDecimal(n);
      DecimalRoundTrip(n);
    } else {
      DecimalRoundTrip(i);
    }
  }

  /** Distinct integers render differently. */
  lemma IntToStringInjective(a: int, b: int)
    requires IntToString(a) == IntToString(b)
    ensures a == b
  {
    IntToStringValue(a);
    IntToStringValue(b);
  }

  /** `s.padStart(2, '0')`: left-pad with zeros to length two; longer strings are unchanged. */
  function PadStart2(s: string): (r: string)
    ensures |s| >= 2 ==> r == s
    ensures |s| < 2 ==> |r| == 2
    ensures r[|r| - |s|..] == s
    ensures forall i :: 0 <= i < |r| - |s| ==> r[i] == '0'
  {
    if |s| >= 2 then s else if |s| == 1 then ['0'] + s else ['0', '0']
  }

  /** A two-digit field for 1..99, as `String(n).padStart(2, '0')` renders it. */
  lemma TwoDigitField(n: int)
    requires 1 <= n <= 99
    ensures PadStart2(IntToString(n)) == [DigitChar(n / 10), DigitChar(n % 10)]
  {
    if n >= 10 {
      assert NatToDecimal(n / 10) == [DigitChar(n / 10)];
      assert NatToDecimal(n) == [DigitChar(n / 10), DigitChar(n % 10)];
    } else {
      assert NatToDecimal(n) == [DigitChar(n)];
      assert n / 10 == 0 && n % 10 == n;
      assert PadStart2(IntToString(n)) == ['0'] + [DigitChar(n)];
    }
  }

  /** The characters `String.prototype.trim` strips: ECMAScript WhiteSpace and LineTerminator. */
  predicate IsSpace(c: char) {
    || c == '\t' || c == '\n' || c == '\U{000B}' || c == '\U{000C}' || c == '\r' || c == ' '
    || c == '\U{00A0}' || c == '\U{1680}' || ('\U{2000}' <= c <= '\U{200A}')
    || c == '\U{2028}' || c == '\U{2029}' || c == '\U{202F}' || c == '\U{205F}'
    || c == '\U{3000}' || c == '\U{FEFF}'
  }

  /** `s` with its leading whitespace removed. */
  function TrimStart(s: string): (r: string)
    ensures |r| <= |s| && r == s[|s| - |r|..]
    ensures forall i :: 0 <= i < |s| - |r| ==> IsSpace(s[i])
    ensures |r| > 0 ==> !IsSpace(r[0])
  {
    if |s| > 0 && IsSpace(s[0]) then TrimStart(s[1..]) else s
  }

  /** `s` with its trailing whitespace removed. */
  function TrimEnd(s: string): (r: string)
    ensures |r| <= |s| && r == s[..|r|]
    ensures forall i :: |r| <= i < |s| ==> IsSpace(s[i])
    ensures |r| > 0 ==> !IsSpace(r[|r| - 1])
  {
    if |s| > 0 && IsSpace(s[|s| - 1]) then TrimEnd(s[..|s| - 1]) else s
  }

  /** `s.trim()`: the slice of `s` between its leading and its trailing whitespace. */
  function Trim(s: string): (r: string)
    ensures r == "" <==> forall i :: 0 <= i < |s| ==> IsSpace(s[i])
    ensures |r| > 0 ==> !IsSpace(r[0]) && !IsSpace(r[|r| - 1])
    ensures |s| - |TrimStart(s)| + |r| <= |s|
    ensures r <= s[|s| - |TrimStart(s)|..]
    ensures forall i :: 0 <= i < |s| - |TrimStart(s)| ==> IsSpace(s[i])
    ensures forall i :: |s| - |TrimStart(s)| + |r| <= i < |s| ==> IsSpace(s[i])
  {
    TrimEmptyIff(s);
    TrimSlice(s);
    TrimEnd(TrimStart(s))
  }

  /** Trimming both ends keeps a contiguous slice and drops only whitespace after it. */
  lemma TrimSlice(s: string)
    ensures |s| - |TrimStart(s)| + |TrimEnd(TrimStart(s))| <= |s|
    ensures TrimEnd(TrimStart(s)) <= s[|s| - |TrimStart(s)|..]
    ensures forall i :: |s| - |TrimStart(s)| + |TrimEnd(TrimStart(s))| <= i < |s| ==> IsSpace(s[i])
  {
    var t := TrimStart(s);
    SliceSpaces(s, t, TrimEnd(t));
  }

  /** A prefix `r` of a suffix `t` of `s` is a slice of `s`; what `r` leaves of `t` is what
      it leaves of `s` at the end. */
  lemma SliceSpaces(s: string, t: string, r: string)
    requires |t| <= |s| && t == s[|s| - |t|..]
    requires |r| <= |t| && r == t[..|r|]
    requires forall i :: |r| <= i < |t| ==> IsSpace(t[i])
    ensures r <= s[|s| - |t|..]
    ensures forall i :: |s| - |t| + |r| <= i < |s| ==> IsSpace(s[i])
  {
    var k := |s| - |t|;
    forall i | k + |r| <= i < |s| ensures IsSpace(s[i]) {
      assert s[i] == t[i - k];
    }
  }

  /** Trimming both ends yields the empty string exactly when every character is whitespace. */
  lemma TrimEmptyIff(s: string)
    ensures TrimEnd(TrimStart(s)) == "" <==> forall i :: 0 <= i < |s| ==> IsSpace(s[i])
  {
    var t := TrimStart(s);
    if |t| > 0 {
      assert !IsSpace(t[0]) && t[0] == s[|s| - |t|];
    }
  }
}
