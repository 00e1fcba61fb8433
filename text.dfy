/**
 * The string primitives of the .NET runtime that the display and input code
 * use: invariant-culture decimal and hexadecimal rendering, `BitConverter.ToString`,
 * `int.TryParse` with `NumberStyles.Integer`, and character search.
 */
module Text {
  import opened Numeric
  import opened Results

  predicate IsDigit(c: char)
  {
    '0' <= c <= '9'
  }

  function DigitChar(d: nat): (c: char)
    requires d < 10
    ensures IsDigit(c)
  {
    (('0' as int) + d) as char
  }

  function DigitValue(c: char): (d: nat)
    requires IsDigit(c)
    ensures d < 10 && DigitChar(d) == c
  {
    (c as int) - ('0' as int)
  }

  /** Decimal rendering of a natural number, without leading zeros. */
  function NatToDecimal(n: nat): (s: string)
    ensures |s| >= 1
    ensures forall k :: 0 <= k < |s| ==> IsDigit(s[k])
    decreases n
  {
    if n < 10 then [DigitChar(n)] else NatToDecimal(n / 10) + [DigitChar(n % 10)]
  }

  /** `i.ToString(CultureInfo.InvariantCulture)`: a minus sign for negative values, then the digits. */
  function IntToDecimal(i: int): (s: string)
    ensures |s| >= 1
    ensures forall k :: 0 <= k < |s| ==> IsDigit(s[k]) || s[k] == '-'
  {
    if i < 0 then "-" + NatToDecimal(-i) else NatToDecimal(i)
  }

  predicate AllDigits(s: string)
  {
    forall k :: 0 <= k < |s| ==> IsDigit(s[k])
  }

  /** The value of a string of decimal digits, most significant first. */
  function DecimalValue(s: string): nat
    requires AllDigits(s)
  {
    if s == [] then 0 else 10 * DecimalValue(s[..|s| - 1]) + DigitValue(s[|s| - 1])
  }

  /** Reading back a rendered natural number gives the number. */
  lemma {:induction false} DecimalRoundTrip(n: nat)
    ensures DecimalValue(NatToDecimal(n)) == n
  {
    if n >= 10 {
      DecimalRoundTrip(n / 10);
      var s := NatToDecimal(n);
      assert s[..|s| - 1] == NatToDecimal(n / 10);
    }
  }

  function HexDigit(d: nat): (c: char)
    requires d < 16
  {
    "0123456789ABCDEF"[d]
  }

  /** `{x:X}`: upper-case hexadecimal with the fewest digits ("0" for zero). */
  function HexUpper(n: nat): (s: string)
    ensures |s| >= 1
    decreases n
  {
    if n < 16 then [HexDigit(n)] else HexUpper(n / 16) + [HexDigit(n % 16)]
  }

  /** The two upper-case hexadecimal digits of one byte, high nibble first. */
  function ByteHex(b: byte): (s: string)
    ensures |s| == 2
  {
    [HexDigit(b as int / 16), HexDigit(b as int % 16)]
  }

  /**
   * `BitConverter.ToString(bytes)` with the separator `sep` (a dash there):
   * each byte as two upper-case hexadecimal digits, separated by `sep`.
   */
  function HexJoined(bs: seq<byte>, sep: char): (s: string)
    ensures |bs| == 0 ==> s == ""
    ensures |bs| > 0 ==> |s| == 3 * |bs| - 1
  {
    if |bs| == 0 then ""
    else if |bs| == 1 then ByteHex(bs[0])
    else ByteHex(bs[0]) + [sep] + HexJoined(bs[1..], sep)
  }

  /** Byte `k` sits at offset `3 * k`, and a separator follows every byte but the last. */
  lemma {:induction false} HexJoinedLayout(bs: seq<byte>, sep: char)
    ensures forall k :: 0 <= k < |bs| ==> HexJoined(bs, sep)[3 * k .. 3 * k + 2] == ByteHex(bs[k])
    ensures forall k :: 0 <= k < |bs| - 1 ==> HexJoined(bs, sep)[3 * k + 2] == sep
  {
    if |bs| > 1 {
      var rest := HexJoined(bs[1..], sep);
      var s := HexJoined(bs, sep);
      HexJoinedLayout(bs[1..], sep);
      assert s == ByteHex(bs[0]) + [sep] + rest;
      forall k | 1 <= k < |bs|
        ensures s[3 * k .. 3 * k + 2] == ByteHex(bs[k])
      {
        var j := k - 1;
        assert s[3 * k .. 3 * k + 2] == rest[3 * j .. 3 * j + 2];
      }
      forall k | 1 <= k < |bs| - 1
        ensures s[3 * k + 2] == sep
      {
        var j := k - 1;
        assert s[3 * k + 2] == rest[3 * j + 2];
      }
    }
  }

  /** `s.Replace(from, to)` for one-character strings: every `from` becomes `to`. */
  function ReplaceChar(s: string, from: char, to: char): (r: string)
    ensures |r| == |s|
    ensures forall k :: 0 <= k < |s| ==> r[k] == (if s[k] == from then to else s[k])
  {
    if s == [] then [] else [if s[0] == from then to else s[0]] + ReplaceChar(s[1..], from, to)
  }

  /** `s.IndexOf(c, from)`: the first position at or after `from` holding `c`, or -1. */
  function IndexOf(s: string, c: char, from: nat): (r: int)
    ensures r == -1 || (from <= r < |s| && s[r] == c)
    ensures r == -1 ==> forall k :: from <= k < |s| ==> s[k] != c
    ensures r >= 0 ==> forall k :: from <= k < r ==> s[k] != c
    decreases |s| - from
  {
    if from >= |s| then -1 else if s[from] == c then from else IndexOf(s, c, from + 1)
  }

  /** `s.LastIndexOf(c)`: the last position holding `c`, or -1. */
  function LastIndexOf(s: string, c: char): (r: int)
    ensures r == -1 || (0 <= r < |s| && s[r] == c)
    ensures r == -1 ==> forall k :: 0 <= k < |s| ==> s[k] != c
    ensures r >= 0 ==> forall k :: r < k < |s| ==> s[k] != c
  {
    if s == [] then -1
    else if s[|s| - 1] == c then |s| - 1
    else LastIndexOf(s[..|s| - 1], c)
  }

  /** The white space `int.TryParse` skips around a number: U+0009 to U+000D and the space. */
  predicate IsNumberWhite(c: char)
  {
    c == ' ' || '\t' <= c <= '\r'
  }

  /** Removes leading and trailing number white space. */
  function TrimNumberWhite(s: string): (r: string)
    ensures |r| <= |s|
    ensures |r| > 0 ==> !IsNumberWhite(r[0]) && !IsNumberWhite(r[|r| - 1])
    ensures (|s| == 0 || (!IsNumberWhite(s[0]) && !IsNumberWhite(s[|s| - 1]))) ==> r == s
  {
    if s == [] then s
    else if IsNumberWhite(s[0]) then TrimNumberWhite(s[1..])
    else if IsNumberWhite(s[|s| - 1]) then TrimNumberWhite(s[..|s| - 1])
    else s
  }

  /**
   * `int.TryParse(s, NumberStyles.Integer, CultureInfo.InvariantCulture, out v)`:
   * optional surrounding white space, an optional sign, at least one decimal
   * digit, and a value within the range of `int`.
   */
  function ParseInt32(s: string): (r: Option<int>)
    ensures r.Some? ==> INT32_MIN <= r.value <= INT32_MAX
  {
    SignedDecimal(TrimNumberWhite(s))
  }

  /** An optional sign and at least one decimal digit, within the range of `int`. */
  function SignedDecimal(t: string): (r: Option<int>)
    ensures r.Some? ==> INT32_MIN <= r.value <= INT32_MAX
  {
    if |t| == 0 then None
    else
      var digits := if t[0] == '-' || t[0] == '+' then t[1..] else t;
      if |digits| == 0 || !AllDigits(digits) then None
      else
        var magnitude: int := DecimalValue(digits);
        var v := if t[0] == '-' then -magnitude else magnitude;
        if INT32_MIN <= v <= INT32_MAX then Some(v) else None
  }

  /** Unsigned decimal digits read as their value, when it fits. */
  lemma SignedDecimalOfDigits(d: string)
    requires |d| >= 1 && AllDigits(d) && DecimalValue(d) <= INT32_MAX
    ensures SignedDecimal(d) == Some(DecimalValue(d))
  {
    assert IsDigit(d[0]);
  }

  /** A minus sign and decimal digits read as the negated value, when it fits. */
  lemma SignedDecimalOfNegative(d: string)
    requires |d| >= 1 && AllDigits(d) && DecimalValue(d) <= TWO_31
    ensures SignedDecimal("-" + d) == Some(-(DecimalValue(d) as int))
  {
    assert ("-" + d)[1..] == d;
  }

  /** Every `int` rendered in decimal parses back to itself. */
  lemma ParseInt32OfDecimal(i: int)
    requires INT32_MIN <= i <= INT32_MAX
    ensures ParseInt32(IntToDecimal(i)) == Some(i)
  {
    var s := IntToDecimal(i);
    var d := if i < 0 then NatToDecimal(-i) else NatToDecimal(i);
    assert AllDigits(d) && IsDigit(d[|d| - 1]);
    assert s[|s| - 1] == d[|d| - 1];
    assert s[0] == '-' || IsDigit(s[0]);
    assert TrimNumberWhite(s) == s;
    if i < 0 {
      DecimalRoundTrip(-i);
      SignedDecimalOfNegative(d);
    } else {
      DecimalRoundTrip(i);
      SignedDecimalOfDigits(d);
    }
  }
}
