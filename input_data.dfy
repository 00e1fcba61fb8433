/**
 * `InputDataParser`: turns the text pasted by the user into the bytes to
 * decode. Hexadecimal (base16, section 8 of RFC 4648) is tried first, with
 * white space and "0x" / "\x" prefixes allowed anywhere; then base64 in the
 * standard or the URL-safe alphabet (sections 4 and 5 of RFC 4648), with the
 * padding made up. `LooksLikeText` guesses whether bytes are text.
 */
module InputData {
  import opened Numeric
  import opened Results
  import opened Text

  /**
   * `char.IsWhiteSpace`: the characters of the Unicode categories Zs, Zl and
   * Zp, and the controls U+0009 to U+000D and U+0085.
   */
  const WHITE_SPACE: set<char> := {
    '\t', '\n', '\U{B}', '\U{C}', '\r', ' ', '\U{85}', '\U{A0}', '\U{1680}',
    '\U{2000}', '\U{2001}', '\U{2002}', '\U{2003}', '\U{2004}', '\U{2005}', '\U{2006}',
    '\U{2007}', '\U{2008}', '\U{2009}', '\U{200A}', '\U{2028}', '\U{2029}', '\U{202F}',
    '\U{205F}', '\U{3000}'
  }

  predicate IsWhiteSpace(c: char)
  {
    c in WHITE_SPACE
  }

  /** `string.IsNullOrWhiteSpace` (a null string is modelled as the empty one). */
  predicate IsBlank(text: string)
  {
    forall k :: 0 <= k < |text| ==> IsWhiteSpace(text[k])
  }

  // ---------------------------------------------------------------------------
  // Hexadecimal
  // ---------------------------------------------------------------------------

  /** `Uri.IsHexDigit`: an ASCII hexadecimal digit of either case. */
  predicate IsHexDigit(c: char)
  {
    '0' <= c <= '9' || 'a' <= c <= 'f' || 'A' <= c <= 'F'
  }

  function HexValue(c: char): (v: nat)
    requires IsHexDigit(c)
    ensures v < 16
  {
    if c <= '9' then c as int - '0' as int
    else if 'a' <= c then c as int - 'a' as int + 10
    else c as int - 'A' as int + 10
  }

  /** "0x", "0X", "\x" or "\X" at the start of `text`: skipped by the hexadecimal reader. */
  predicate StartsWithPrefix(text: string)
  {
    |text| > 1 && (text[0] == '\\' || text[0] == '0') && (text[1] == 'x' || text[1] == 'X')
  }

  /** The digits `r` preceded by `prefix`; still none when `r` is none. */
  function Prepend(prefix: string, r: Option<string>): Option<string>
  {
    if r.None? then None else Some(prefix + r.value)
  }

  /**
   * The hexadecimal digits of `text` in order, white space and prefixes
   * skipped; none when some other character is met.
   */
  function HexDigits(text: string): (r: Option<string>)
    decreases |text|
  {
    if text == "" then Some("")
    else if IsWhiteSpace(text[0]) then HexDigits(text[1..])
    else if StartsWithPrefix(text) then HexDigits(text[2..])
    else if IsHexDigit(text[0]) then Prepend([text[0]], HexDigits(text[1..]))
    else None
  }

  predicate AllHex(s: string)
  {
    forall k :: 0 <= k < |s| ==> IsHexDigit(s[k])
  }

  /** What the reader collects are hexadecimal digits. */
  lemma {:induction false} HexDigitsAreHex(text: string)
    ensures HexDigits(text).Some? ==> AllHex(HexDigits(text).value)
    decreases |text|
  {
    if text != "" {
      HexDigitsAreHex(text[1..]);
      if |text| > 1 {
        HexDigitsAreHex(text[2..]);
      }
    }
  }

  /** `Convert.FromHexString`: each pair of digits is one byte, the first digit of the pair being the high nibble. */
  function FromHexString(digits: string): (bs: seq<byte>)
    requires |digits| % 2 == 0 && AllHex(digits)
    ensures |bs| == |digits| / 2
    decreases |digits|
  {
    if digits == [] then []
    else [(16 * HexValue(digits[0]) + HexValue(digits[1])) as byte] + FromHexString(digits[2..])
  }

  /**
   * The bytes `TryParseHex` yields, or none when it fails: empty for blank
   * text or text without digits, none for an odd number of digits.
   */
  function HexInput(text: string): Option<seq<byte>>
  {
    if IsBlank(text) then Some([])
    else
      match HexDigits(text)
      case None => None
      case Some(digits) =>
        if |digits| == 0 then Some([])
        else if |digits| % 2 != 0 then None
        else HexDigitsAreHex(text); Some(FromHexString(digits))
  }

  /** `TryParseHex`: collects the digits in one pass, then converts them in pairs. */
  method TryParseHex(text: string) returns (r: Option<seq<byte>>)
    ensures r == HexInput(text)
  {
    if IsBlank(text) {
      return Some([]);
    }
    var candidate := "";
    var i := 0;
    assert text[0..] == text;
    PrependEmpty(HexDigits(text));
    while i < |text|
      invariant i <= |text|
      invariant HexDigits(text) == Prepend(candidate, HexDigits(text[i..]))
      decreases |text| - i
    {
      var c := text[i];
      HexStep(text, i);
      if IsWhiteSpace(c) {
        i := i + 1;
        continue;
      }
      if c == '\\' && i + 1 < |text| && (text[i + 1] == 'x' || text[i + 1] == 'X') {
        i := i + 2;
        continue;
      }
      if c == '0' && i + 1 < |text| && (text[i + 1] == 'x' || text[i + 1] == 'X') {
        i := i + 2;
        continue;
      }
      if IsHexDigit(c) {
        PrependTwice(candidate, [c], HexDigits(text[i + 1..]));
        candidate := candidate + [c];
        i := i + 1;
        continue;
      }
      return None;
    }
    assert text[i..] == "";
    assert candidate + "" == candidate;
    assert HexDigits(text) == Some(candidate);
    if |candidate| == 0 {
      return Some([]);
    }
    if |candidate| % 2 != 0 {
      return None;
    }
    HexDigitsAreHex(text);
    r := Some(FromHexString(candidate));
  }

  /** Helper: one step of the reader at position `i`, as the loop of `TryParseHex` takes it. */
  lemma HexStep(text: string, i: nat)
    requires i < |text|
    ensures IsWhiteSpace(text[i]) ==> HexDigits(text[i..]) == HexDigits(text[i + 1..])
    ensures !IsWhiteSpace(text[i]) && (text[i] == '\\' || text[i] == '0') && i + 1 < |text| && (text[i + 1] == 'x' || text[i + 1] == 'X')
            ==> HexDigits(text[i..]) == HexDigits(text[i + 2..])
    ensures !IsWhiteSpace(text[i]) && !((text[i] == '\\' || text[i] == '0') && i + 1 < |text| && (text[i + 1] == 'x' || text[i + 1] == 'X'))
            ==> HexDigits(text[i..]) == (if IsHexDigit(text[i]) then Prepend([text[i]], HexDigits(text[i + 1..])) else None)
  {
    var s := text[i..];
    assert s[1..] == text[i + 1..];
    if i + 1 < |text| {
      assert s[2..] == text[i + 2..];
    }
  }

  lemma PrependEmpty(r: Option<string>)
    ensures Prepend("", r) == r
  {
    if r.Some? {
      assert "" + r.value == r.value;
    }
  }

  lemma PrependTwice(a: string, b: string, r: Option<string>)
    ensures Prepend(a + b, r) == Prepend(a, Prepend(b, r))
  {
    if r.Some? {
      assert a + b + r.value == a + (b + r.value);
    }
  }

  /** The bytes come from the digits in pairs, high nibble first. */
  lemma {:induction false} FromHexStringAt(digits: string, k: nat)
    requires |digits| % 2 == 0 && AllHex(digits) && k < |digits| / 2
    ensures FromHexString(digits)[k] as int == 16 * HexValue(digits[2 * k]) + HexValue(digits[2 * k + 1])
    decreases k
  {
    if k > 0 {
      FromHexStringAt(digits[2..], k - 1);
    }
  }

  /** Blank text holds no digits. */
  lemma {:induction false} BlankHasNoDigits(text: string)
    requires IsBlank(text)
    ensures HexDigits(text) == Some("")
    decreases |text|
  {
    if text != "" {
      BlankHasNoDigits(text[1..]);
    }
  }

  /**
   * Hexadecimal input succeeds exactly when the reader meets no stray
   * character and collects an even number of digits, and then yields half as
   * many bytes as digits.
   */
  lemma HexInputSucceeds(text: string)
    ensures HexInput(text).Some? <==> HexDigits(text).Some? && |HexDigits(text).value| % 2 == 0
    ensures HexInput(text).Some? ==> 2 * |HexInput(text).value| == |HexDigits(text).value|
  {
    if IsBlank(text) {
      BlankHasNoDigits(text);
    }
  }

  /** Helper: text whose digits are an even number converts them; blank text has none. */
  lemma HexInputFromDigits(text: string, digits: string)
    requires HexDigits(text) == Some(digits) && |digits| % 2 == 0
    ensures AllHex(digits) && HexInput(text) == Some(FromHexString(digits))
  {
    HexDigitsAreHex(text);
    if IsBlank(text) {
      BlankHasNoDigits(text);
    }
  }

  /** Helper: leading white space is skipped. */
  lemma WhiteSpaceSkipped(t: string)
    requires t != "" && IsWhiteSpace(t[0])
    ensures HexDigits(t) == HexDigits(t[1..])
  {
  }

  /** Helper: a leading prefix is skipped. */
  lemma PrefixSkipped(t: string)
    requires StartsWithPrefix(t)
    ensures HexDigits(t) == HexDigits(t[2..])
  {
    assert !IsWhiteSpace(t[0]);
  }

  /**
   * The character at `k` is one the reader cannot skip: an 'x' or 'X' that
   * does not follow a '0' or '\\', a '\\' that no 'x' or 'X' follows, or any
   * other character that is neither white space nor a hexadecimal digit.
   */
  predicate IsStrayAt(text: string, k: nat)
    requires k < |text|
  {
    var c := text[k];
    if c == 'x' || c == 'X' then k == 0 || (text[k - 1] != '0' && text[k - 1] != '\\')
    else if c == '\\' then k + 1 == |text| || (text[k + 1] != 'x' && text[k + 1] != 'X')
    else !IsWhiteSpace(c) && !IsHexDigit(c)
  }

  /** Helper: a stray character stays stray when the text loses its first `d` characters. */
  lemma StrayInSuffix(text: string, k: nat, d: nat)
    requires d <= k < |text| && IsStrayAt(text, k)
    ensures IsStrayAt(text[d..], k - d)
  {
    assert text[d..][k - d] == text[k];
    if k - d > 0 {
      assert text[d..][k - d - 1] == text[k - 1];
    }
    if k + 1 < |text| {
      assert text[d..][k - d + 1] == text[k + 1];
    }
  }

  /** A stray character anywhere makes the hexadecimal reader fail. */
  lemma {:induction false} StrayCharacterFails(text: string, k: nat)
    requires k < |text| && IsStrayAt(text, k)
    ensures HexDigits(text) == None && HexInput(text) == None
    decreases k
  {
    assert !IsWhiteSpace(text[k]);
    if k > 0 {
      if IsWhiteSpace(text[0]) {
        StrayInSuffix(text, k, 1);
        StrayCharacterFails(text[1..], k - 1);
      } else if StartsWithPrefix(text) {
        assert k != 1;
        StrayInSuffix(text, k, 2);
        StrayCharacterFails(text[2..], k - 2);
      } else if IsHexDigit(text[0]) {
        StrayInSuffix(text, k, 1);
        StrayCharacterFails(text[1..], k - 1);
      }
    }
  }

  /** A lone 'x', an 'x' after a space and a '\\' before a digit are all stray. */
  lemma StrayExamples()
    ensures HexInput("x") == None && HexInput("AB x") == None && HexInput("\\A") == None
  {
    StrayCharacterFails("x", 0);
    StrayCharacterFails("AB x", 3);
    StrayCharacterFails("\\A", 0);
  }

  /** The reader fails only at a stray character: with none, it collects the digits. */
  lemma {:induction false} FailsOnlyAtStray(text: string)
    requires HexDigits(text) == None
    ensures exists k :: 0 <= k < |text| && IsStrayAt(text, k)
    decreases |text|
  {
    if IsWhiteSpace(text[0]) {
      FailsOnlyAtStray(text[1..]);
      var j :| 0 <= j < |text| - 1 && IsStrayAt(text[1..], j);
      StrayInWhole(text, 1, j);
    } else if StartsWithPrefix(text) {
      FailsOnlyAtStray(text[2..]);
      var j :| 0 <= j < |text| - 2 && IsStrayAt(text[2..], j);
      StrayInWhole(text, 2, j);
    } else if IsHexDigit(text[0]) {
      FailsOnlyAtStray(text[1..]);
      var j :| 0 <= j < |text| - 1 && IsStrayAt(text[1..], j);
      StrayInWhole(text, 1, j);
    } else {
      assert IsStrayAt(text, 0);
    }
  }

  /**
   * Helper: a stray character of the rest after a skipped first `d` characters
   * is stray in the whole text, unless it is an 'x' that the last skipped
   * character turns into a prefix.
   */
  lemma StrayInWhole(text: string, d: nat, j: nat)
    requires 0 < d <= |text| && j < |text| - d && IsStrayAt(text[d..], j)
    requires j == 0 && (text[d] == 'x' || text[d] == 'X') ==> text[d - 1] != '0' && text[d - 1] != '\\'
    ensures IsStrayAt(text, d + j)
  {
    assert text[d..][j] == text[d + j];
    if j > 0 {
      assert text[d..][j - 1] == text[d + j - 1];
    }
    if d + j + 1 < |text| {
      assert text[d..][j + 1] == text[d + j + 1];
    }
  }

  /** The digits of bytes written without separators: two upper-case digits per byte. */
  function HexConcat(bs: seq<byte>): (s: string)
    ensures |s| == 2 * |bs|
  {
    if bs == [] then "" else ByteHex(bs[0]) + HexConcat(bs[1..])
  }

  lemma HexDigitIsHex(d: nat)
    requires d < 16
    ensures IsHexDigit(HexDigit(d)) && HexValue(HexDigit(d)) == d
  {
  }

  /** Helper: the two digits of a byte are read back as that byte. */
  lemma ByteHexValue(b: byte)
    ensures AllHex(ByteHex(b))
    ensures 16 * HexValue(ByteHex(b)[0]) + HexValue(ByteHex(b)[1]) == b as int
  {
    HexDigitIsHex(b as int / 16);
    HexDigitIsHex(b as int % 16);
  }

  /** Converting the digits written for some bytes gives those bytes back. */
  lemma {:induction false} FromHexOfConcat(bs: seq<byte>)
    ensures AllHex(HexConcat(bs))
    ensures FromHexString(HexConcat(bs)) == bs
  {
    if bs != [] {
      var t := HexConcat(bs[1..]);
      FromHexOfConcat(bs[1..]);
      assert HexConcat(bs) == ByteHex(bs[0]) + t;
      ByteThenDigits(bs[0], t);
      assert [bs[0]] + bs[1..] == bs;
    }
  }

  /** Helper: the digits of a byte in front of an even run of digits convert to that byte in front. */
  lemma ByteThenDigits(b: byte, t: string)
    requires |t| % 2 == 0 && AllHex(t)
    ensures AllHex(ByteHex(b) + t)
    ensures FromHexString(ByteHex(b) + t) == [b] + FromHexString(t)
  {
    var h := ByteHex(b);
    ByteHexValue(b);
    PairThenDigits(h, t);
    assert (16 * HexValue(h[0]) + HexValue(h[1])) as byte == b;
  }

  /** Helper: two digits in front of an even run of digits convert to one more byte in front. */
  lemma PairThenDigits(h: string, t: string)
    requires |h| == 2 && AllHex(h) && |t| % 2 == 0 && AllHex(t)
    ensures AllHex(h + t)
    ensures FromHexString(h + t) == [(16 * HexValue(h[0]) + HexValue(h[1])) as byte] + FromHexString(t)
  {
    var s := h + t;
    assert forall k :: 0 <= k < |s| ==> s[k] == (if k < 2 then h[k] else t[k - 2]);
    assert s[2..] == t;
  }

  /** Helper: a hexadecimal digit is neither white space nor the "x" of a prefix. */
  lemma HexDigitIsPlain(c: char)
    requires IsHexDigit(c)
    ensures !IsWhiteSpace(c) && c != 'x' && c != 'X'
  {
  }

  /** Helper: white space is not the "x" of a prefix. */
  lemma WhiteSpaceNotX(c: char)
    requires IsWhiteSpace(c)
    ensures c != 'x' && c != 'X'
  {
  }

  /** Helper: a hexadecimal digit not followed by "x" is taken by the reader. */
  lemma DigitTaken(s: string)
    requires s != "" && IsHexDigit(s[0])
    requires |s| == 1 || (s[1] != 'x' && s[1] != 'X')
    ensures HexDigits(s) == Prepend([s[0]], HexDigits(s[1..]))
  {
    HexDigitIsPlain(s[0]);
  }

  /** Helper: the reader takes two digits, then reads on after them, unless an "x" follows. */
  lemma TwoDigits(hi: char, lo: char, rest: string)
    requires IsHexDigit(hi) && IsHexDigit(lo)
    requires rest == "" || (rest[0] != 'x' && rest[0] != 'X')
    ensures HexDigits([hi, lo] + rest) == Prepend([hi, lo], HexDigits(rest))
  {
    var t := [hi, lo] + rest;
    var u := [lo] + rest;
    assert t[0] == hi && t[1..] == u;
    assert u[0] == lo && u[1..] == rest;
    HexDigitIsPlain(lo);
    DigitTaken(u);
    DigitTaken(t);
    var r := HexDigits(rest);
    assert HexDigits(t) == Prepend([hi], Prepend([lo], r));
    PrependTwice([hi], [lo], r);
    assert [hi] + [lo] == [hi, lo];
  }

  /** Helper: the reader takes the two digits of a byte, then reads on after them. */
  lemma ByteHexDigits(b: byte, rest: string)
    requires rest == "" || (rest[0] != 'x' && rest[0] != 'X')
    ensures HexDigits(ByteHex(b) + rest) == Prepend(ByteHex(b), HexDigits(rest))
  {
    ByteHexValue(b);
    var h := ByteHex(b);
    assert h == [h[0], h[1]];
    TwoDigits(h[0], h[1], rest);
  }

  /** Bytes written as digit pairs without separators are read back as those digits. */
  lemma {:induction false} ConcatDigits(bs: seq<byte>)
    ensures HexDigits(HexConcat(bs)) == Some(HexConcat(bs))
  {
    if bs != [] {
      var rest := HexConcat(bs[1..]);
      ConcatDigits(bs[1..]);
      if rest != "" {
        FromHexOfConcat(bs[1..]);
        assert IsHexDigit(rest[0]);
      }
      ByteHexDigits(bs[0], rest);
    }
  }

  /** Round trip without separators: the digits of some bytes parse back as those bytes. */
  lemma ConcatRoundTrip(bs: seq<byte>)
    ensures HexInput(HexConcat(bs)) == Some(bs)
  {
    ConcatDigits(bs);
    FromHexOfConcat(bs);
    HexInputFromDigits(HexConcat(bs), HexConcat(bs));
  }

  /** Bytes written as digit pairs separated by white space are read back as their digits. */
  lemma {:induction false} JoinedDigits(bs: seq<byte>, sep: char)
    requires IsWhiteSpace(sep)
    ensures HexDigits(HexJoined(bs, sep)) == Some(HexConcat(bs))
  {
    if |bs| == 1 {
      SingleByteDigits(bs[0], sep);
      assert bs == [bs[0]];
    } else if |bs| > 1 {
      JoinedDigits(bs[1..], sep);
      JoinedStep(bs, sep);
    }
  }

  /** Helper: one byte alone is written as its two digits, which are read back. */
  lemma SingleByteDigits(b: byte, sep: char)
    ensures HexDigits(HexJoined([b], sep)) == Some(HexConcat([b]))
  {
    ByteHexDigits(b, "");
    assert ByteHex(b) + "" == ByteHex(b);
    assert [b][1..] == [];
  }

  /** Helper: the first byte's digits, then the separator, then the other bytes. */
  lemma JoinedStep(bs: seq<byte>, sep: char)
    requires |bs| > 1 && IsWhiteSpace(sep)
    ensures HexDigits(HexJoined(bs, sep)) == Prepend(ByteHex(bs[0]), HexDigits(HexJoined(bs[1..], sep)))
    ensures HexConcat(bs) == ByteHex(bs[0]) + HexConcat(bs[1..])
  {
    var rest := HexJoined(bs[1..], sep);
    SeparatedByte(bs[0], sep, rest);
    assert HexJoined(bs, sep) == ByteHex(bs[0]) + ([sep] + rest);
  }

  /** Helper: the digits of a byte, then a white-space separator, then more text. */
  lemma SeparatedByte(b: byte, sep: char, rest: string)
    requires IsWhiteSpace(sep)
    ensures HexDigits(ByteHex(b) + ([sep] + rest)) == Prepend(ByteHex(b), HexDigits(rest))
  {
    var spaced := [sep] + rest;
    assert spaced[0] == sep && spaced[1..] == rest;
    WhiteSpaceSkipped(spaced);
    WhiteSpaceNotX(sep);
    ByteHexDigits(b, spaced);
  }

  /**
   * Round trip with the raw preview: bytes written as two upper-case digits
   * each, separated by white space (a space in the preview), parse back as
   * the same bytes.
   */
  lemma HexRoundTrip(bs: seq<byte>, sep: char)
    requires IsWhiteSpace(sep)
    ensures HexInput(HexJoined(bs, sep)) == Some(bs)
  {
    JoinedDigits(bs, sep);
    FromHexOfConcat(bs);
    HexInputFromDigits(HexJoined(bs, sep), HexConcat(bs));
  }

  /** `BitConverter.ToString`'s dashes are not accepted: two or more dash-joined bytes are not hexadecimal input. */
  lemma DashJoinedFails(bs: seq<byte>)
    requires |bs| >= 2
    ensures HexInput(HexJoined(bs, '-')) == None
  {
    DashAfterByte(ByteHex(bs[0]), HexJoined(bs[1..], '-'));
  }

  /** Helper: a dash after two characters is a stray character. */
  lemma DashAfterByte(h: string, rest: string)
    requires |h| == 2
    ensures HexInput(h + ['-'] + rest) == None
  {
    var text := h + ['-'] + rest;
    assert text[2] == '-';
    StrayCharacterFails(text, 2);
  }

  /** Bytes written in the escaped form "\xAA\xBB...". */
  function Escaped(bs: seq<byte>): string
  {
    if bs == [] then "" else "\\x" + ByteHex(bs[0]) + Escaped(bs[1..])
  }

  /** Bytes written in the escaped form are read back as their digits. */
  lemma {:induction false} EscapedDigits(bs: seq<byte>)
    ensures HexDigits(Escaped(bs)) == Some(HexConcat(bs))
  {
    if bs != [] {
      EscapedDigits(bs[1..]);
      EscapedStep(bs);
    }
  }

  /** Helper: "\x" and the first byte's digits, then the other bytes. */
  lemma EscapedStep(bs: seq<byte>)
    requires bs != []
    ensures HexDigits(Escaped(bs)) == Prepend(ByteHex(bs[0]), HexDigits(Escaped(bs[1..])))
    ensures HexConcat(bs) == ByteHex(bs[0]) + HexConcat(bs[1..])
  {
    var rest := Escaped(bs[1..]);
    var t := ByteHex(bs[0]) + rest;
    if rest != "" {
      assert rest[0] == '\\';
    }
    ByteHexDigits(bs[0], rest);
    assert Escaped(bs) == "\\x" + t;
    assert ("\\x" + t)[2..] == t;
    PrefixSkipped("\\x" + t);
  }

  /** Round trip with the escaped form: "\xAA\xBB..." parses back as the bytes written. */
  lemma EscapedRoundTrip(bs: seq<byte>)
    ensures HexInput(Escaped(bs)) == Some(bs)
  {
    EscapedDigits(bs);
    FromHexOfConcat(bs);
    HexInputFromDigits(Escaped(bs), HexConcat(bs));
  }

  // ---------------------------------------------------------------------------
  // Base64
  // ---------------------------------------------------------------------------

  /** The text with its white space removed. */
  function Stripped(text: string): string
  {
    if text == "" then ""
    else Stripped(text[..|text| - 1]) + (if IsWhiteSpace(text[|text| - 1]) then "" else [text[|text| - 1]])
  }

  /** Stripping leaves no white space, and leaves nothing exactly when the text is blank. */
  lemma {:induction false} StrippedFacts(text: string)
    ensures forall k :: 0 <= k < |Stripped(text)| ==> !IsWhiteSpace(Stripped(text)[k])
    ensures Stripped(text) == "" <==> IsBlank(text)
  {
    if text != "" {
      var init := text[..|text| - 1];
      StrippedFacts(init);
      assert forall k :: 0 <= k < |init| ==> init[k] == text[k];
    }
  }

  /** The URL-safe alphabet mapped to the standard one: "-" to "+", "_" to "/". */
  function StandardAlphabet(s: string): string
  {
    ReplaceChar(ReplaceChar(s, '-', '+'), '_', '/')
  }

  /** `s.PadRight(...)` with "=" up to the next multiple of four. */
  function Padded(s: string): string
  {
    if |s| % 4 == 0 then s else s + seq(4 - |s| % 4, _ => '=')
  }

  /** The string handed to `Convert.FromBase64String`. */
  function Base64Normalized(candidate: string): string
  {
    Padded(StandardAlphabet(candidate))
  }

  /**
   * The bytes `TryParseBase64` yields, or none when it fails: empty for blank
   * text; else what the decoder `fromBase64` makes of the normalised string.
   */
  function Base64Input(text: string, fromBase64: string -> Option<seq<byte>>): Option<seq<byte>>
  {
    if IsBlank(text) then Some([])
    else
      var candidate := Stripped(text);
      if candidate == "" then Some([]) else fromBase64(Base64Normalized(candidate))
  }

  /** `TryParseBase64`: removes white space in one pass, then normalises and decodes. */
  method TryParseBase64(text: string, fromBase64: string -> Option<seq<byte>>) returns (r: Option<seq<byte>>)
    ensures r == Base64Input(text, fromBase64)
  {
    if IsBlank(text) {
      return Some([]);
    }
    var noWhitespace := "";
    var i := 0;
    while i < |text|
      invariant i <= |text|
      invariant noWhitespace == Stripped(text[..i])
    {
      assert text[..i + 1][..i] == text[..i];
      if !IsWhiteSpace(text[i]) {
        noWhitespace := noWhitespace + [text[i]];
      }
      i := i + 1;
    }
    assert text[..i] == text;
    if |noWhitespace| == 0 {
      return Some([]);
    }
    var normalized := StandardAlphabet(noWhitespace);
    var padding := |normalized| % 4;
    if padding != 0 {
      normalized := normalized + seq(4 - padding, _ => '=');
    }
    r := fromBase64(normalized);
  }

  /**
   * The normalised string is the candidate in the standard alphabet followed
   * by fewer than four "=", making the length a multiple of four, and holds no
   * character of the URL-safe alphabet.
   */
  lemma NormalizedShape(candidate: string)
    ensures var n := Base64Normalized(candidate);
            && |n| % 4 == 0 && |candidate| <= |n| < |candidate| + 4
            && n[..|candidate|] == StandardAlphabet(candidate)
            && (forall k :: |candidate| <= k < |n| ==> n[k] == '=')
            && (forall k :: 0 <= k < |n| ==> n[k] != '-' && n[k] != '_')
  {
  }

  /** Standard base64 with its padding, free of white space, passes unchanged. */
  lemma StandardUnchanged(s: string)
    requires |s| % 4 == 0
    requires forall k :: 0 <= k < |s| ==> s[k] != '-' && s[k] != '_'
    ensures Base64Normalized(s) == s
  {
  }

  /** The URL-safe twin of a string: "+" written as "-" and "/" as "_". */
  function UrlSafe(s: string): string
  {
    seq(|s|, k requires 0 <= k < |s| => UrlSafeChar(s[k]))
  }

  /** The URL-safe twin of one character. */
  function UrlSafeChar(c: char): char
  {
    if c == '+' then '-' else if c == '/' then '_' else c
  }

  /** Helper: the twin of a concatenation is the concatenation of the twins. */
  lemma UrlSafeAppend(a: string, b: string)
    ensures UrlSafe(a + b) == UrlSafe(a) + UrlSafe(b)
  {
    assert forall k :: 0 <= k < |a + b| ==> UrlSafe(a + b)[k] == (UrlSafe(a) + UrlSafe(b))[k];
  }

  /** A string and its URL-safe twin normalise identically. */
  lemma UrlSafeNormalizesIdentically(s: string)
    ensures Base64Normalized(UrlSafe(s)) == Base64Normalized(s)
  {
    assert StandardAlphabet(UrlSafe(s)) == StandardAlphabet(s);
  }

  /** Helper: stripping white space commutes with writing the URL-safe twin. */
  lemma {:induction false} StrippedUrlSafe(text: string)
    ensures Stripped(UrlSafe(text)) == UrlSafe(Stripped(text))
  {
    if text != "" {
      var init := text[..|text| - 1];
      var c := text[|text| - 1];
      var kept := if IsWhiteSpace(c) then "" else [c];
      StrippedUrlSafe(init);
      assert text == init + [c];
      UrlSafeAppend(init, [c]);
      UrlSafeAppend(Stripped(init), kept);
      UrlSafeKeepsWhiteSpace(c);
      StrippedSnoc(UrlSafe(init), UrlSafeChar(c));
      assert UrlSafe([c]) == [UrlSafeChar(c)];
      assert UrlSafe(kept) == if IsWhiteSpace(c) then "" else [UrlSafeChar(c)];
    }
  }

  /** Helper: stripping text one character longer. */
  lemma StrippedSnoc(init: string, c: char)
    ensures Stripped(init + [c]) == Stripped(init) + if IsWhiteSpace(c) then "" else [c]
  {
    assert (init + [c])[..|init|] == init;
  }

  /** Helper: the twin of a character is white space exactly when the character is. */
  lemma UrlSafeKeepsWhiteSpace(c: char)
    ensures IsWhiteSpace(UrlSafeChar(c)) == IsWhiteSpace(c)
  {
  }

  /** Whatever the decoder, base64 input and its URL-safe twin yield the same bytes. */
  lemma UrlSafeDecodesIdentically(text: string, fromBase64: string -> Option<seq<byte>>)
    ensures Base64Input(UrlSafe(text), fromBase64) == Base64Input(text, fromBase64)
  {
    StrippedUrlSafe(text);
    StrippedFacts(text);
    StrippedFacts(UrlSafe(text));
    UrlSafeNormalizesIdentically(Stripped(text));
  }

  // ---------------------------------------------------------------------------
  // Parse
  // ---------------------------------------------------------------------------

  const UNRECOGNIZED_FORMAT := "无法识别输入格式：请提供十六进制、\\xAA 或 Base64 编码的 Protobuf 数据。"

  /** The outcome of `Parse`: the hexadecimal bytes if that succeeds, else the base64 bytes, else an error. */
  function InputBytes(text: string, fromBase64: string -> Option<seq<byte>>): Result<seq<byte>, string>
  {
    match HexInput(text)
    case Some(bs) => Ok(bs)
    case None =>
      match Base64Input(text, fromBase64)
      case Some(bs) => Ok(bs)
      case None => Err(UNRECOGNIZED_FORMAT)
  }

  /** `Parse`: hexadecimal first, then base64; the exception becomes an error value. */
  method Parse(text: string, fromBase64: string -> Option<seq<byte>>) returns (r: Result<seq<byte>, string>)
    ensures r == InputBytes(text, fromBase64)
  {
    var hex := TryParseHex(text);
    if hex.Some? {
      return Ok(hex.value);
    }
    var base64 := TryParseBase64(text, fromBase64);
    if base64.Some? {
      return Ok(base64.value);
    }
    return Err(UNRECOGNIZED_FORMAT);
  }

  /** Blank text parses as no bytes, whatever the decoder. */
  lemma BlankParsesEmpty(text: string, fromBase64: string -> Option<seq<byte>>)
    requires IsBlank(text)
    ensures InputBytes(text, fromBase64) == Ok([])
  {
  }

  /** The raw preview of some bytes, pasted back, parses as those bytes whatever the decoder. */
  lemma PreviewParsesBack(bs: seq<byte>, fromBase64: string -> Option<seq<byte>>)
    ensures InputBytes(HexJoined(bs, ' '), fromBase64) == Ok(bs)
  {
    HexRoundTrip(bs, ' ');
  }

  /** "0xFF 0xAA" parses as the bytes FF AA. */
  lemma PrefixedExample(fromBase64: string -> Option<seq<byte>>)
    ensures InputBytes("0xFF 0xAA", fromBase64) == Ok([0xFF, 0xAA])
  {
    PrefixedBytes();
  }

  /** Helper: the bytes of the hexadecimal reading of "0xFF 0xAA". */
  lemma PrefixedBytes()
    ensures HexInput("0xFF 0xAA") == Some([0xFF, 0xAA])
  {
    var digits := PrefixedDigits();
    HexInputFromDigits("0xFF 0xAA", digits);
    var bs := FromHexString(digits);
    FromHexStringAt(digits, 0);
    FromHexStringAt(digits, 1);
    assert digits[0] == 'F' && digits[1] == 'F' && digits[2] == 'A' && digits[3] == 'A';
    assert bs[0] == 0xFF && bs[1] == 0xAA;
    assert bs == [0xFF, 0xAA];
  }

  /** Helper: the digits read from "0xFF 0xAA". */
  lemma PrefixedDigits() returns (digits: string)
    ensures digits == "FFAA" && HexDigits("0xFF 0xAA") == Some(digits)
  {
    digits := "FFAA";
    var empty := "";
    TwoDigits('A', 'A', empty);
    assert ['A', 'A'] + empty == "AA";
    assert "AA" + empty == "AA";
    PrefixSkipped("0xAA");
    assert "0xAA"[2..] == "AA";
    WhiteSpaceSkipped(" 0xAA");
    assert " 0xAA"[1..] == "0xAA";
    TwoDigits('F', 'F', " 0xAA");
    assert ['F', 'F'] + " 0xAA" == "FF 0xAA";
    assert "FF" + "AA" == digits;
    PrefixSkipped("0xFF 0xAA");
    assert "0xFF 0xAA"[2..] == "FF 0xAA";
  }

  /** Text that is valid both ways is read as hexadecimal: "AAAA" is AA AA, not the base64 bytes 00 00 00. */
  lemma HexWinsOverBase64(fromBase64: string -> Option<seq<byte>>)
    ensures InputBytes("AAAA", fromBase64) == Ok([0xAA, 0xAA])
  {
    var bs: seq<byte> := [0xAA, 0xAA];
    ConcatRoundTrip(bs);
    assert ByteHex(0xAA) == "AA";
    assert bs[1..][1..] == [];
    assert HexConcat(bs) == "AAAA";
  }

  // ---------------------------------------------------------------------------
  // LooksLikeText
  // ---------------------------------------------------------------------------

  /** Only the first 1024 bytes are looked at. */
  const SCAN_LIMIT: nat := 1024

  /** Printable ASCII, or a line feed, carriage return or tab. */
  predicate IsPrintable(b: byte)
  {
    32 <= b <= 126 || b == 10 || b == 13 || b == 9
  }

  function PrintableCount(bs: seq<byte>): (n: nat)
    ensures n <= |bs|
  {
    if bs == [] then 0 else PrintableCount(bs[..|bs| - 1]) + (if IsPrintable(bs[|bs| - 1]) then 1 else 0)
  }

  function ScanLength(data: seq<byte>): nat
  {
    if |data| < SCAN_LIMIT then |data| else SCAN_LIMIT
  }

  /**
   * `LooksLikeText`: empty data is text; otherwise, within the first 1024
   * bytes, no zero byte and at least 80% printable bytes (`printable >=
   * total * 0.8`, stated in integers as `5 * printable >= 4 * total`).
   */
  predicate LooksText(data: seq<byte>)
  {
    if |data| == 0 then true
    else
      var total := ScanLength(data);
      (forall k :: 0 <= k < total ==> data[k] != 0) && 5 * PrintableCount(data[..total]) >= 4 * total
  }

  /** `LooksLikeText`: counts printable bytes, stopping at the first zero byte. */
  method LooksLikeText(data: seq<byte>) returns (r: bool)
    ensures r == LooksText(data)
  {
    if |data| == 0 {
      return true;
    }
    var printable := 0;
    var total := if |data| < SCAN_LIMIT then |data| else SCAN_LIMIT;
    var i := 0;
    while i < total
      invariant i <= total == ScanLength(data)
      invariant printable == PrintableCount(data[..i])
      invariant forall k :: 0 <= k < i ==> data[k] != 0
    {
      var b := data[i];
      if b == 0 {
        return false;
      }
      assert data[..i + 1][..i] == data[..i];
      if IsPrintable(b) {
        printable := printable + 1;
      }
      i := i + 1;
    }
    r := 5 * printable >= 4 * total;
  }

  /** A zero byte among the first 1024 makes data binary. */
  lemma ZeroByteIsBinary(data: seq<byte>, k: nat)
    requires k < |data| && k < SCAN_LIMIT && data[k] == 0
    ensures !LooksText(data)
  {
  }

  /** Bytes after the first 1024 do not matter. */
  lemma OnlyPrefixCounts(data: seq<byte>, tail: seq<byte>)
    requires |data| >= SCAN_LIMIT
    ensures LooksText(data + tail) == LooksText(data)
  {
    assert (data + tail)[..SCAN_LIMIT] == data[..SCAN_LIMIT];
  }

  /** Helper: printable bytes only are all counted. */
  lemma {:induction false} AllPrintableCount(bs: seq<byte>)
    requires forall k :: 0 <= k < |bs| ==> IsPrintable(bs[k])
    ensures PrintableCount(bs) == |bs|
  {
    if bs != [] {
      AllPrintableCount(bs[..|bs| - 1]);
    }
  }

  /** Data made of printable bytes only (1024 times "A", say) is text. */
  lemma PrintableIsText(data: seq<byte>)
    requires forall k :: 0 <= k < |data| ==> IsPrintable(data[k])
    ensures LooksText(data)
  {
    if |data| > 0 {
      AllPrintableCount(data[..ScanLength(data)]);
    }
  }

  /** The threshold is inclusive: four printable bytes in five is text, three in four is not. */
  lemma ThresholdExamples()
    ensures LooksText([0x41, 0x42, 0x43, 0x44, 0x01])
    ensures !LooksText([0x41, 0x42, 0x43, 0x01])
  {
    var five: seq<byte> := [0x41, 0x42, 0x43, 0x44, 0x01];
    var four: seq<byte> := [0x41, 0x42, 0x43, 0x01];
    assert five[..5] == five && four[..4] == four;
    assert five[..4][..3][..2][..1][..0] == [];
    assert four[..3][..2][..1][..0] == [];
    assert PrintableCount(five[..4]) == 4 by {
      AllPrintableCount(five[..4]);
    }
    assert PrintableCount(four[..3]) == 3 by {
      AllPrintableCount(four[..3]);
    }
  }
}
