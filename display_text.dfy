/**
 * The texts a display node shows for a decoded field: its label, its summary,
 * its payload and its raw hexadecimal preview.
 *
 * Turning bytes into text with `Encoding.UTF8.GetString` is runtime code
 * outside the model: every function that needs it takes the decoder as the
 * parameter `utf8`.
 */
module DisplayText {
  import opened Numeric
  import opened Results
  import opened Text
  import opened WireTypes
  import opened ProtoNodes
  import opened DisplayValues

  const LENGTH_MARK: string := " · 长度 "

  predicate StartsWith(s: string, prefix: string)
  {
    |prefix| <= |s| && s[..|prefix|] == prefix
  }

  /** `char.IsControl`: the C0 controls U+0000..U+001F and DEL with the C1 controls U+007F..U+009F. */
  predicate IsControl(c: char)
  {
    c <= '\U{1F}' || '\U{7F}' <= c <= '\U{9F}'
  }

  /** A control character other than line feed, carriage return and tab: one that rules text out. */
  predicate IsForbiddenControl(c: char)
  {
    IsControl(c) && c != '\n' && c != '\r' && c != '\t'
  }

  /**
   * `TryGetUtf8`: the decoded text, or none (null) when it holds a control
   * character other than line feed, carriage return and tab.
   */
  function TextOrNone(text: string): (r: Option<string>)
    ensures r.None? <==> exists k :: 0 <= k < |text| && IsForbiddenControl(text[k])
    ensures r.Some? ==> r.value == text
  {
    if exists k :: 0 <= k < |text| && IsForbiddenControl(text[k]) then None else Some(text)
  }

  function TryGetUtf8(span: seq<byte>, utf8: seq<byte> -> string): Option<string>
  {
    TextOrNone(utf8(span))
  }

  /**
   * `{value:X}` of a `long`: a negative value prints its 64-bit two's
   * complement, so the digits are those of the unsigned bit pattern.
   */
  function UInt64Bits(v: int): (r: nat)
    requires -(TWO_63 as int) <= v < TWO_63
    ensures r < TWO_64 && ToInt64(r) == v
  {
    if v < 0 then v + TWO_64 else v
  }

  /** `CreateVarintText`: the value in decimal, then in hexadecimal between "(0x" and ")". */
  function VarintText(span: seq<byte>): (s: string)
    ensures var decimal := IntToDecimal(ToInt64(VarintBits(span)));
            StartsWith(s, decimal + " (0x") && EndsWith(s, ")") && |s| > |decimal| + 4
  {
    var value := ToInt64(VarintBits(span));
    IntToDecimal(value) + " (0x" + HexUpper(UInt64Bits(value)) + ")"
  }

  /** The hexadecimal part of the varint text shows the 64 bits gathered from the span, whatever their sign as a `long`. */
  lemma VarintTextHex(span: seq<byte>)
    ensures var value := ToInt64(VarintBits(span));
            VarintText(span) == IntToDecimal(value) + " (0x" + HexUpper(VarintBits(span)) + ")"
  {
  }

  /** A Fixed32 / Fixed64 value is readable only when it has at least 4 / 8 bytes; shorter, `BitConverter` throws. */
  predicate ValueReadable(n: ProtoNode)
  {
    && (n.wireType == Fixed32 ==> |n.rawValue| >= 4)
    && (n.wireType == Fixed64 ==> |n.rawValue| >= 8)
  }

  /** Every node of the tree can be given a display node without an exception. */
  predicate Displayable(n: ProtoNode)
    decreases n
  {
    && ValueReadable(n)
    && (HasChildren(n) ==> forall c :: c in n.children.nodes ==> Displayable(c))
  }

  /** Every node the decoder builds can be displayed. */
  lemma {:induction false} WellFormedDisplayable(n: ProtoNode)
    requires WellFormed(n)
    ensures Displayable(n)
    decreases n
  {
    if HasChildren(n) {
      forall c | c in n.children.nodes
        ensures Displayable(c)
      {
        WellFormedDisplayable(c);
      }
    }
  }

  /**
   * `CreateLengthDelimitedSummary`: "LengthDelimited · 空" for an empty value;
   * otherwise the text when it decodes to a non-empty text without forbidden
   * controls, else the bytes in hexadecimal when there are at most eight, else
   * only the length.
   */
  function LengthDelimitedSummary(span: seq<byte>, utf8: seq<byte> -> string): (s: string)
    ensures |s| > 0
    ensures |span| == 0 ==> s == "LengthDelimited · 空"
    ensures |span| > 0 ==> EndsWith(s, LENGTH_MARK + IntToDecimal(|span|))
    ensures s[0] == 'L' <==> |span| == 0
    ensures s[0] == 'U' <==> |span| > 0 && TryGetUtf8(span, utf8).Some? && |utf8(span)| > 0
    ensures s[0] == 'B' <==> |span| > 0 && !(TryGetUtf8(span, utf8).Some? && |utf8(span)| > 0)
    ensures s[0] == 'U' ==> s == "UTF8 · \"" + utf8(span) + "\"" + LENGTH_MARK + IntToDecimal(|span|)
    ensures s[0] == 'B' && |span| <= 8 ==> s == "Bytes · " + HexJoined(span, '-') + LENGTH_MARK + IntToDecimal(|span|)
    ensures s[0] == 'B' && |span| > 8 ==> s == "Bytes" + LENGTH_MARK + IntToDecimal(|span|)
  {
    if |span| == 0 then "LengthDelimited · 空"
    else
      var text := TryGetUtf8(span, utf8);
      var tail := LENGTH_MARK + IntToDecimal(|span|);
      if text.Some? && |text.value| > 0 then
        "UTF8 · \"" + text.value + "\"" + tail
      else if |span| <= 8 then
        "Bytes · " + HexJoined(span, '-') + tail
      else
        var s := "Bytes · 长度 " + IntToDecimal(|span|);
        assert s == "Bytes" + tail;
        s
  }

  /** `CreateLengthDelimitedText`: the payload of a length-delimited node. */
  function LengthDelimitedText(n: ProtoNode, utf8: seq<byte> -> string): string
  {
    var len := IntToDecimal(|n.rawValue|);
    if HasChildren(n) then "嵌套类 (" + IntToDecimal(|n.children.nodes|) + " 子节点)" + LENGTH_MARK + len
    else if |n.rawValue| == 0 then "长度 0"
    else
      var text := TryGetUtf8(n.rawValue, utf8);
      if text.Some? then "UTF8 \"" + text.value + "\" (" + len + " bytes)" + LENGTH_MARK + len
      else len + " bytes [" + HexJoined(n.rawValue, '-') + "]" + LENGTH_MARK + len
  }

  /**
   * The payload text of a length-delimited node tells its case by its first
   * character: '嵌' for a nested message, 'U' for text, a digit for other
   * bytes; "长度 0" is exactly the empty leaf, and every other case ends with
   * the value's length.
   */
  lemma LengthDelimitedTextShape(n: ProtoNode, utf8: seq<byte> -> string)
    ensures var s, tail := LengthDelimitedText(n, utf8), LENGTH_MARK + IntToDecimal(|n.rawValue|);
            && |s| > 0
            && (s == "长度 0" <==> !HasChildren(n) && |n.rawValue| == 0)
            && (s != "长度 0" ==> EndsWith(s, tail))
            && (s[0] == '嵌' <==> HasChildren(n))
            && (s[0] == 'U' <==> !HasChildren(n) && |n.rawValue| > 0 && TryGetUtf8(n.rawValue, utf8).Some?)
  {
    var s, tail := LengthDelimitedText(n, utf8), LENGTH_MARK + IntToDecimal(|n.rawValue|);
    var len := IntToDecimal(|n.rawValue|);
    if HasChildren(n) || |n.rawValue| > 0 {
      assert s[|s| - |tail|..] == tail;
      assert s[0] != '长';
    }
  }

  /** `CreatePayload`: the value as the label shows it, by wire type. */
  function Payload(n: ProtoNode, utf8: seq<byte> -> string): string
    requires ValueReadable(n)
  {
    match n.wireType
    case Varint => VarintText(n.rawValue)
    case Fixed32 => "0x" + NatToDecimal(ToUInt32(n.rawValue)) + " (LE)"
    case Fixed64 => "0x" + NatToDecimal(ToUInt64(n.rawValue)) + " (LE)"
    case LengthDelimited => LengthDelimitedText(n, utf8)
  }

  /**
   * The payload reads back as the value it shows: a varint's text starts with
   * its signed value, a minus sign for a negative one and then the digits of
   * its magnitude; a fixed word is "0x", then the decimal digits of its
   * little-endian value, then " (LE)"; a length-delimited value shows its
   * length-delimited text.
   */
  lemma PayloadShape(n: ProtoNode, utf8: seq<byte> -> string)
    requires ValueReadable(n)
    ensures var p := Payload(n, utf8);
            && (n.wireType == Varint ==> p == VarintText(n.rawValue))
            && (n.wireType == Varint ==>
                  var v := ToInt64(VarintBits(n.rawValue));
                  var d := IntToDecimal(v);
                  && |d| <= |p|
                  && (v >= 0 ==> AllDigits(p[..|d|]) && DecimalValue(p[..|d|]) == v)
                  && (v < 0 ==> p[0] == '-' && AllDigits(p[1..|d|]) && DecimalValue(p[1..|d|]) == -v))
            && (n.wireType == Fixed32 ==>
                  StartsWith(p, "0x") && EndsWith(p, " (LE)") && |p| > 7
                  && AllDigits(p[2..|p| - 5]) && DecimalValue(p[2..|p| - 5]) == ToUInt32(n.rawValue))
            && (n.wireType == Fixed64 ==>
                  StartsWith(p, "0x") && EndsWith(p, " (LE)") && |p| > 7
                  && AllDigits(p[2..|p| - 5]) && DecimalValue(p[2..|p| - 5]) == ToUInt64(n.rawValue))
            && (n.wireType == LengthDelimited ==> p == LengthDelimitedText(n, utf8))
  {
    var p := Payload(n, utf8);
    match n.wireType
    case Varint =>
      var v := ToInt64(VarintBits(n.rawValue));
      var d := IntToDecimal(v);
      assert p[..|d|] == d by {
        assert p[..|d + " (0x"|] == d + " (0x";
      }
      if v >= 0 {
        DecimalRoundTrip(v);
      } else {
        assert p[1..|d|] == NatToDecimal(-v);
        DecimalRoundTrip(-v);
      }
    case Fixed32 =>
      var d := NatToDecimal(ToUInt32(n.rawValue));
      assert p[2..|p| - 5] == d;
      assert p[..2] == "0x" && p[|p| - 5..] == " (LE)";
      DecimalRoundTrip(ToUInt32(n.rawValue));
    case Fixed64 =>
      var d := NatToDecimal(ToUInt64(n.rawValue));
      assert p[2..|p| - 5] == d;
      assert p[..2] == "0x" && p[|p| - 5..] == " (LE)";
      DecimalRoundTrip(ToUInt64(n.rawValue));
    case LengthDelimited =>
  }

  /** The part of a label before the arrow: "#N [WireType] ". */
  function LabelHead(n: ProtoNode): string
  {
    "#" + IntToDecimal(n.fieldNumber) + " [" + Name(n.wireType) + "] "
  }

  /**
   * `CreateLabel`: the field number and wire type, then "← K 子节点" for a
   * node with children and "→ payload" for one without.
   */
  function Label(n: ProtoNode, utf8: seq<byte> -> string): (s: string)
    requires ValueReadable(n)
  {
    var head := LabelHead(n);
    if HasChildren(n) then head + "← " + IntToDecimal(|n.children.nodes|) + " 子节点"
    else head + "→ " + Payload(n, utf8)
  }

  /**
   * The label starts with its head, then an arrow that tells a node with
   * children (←) from one without (→); after the arrow and a space, a node
   * with children shows a count that `int.TryParse` reads back as the number
   * of children, and one without shows its payload.
   */
  lemma LabelShape(n: ProtoNode, utf8: seq<byte> -> string)
    requires ValueReadable(n)
    ensures var s, head := Label(n, utf8), LabelHead(n);
            && StartsWith(s, head) && |s| > |head| + 2
            && (s[|head|] == '←' <==> HasChildren(n))
            && (s[|head|] == '→' <==> !HasChildren(n))
            && (HasChildren(n) ==>
                  EndsWith(s, " 子节点") && |head| + 2 < |s| - 4
                  && (|n.children.nodes| <= INT32_MAX ==>
                        ParseInt32(s[|head| + 2..|s| - 4]) == Some(|n.children.nodes|)))
            && (!HasChildren(n) ==> s[|head| + 2..] == Payload(n, utf8))
  {
    var s, head := Label(n, utf8), LabelHead(n);
    assert s[..|head|] == head;
    if HasChildren(n) {
      var count := IntToDecimal(|n.children.nodes|);
      assert s[|head| + 2..|s| - 4] == count;
      assert s[|s| - 4..] == " 子节点";
      if |n.children.nodes| <= INT32_MAX {
        ParseInt32OfDecimal(|n.children.nodes|);
      }
    } else {
      assert s[|head| + 2..] == Payload(n, utf8);
    }
  }

  /**
   * `CreateSummary`: what the value is (a nested message with its child
   * count, a varint, a fixed word, text or bytes) and, for every value but the
   * empty length-delimited one, its length in bytes at the end.
   */
  function Summary(n: ProtoNode, utf8: seq<byte> -> string): (s: string)
    requires ValueReadable(n)
  {
    var tail := LENGTH_MARK + IntToDecimal(|n.rawValue|);
    if HasChildren(n) then
      "嵌套类 · " + IntToDecimal(|n.children.nodes|) + " 子节点" + tail
    else
      match n.wireType
      case Varint => "Varint · " + VarintText(n.rawValue) + tail
      case Fixed32 => "Fixed32 · 0x" + NatToDecimal(ToUInt32(n.rawValue)) + tail
      case Fixed64 => "Fixed64 · 0x" + NatToDecimal(ToUInt64(n.rawValue)) + tail
      case LengthDelimited => LengthDelimitedSummary(n.rawValue, utf8)
  }

  /**
   * Every summary but the empty length-delimited one ends with the length
   * mark and digits whose decimal value is the value's length. Between a
   * summary's leading words and that tail stand: for a node with children a
   * count that `int.TryParse` reads back as the number of children; for a
   * varint its varint text; for a fixed word, after "0x", the decimal digits
   * of its little-endian value. A length-delimited value without children is
   * summarised by its length-delimited summary.
   */
  lemma SummaryShape(n: ProtoNode, utf8: seq<byte> -> string)
    requires ValueReadable(n)
    ensures var s, tail := Summary(n, utf8), LENGTH_MARK + IntToDecimal(|n.rawValue|);
            && (!(!HasChildren(n) && n.wireType == LengthDelimited && |n.rawValue| == 0) ==>
                  EndsWith(s, tail)
                  && AllDigits(s[|s| - |tail| + |LENGTH_MARK|..]) && DecimalValue(s[|s| - |tail| + |LENGTH_MARK|..]) == |n.rawValue|)
            && (HasChildren(n) ==>
                  StartsWith(s, "嵌套类 · ") && 6 < |s| - |tail| - 4 && s[|s| - |tail| - 4..|s| - |tail|] == " 子节点"
                  && (|n.children.nodes| <= INT32_MAX ==>
                        ParseInt32(s[6..|s| - |tail| - 4]) == Some(|n.children.nodes|)))
            && (!HasChildren(n) && n.wireType == Varint ==>
                  StartsWith(s, "Varint · ") && 9 <= |s| - |tail| && s[9..|s| - |tail|] == VarintText(n.rawValue))
            && (!HasChildren(n) && n.wireType == Fixed32 ==>
                  StartsWith(s, "Fixed32 · 0x") && 12 < |s| - |tail| && AllDigits(s[12..|s| - |tail|])
                  && DecimalValue(s[12..|s| - |tail|]) == ToUInt32(n.rawValue))
            && (!HasChildren(n) && n.wireType == Fixed64 ==>
                  StartsWith(s, "Fixed64 · 0x") && 12 < |s| - |tail| && AllDigits(s[12..|s| - |tail|])
                  && DecimalValue(s[12..|s| - |tail|]) == ToUInt64(n.rawValue))
            && (!HasChildren(n) && n.wireType == LengthDelimited ==> s == LengthDelimitedSummary(n.rawValue, utf8))
  {
    if HasChildren(n) {
      ParentSummary(n, utf8);
    } else if n.wireType == LengthDelimited {
      LeafSummary(n, utf8);
    } else if n.wireType == Varint {
      VarintSummary(n, utf8);
    } else if n.wireType == Fixed32 {
      Fixed32Summary(n, utf8);
    } else {
      Fixed64Summary(n, utf8);
    }
  }

  /** Helper: the summary of a length-delimited value without children. */
  lemma LeafSummary(n: ProtoNode, utf8: seq<byte> -> string)
    requires ValueReadable(n) && !HasChildren(n) && n.wireType == LengthDelimited
    ensures var s, tail := Summary(n, utf8), LENGTH_MARK + IntToDecimal(|n.rawValue|);
            && s == LengthDelimitedSummary(n.rawValue, utf8)
            && (|n.rawValue| > 0 ==>
                  EndsWith(s, tail)
                  && AllDigits(s[|s| - |tail| + |LENGTH_MARK|..]) && DecimalValue(s[|s| - |tail| + |LENGTH_MARK|..]) == |n.rawValue|)
  {
    if |n.rawValue| > 0 {
      SummaryTailReadsBack(Summary(n, utf8), |n.rawValue|);
    }
  }

  /** Helper: the summary of a varint without children, between "Varint · " and its tail. */
  lemma VarintSummary(n: ProtoNode, utf8: seq<byte> -> string)
    requires ValueReadable(n) && !HasChildren(n) && n.wireType == Varint
    ensures var s, tail := Summary(n, utf8), LENGTH_MARK + IntToDecimal(|n.rawValue|);
            && EndsWith(s, tail)
            && AllDigits(s[|s| - |tail| + |LENGTH_MARK|..]) && DecimalValue(s[|s| - |tail| + |LENGTH_MARK|..]) == |n.rawValue|
            && StartsWith(s, "Varint · ") && 9 <= |s| - |tail| && s[9..|s| - |tail|] == VarintText(n.rawValue)
  {
    assert Summary(n, utf8) == "Varint · " + VarintText(n.rawValue) + (LENGTH_MARK + IntToDecimal(|n.rawValue|));
    FramedText(Summary(n, utf8), "Varint · ", VarintText(n.rawValue), |n.rawValue|);
  }

  /** Helper: a text made of a start, a middle, the length mark and a length. */
  lemma FramedText(s: string, start: string, middle: string, len: nat)
    requires s == start + middle + (LENGTH_MARK + IntToDecimal(len))
    ensures var tail := LENGTH_MARK + IntToDecimal(len);
            && EndsWith(s, tail)
            && AllDigits(s[|s| - |tail| + |LENGTH_MARK|..]) && DecimalValue(s[|s| - |tail| + |LENGTH_MARK|..]) == len
            && StartsWith(s, start) && |start| <= |s| - |tail| && s[|start|..|s| - |tail|] == middle
  {
    WordsThenLength(s, start + middle, len);
    Between(s, start, middle, LENGTH_MARK + IntToDecimal(len));
  }

  /** Helper: a text made of a start, a value's decimal digits, the length mark and a length. */
  lemma DigitsText(s: string, start: string, value: nat, len: nat)
    requires s == start + NatToDecimal(value) + (LENGTH_MARK + IntToDecimal(len))
    ensures var tail := LENGTH_MARK + IntToDecimal(len);
            && EndsWith(s, tail)
            && AllDigits(s[|s| - |tail| + |LENGTH_MARK|..]) && DecimalValue(s[|s| - |tail| + |LENGTH_MARK|..]) == len
            && StartsWith(s, start) && |start| < |s| - |tail|
            && AllDigits(s[|start|..|s| - |tail|]) && DecimalValue(s[|start|..|s| - |tail|]) == value
  {
    FramedText(s, start, NatToDecimal(value), len);
    DecimalRoundTrip(value);
  }

  /** Helper: a text made of some words, the length mark and a length ends with the mark and reads the length back. */
  lemma WordsThenLength(s: string, words: string, len: nat)
    requires s == words + LENGTH_MARK + IntToDecimal(len)
    ensures var tail := LENGTH_MARK + IntToDecimal(len);
            && EndsWith(s, tail) && s[..|s| - |tail|] == words
            && AllDigits(s[|s| - |tail| + |LENGTH_MARK|..]) && DecimalValue(s[|s| - |tail| + |LENGTH_MARK|..]) == len
  {
    var tail := LENGTH_MARK + IntToDecimal(len);
    assert s[|s| - |tail|..] == tail;
    assert s[..|s| - |tail|] == words;
    SummaryTailReadsBack(s, len);
  }

  /** Helper: the summary of a node with children, between its leading words and its tail. */
  lemma ParentSummary(n: ProtoNode, utf8: seq<byte> -> string)
    requires ValueReadable(n) && HasChildren(n)
    ensures var s, tail := Summary(n, utf8), LENGTH_MARK + IntToDecimal(|n.rawValue|);
            && EndsWith(s, tail)
            && AllDigits(s[|s| - |tail| + |LENGTH_MARK|..]) && DecimalValue(s[|s| - |tail| + |LENGTH_MARK|..]) == |n.rawValue|
            && StartsWith(s, "嵌套类 · ") && 6 < |s| - |tail| - 4 && s[|s| - |tail| - 4..|s| - |tail|] == " 子节点"
            && (|n.children.nodes| <= INT32_MAX ==> ParseInt32(s[6..|s| - |tail| - 4]) == Some(|n.children.nodes|))
  {
    ParentText(Summary(n, utf8), |n.children.nodes|, |n.rawValue|);
  }

  /** Helper: the text of a parent's summary, read back. */
  lemma ParentText(s: string, count: nat, len: nat)
    requires s == "嵌套类 · " + IntToDecimal(count) + " 子节点" + (LENGTH_MARK + IntToDecimal(len))
    ensures var tail := LENGTH_MARK + IntToDecimal(len);
            && EndsWith(s, tail)
            && AllDigits(s[|s| - |tail| + |LENGTH_MARK|..]) && DecimalValue(s[|s| - |tail| + |LENGTH_MARK|..]) == len
            && StartsWith(s, "嵌套类 · ") && 6 < |s| - |tail| - 4 && s[|s| - |tail| - 4..|s| - |tail|] == " 子节点"
            && (count <= INT32_MAX ==> ParseInt32(s[6..|s| - |tail| - 4]) == Some(count))
  {
    var tail := LENGTH_MARK + IntToDecimal(len);
    WordsThenLength(s, "嵌套类 · " + IntToDecimal(count) + " 子节点", len);
    CountBetween(s, "嵌套类 · ", count, " 子节点", tail);
  }

  /** Helper: a count written in decimal between a known start and two known endings reads back as the count. */
  lemma CountBetween(s: string, start: string, count: nat, word: string, end: string)
    requires s == start + IntToDecimal(count) + word + end
    ensures StartsWith(s, start) && |start| < |s| - |end| - |word|
    ensures s[|s| - |end| - |word|..|s| - |end|] == word
    ensures count <= INT32_MAX ==> ParseInt32(s[|start|..|s| - |end| - |word|]) == Some(count)
  {
    Between(s, start, IntToDecimal(count), word + end);
    Between(s, start + IntToDecimal(count), word, end);
    if count <= INT32_MAX {
      ParseInt32OfDecimal(count);
    }
  }

  /** Helper: the summary of a Fixed32 word without children, between "Fixed32 · 0x" and its tail. */
  lemma Fixed32Summary(n: ProtoNode, utf8: seq<byte> -> string)
    requires ValueReadable(n) && !HasChildren(n) && n.wireType == Fixed32
    ensures var s, tail := Summary(n, utf8), LENGTH_MARK + IntToDecimal(|n.rawValue|);
            && EndsWith(s, tail)
            && AllDigits(s[|s| - |tail| + |LENGTH_MARK|..]) && DecimalValue(s[|s| - |tail| + |LENGTH_MARK|..]) == |n.rawValue|
            && StartsWith(s, "Fixed32 · 0x") && 12 < |s| - |tail| && AllDigits(s[12..|s| - |tail|])
            && DecimalValue(s[12..|s| - |tail|]) == ToUInt32(n.rawValue)
  {
    assert Summary(n, utf8) == "Fixed32 · 0x" + NatToDecimal(ToUInt32(n.rawValue)) + (LENGTH_MARK + IntToDecimal(|n.rawValue|));
    DigitsText(Summary(n, utf8), "Fixed32 · 0x", ToUInt32(n.rawValue), |n.rawValue|);
  }

  /** Helper: the summary of a Fixed64 word without children, between "Fixed64 · 0x" and its tail. */
  lemma Fixed64Summary(n: ProtoNode, utf8: seq<byte> -> string)
    requires ValueReadable(n) && !HasChildren(n) && n.wireType == Fixed64
    ensures var s, tail := Summary(n, utf8), LENGTH_MARK + IntToDecimal(|n.rawValue|);
            && EndsWith(s, tail)
            && AllDigits(s[|s| - |tail| + |LENGTH_MARK|..]) && DecimalValue(s[|s| - |tail| + |LENGTH_MARK|..]) == |n.rawValue|
            && StartsWith(s, "Fixed64 · 0x") && 12 < |s| - |tail| && AllDigits(s[12..|s| - |tail|])
            && DecimalValue(s[12..|s| - |tail|]) == ToUInt64(n.rawValue)
  {
    assert Summary(n, utf8) == "Fixed64 · 0x" + NatToDecimal(ToUInt64(n.rawValue)) + (LENGTH_MARK + IntToDecimal(|n.rawValue|));
    DigitsText(Summary(n, utf8), "Fixed64 · 0x", ToUInt64(n.rawValue), |n.rawValue|);
  }

  /** Helper: the text between a known start and a known end. */
  lemma Between(s: string, start: string, middle: string, end: string)
    requires s == start + middle + end
    ensures StartsWith(s, start) && EndsWith(s, end)
    ensures s[|start|..|s| - |end|] == middle
  {
    assert s[..|start|] == start;
    assert s[|s| - |end|..] == end;
  }

  /** Helper: a text ending with the length mark and a length reads the length back after the mark. */
  lemma SummaryTailReadsBack(s: string, len: nat)
    requires EndsWith(s, LENGTH_MARK + IntToDecimal(len))
    ensures var tail := LENGTH_MARK + IntToDecimal(len);
            AllDigits(s[|s| - |tail| + |LENGTH_MARK|..]) && DecimalValue(s[|s| - |tail| + |LENGTH_MARK|..]) == len
  {
    var tail := LENGTH_MARK + IntToDecimal(len);
    assert s[|s| - |tail| + |LENGTH_MARK|..] == NatToDecimal(len) by {
      assert s[|s| - |tail|..] == tail;
    }
    DecimalRoundTrip(len);
  }

  /**
   * The summary tells the kinds of value apart: it starts with "嵌套类" exactly
   * for a node with children, with the wire type's name for a varint or fixed
   * word, and it is "LengthDelimited · 空" exactly for an empty
   * length-delimited value without children.
   */
  lemma SummaryKinds(n: ProtoNode, utf8: seq<byte> -> string)
    requires ValueReadable(n)
    ensures var s := Summary(n, utf8);
            && |s| > 0
            && (s[0] == '嵌' <==> HasChildren(n))
            && (!HasChildren(n) && n.wireType != LengthDelimited ==> StartsWith(s, Name(n.wireType) + " · "))
            && (s == "LengthDelimited · 空" <==> !HasChildren(n) && n.wireType == LengthDelimited && |n.rawValue| == 0)
  {
    var s := Summary(n, utf8);
    if !HasChildren(n) && n.wireType == LengthDelimited {
      var t := LengthDelimitedSummary(n.rawValue, utf8);
      assert t[0] != '嵌';
    } else if !HasChildren(n) {
      assert s[..|Name(n.wireType) + " · "|] == Name(n.wireType) + " · ";
      assert s[0] != '嵌' && s[0] != "LengthDelimited · 空"[0];
    } else {
      assert s[0] == '嵌';
    }
  }

  /**
   * `CreateRawPreview`: the value's bytes as two upper-case hexadecimal
   * digits each, separated by spaces; empty for an empty value.
   */
  function RawPreview(n: ProtoNode): string
  {
    if |n.rawValue| == 0 then "" else ReplaceChar(HexJoined(n.rawValue, '-'), '-', ' ')
  }

  /** The preview is the bytes joined by spaces: byte `k` at offset `3k`, a space after every byte but the last. */
  lemma RawPreviewLayout(n: ProtoNode)
    ensures RawPreview(n) == HexJoined(n.rawValue, ' ')
    ensures |n.rawValue| > 0 ==> |RawPreview(n)| == 3 * |n.rawValue| - 1
    ensures forall k :: 0 <= k < |n.rawValue| ==> RawPreview(n)[3 * k .. 3 * k + 2] == ByteHex(n.rawValue[k])
    ensures forall k :: 0 <= k < |n.rawValue| - 1 ==> RawPreview(n)[3 * k + 2] == ' '
  {
    ReplaceJoined(n.rawValue);
    HexJoinedLayout(n.rawValue, ' ');
  }

  /** Helper: hexadecimal digits hold no dash, so replacing the dashes of a dash-joined string gives the space-joined one. */
  lemma ReplaceJoined(bs: seq<byte>)
    ensures ReplaceChar(HexJoined(bs, '-'), '-', ' ') == HexJoined(bs, ' ')
  {
    var dashed, spaced := HexJoined(bs, '-'), HexJoined(bs, ' ');
    var r := ReplaceChar(dashed, '-', ' ');
    forall i | 0 <= i < |r|
      ensures r[i] == spaced[i]
    {
      JoinedCharAt(bs, '-', i);
      JoinedCharAt(bs, ' ', i);
      if i % 3 != 2 {
        HexDigitNotDash(bs[i / 3] as int / 16);
        HexDigitNotDash(bs[i / 3] as int % 16);
      }
    }
  }

  /** Helper: character `i` of a joined string is a separator or a digit of byte `i / 3`. */
  lemma JoinedCharAt(bs: seq<byte>, sep: char, i: nat)
    requires i < |HexJoined(bs, sep)|
    ensures i / 3 < |bs|
    ensures HexJoined(bs, sep)[i] == (if i % 3 == 2 then sep else ByteHex(bs[i / 3])[i % 3])
  {
    var s := HexJoined(bs, sep);
    var k, r := i / 3, i % 3;
    assert i == 3 * k + r && r < 3;
    assert k < |bs|;
    HexJoinedLayout(bs, sep);
    if r != 2 {
      assert s[i] == s[3 * k .. 3 * k + 2][r];
    } else {
      assert k < |bs| - 1;
    }
  }

  lemma HexDigitNotDash(d: nat)
    requires d < 16
    ensures HexDigit(d) != '-'
  {
  }

  /**
   * A value whose decoded text holds a forbidden control character is never
   * shown as text: its summary lists its bytes when there are at most eight,
   * and only its length otherwise.
   */
  lemma ControlTextShownAsBytes(span: seq<byte>, utf8: seq<byte> -> string, k: nat)
    requires |span| > 0 && k < |utf8(span)| && IsForbiddenControl(utf8(span)[k])
    ensures |span| <= 8 ==> LengthDelimitedSummary(span, utf8) == "Bytes · " + HexJoined(span, '-') + LENGTH_MARK + IntToDecimal(|span|)
    ensures |span| > 8 ==> LengthDelimitedSummary(span, utf8) == "Bytes" + LENGTH_MARK + IntToDecimal(|span|)
  {
    assert TryGetUtf8(span, utf8).None?;
  }

  /**
   * The binary value of the display tests, 00 01 02 FF, is not shown as text
   * whenever the decoder turns a leading NUL byte into a NUL character: its
   * summary lists the bytes.
   */
  lemma ControlBytesSummary(utf8: seq<byte> -> string)
    requires |utf8([0x00, 0x01, 0x02, 0xFF])| > 0 && utf8([0x00, 0x01, 0x02, 0xFF])[0] == '\0'
    ensures LengthDelimitedSummary([0x00, 0x01, 0x02, 0xFF], utf8) == "Bytes · 00-01-02-FF · 长度 4"
  {
    ControlTextShownAsBytes([0x00, 0x01, 0x02, 0xFF], utf8, 0);
    ControlBytesHex();
    assert IntToDecimal(4) == "4";
  }

  lemma ControlBytesHex()
    ensures HexJoined([0x00, 0x01, 0x02, 0xFF], '-') == "00-01-02-FF"
  {
    ByteHexExamples();
    var last: seq<byte> := [0xFF];
    assert HexJoined(last, '-') == "FF";
    JoinedCons(0x02, last, '-');
    assert [0x02] + last == [0x02, 0xFF];
    JoinedCons(0x01, [0x02, 0xFF], '-');
    assert [0x01] + [0x02, 0xFF] == [0x01, 0x02, 0xFF];
    JoinedCons(0x00, [0x01, 0x02, 0xFF], '-');
    assert [0x00] + [0x01, 0x02, 0xFF] == [0x00, 0x01, 0x02, 0xFF];
  }

  /** Helper: the digits of the four bytes of the example. */
  lemma ByteHexExamples()
    ensures ByteHex(0x00) == "00" && ByteHex(0x01) == "01" && ByteHex(0x02) == "02" && ByteHex(0xFF) == "FF"
  {
  }

  /** Helper: a byte in front of one or more bytes is written before a separator. */
  lemma JoinedCons(b: byte, rest: seq<byte>, sep: char)
    requires rest != []
    ensures HexJoined([b] + rest, sep) == ByteHex(b) + [sep] + HexJoined(rest, sep)
  {
    assert ([b] + rest)[1..] == rest;
  }
}
