/** `ProtoNode`: one decoded field, immutable once built. */
module ProtoNodes {
  import opened Numeric
  import opened Results
  import opened Text
  import opened WireTypes

  /**
   * A field: its number, its wire type, the bytes of its value (not of its key)
   * and, for a length-delimited value that decoded as a message, its fields.
   */
  datatype ProtoNode = ProtoNode(fieldNumber: int, wireType: WireType, rawValue: seq<byte>, children: Children)

  /** The nullable child list: absent (null) or present. */
  datatype Children = Absent | Present(nodes: seq<ProtoNode>)

  /** `Children is { Count: > 0 }`: a child list is present and non-empty. */
  predicate HasChildren(n: ProtoNode)
  {
    n.children.Present? && |n.children.nodes| > 0
  }

  predicate EndsWith(s: string, suffix: string)
  {
    |suffix| <= |s| && s[|s| - |suffix|..] == suffix
  }

  /**
   * The node's `ToString`: "Field N (WT) -> K child nodes" when it has children,
   * "Field N (WT) -> L bytes" otherwise.
   */
  function ToString(n: ProtoNode): (s: string)
    ensures var head := "Field " + IntToDecimal(n.fieldNumber) + " (" + Name(n.wireType) + ") -> ";
            |head| < |s| && s[..|head|] == head
    ensures HasChildren(n) <==> EndsWith(s, " child nodes")
    ensures !HasChildren(n) <==> EndsWith(s, " bytes")
    ensures var head, suffix := "Field " + IntToDecimal(n.fieldNumber) + " (" + Name(n.wireType) + ") -> ", ToStringSuffix(n);
            |head| + |suffix| < |s| && s[|head|..|s| - |suffix|] == IntToDecimal(PrintedCount(n))
  {
    var head := "Field " + IntToDecimal(n.fieldNumber) + " (" + Name(n.wireType) + ") -> ";
    if HasChildren(n) then
      var s := head + IntToDecimal(|n.children.nodes|) + " child nodes";
      assert s[|s| - 5] == 'n';
      s
    else
      var s := head + IntToDecimal(|n.rawValue|) + " bytes";
      assert s[|s| - 5] == 'b';
      s
  }

  /** The number `ToString` prints: the child count for a node with children, else the value's length in bytes. */
  function PrintedCount(n: ProtoNode): nat
  {
    if HasChildren(n) then |n.children.nodes| else |n.rawValue|
  }

  /** The text `ToString` ends with. */
  function ToStringSuffix(n: ProtoNode): string
  {
    if HasChildren(n) then " child nodes" else " bytes"
  }

  /**
   * The number between the head and the suffix of `ToString` reads back, as
   * `int.TryParse` reads it, as the child count or the byte length (both are
   * `int` counts in the source).
   */
  lemma ToStringCountReadsBack(n: ProtoNode)
    requires PrintedCount(n) <= INT32_MAX
    ensures var s, head := ToString(n), "Field " + IntToDecimal(n.fieldNumber) + " (" + Name(n.wireType) + ") -> ";
            |head| + |ToStringSuffix(n)| < |s| && ParseInt32(s[|head|..|s| - |ToStringSuffix(n)|]) == Some(PrintedCount(n))
  {
    ParseInt32OfDecimal(PrintedCount(n));
  }

  /**
   * The shape every decoded node has: a Fixed32 value is 4 bytes, a Fixed64
   * value 8, a Varint value one varint, a length-delimited value at most
   * `int.MaxValue` bytes; children are present only on length-delimited nodes,
   * never empty, and well formed themselves.
   */
  predicate WellFormed(n: ProtoNode)
    decreases n
  {
    && (n.wireType == Fixed32 ==> |n.rawValue| == 4)
    && (n.wireType == Fixed64 ==> |n.rawValue| == 8)
    && (n.wireType == Varint ==> IsVarintSpan(n.rawValue))
    && (n.wireType == LengthDelimited ==> |n.rawValue| <= INT32_MAX)
    && (n.children.Present? ==>
          && n.wireType == LengthDelimited
          && |n.children.nodes| > 0
          && forall c :: c in n.children.nodes ==> WellFormed(c))
  }

  /** On a well-formed node, `ToString` reports children exactly when the child list is present. */
  lemma ToStringOfWellFormed(n: ProtoNode)
    requires WellFormed(n)
    ensures EndsWith(ToString(n), " child nodes") <==> n.children.Present?
  {
  }
}
