/**
 * `ProtoDisplayNode`: the tree the user interface shows for decoded fields.
 * Fields of one message are grouped by field number in order of first
 * appearance; a field that occurs once becomes one display node, a field that
 * occurs several times becomes an array group holding one display node per
 * occurrence.
 */
module DisplayTree {
  import opened Numeric
  import opened Results
  import opened Text
  import opened WireTypes
  import opened ProtoNodes
  import opened DisplayText
  import opened DisplayPaths

  /**
   * A display node. `node` is the decoded field it shows, or none (null) for an
   * error node and an array group.
   */
  datatype DisplayNode = DisplayNode(
    labelText: string,
    node: Option<ProtoNode>,
    path: string,
    children: seq<DisplayNode>,
    fieldNumber: int,
    wireType: WireType,
    summary: string,
    rawPreview: string)

  predicate IsError(d: DisplayNode)
  {
    d.node.None? && |d.children| == 0
  }

  predicate IsArrayGroup(d: DisplayNode)
  {
    d.node.None? && |d.children| > 0
  }

  /** The last segment of the path carries an occurrence index. */
  predicate IsRepeated(d: DisplayNode)
  {
    OccurrenceIndex(LastSegment(d.path)).Some?
  }

  /** The occurrence index of the last segment, 1 when there is none. */
  function Occurrence(d: DisplayNode): int
  {
    match OccurrenceIndex(LastSegment(d.path))
    case Some(i) => i
    case None => 1
  }

  /** `FieldDisplay`: "[count]" for an array group, "f[i]" for an occurrence, the field number otherwise. */
  function FieldDisplay(d: DisplayNode): string
  {
    if IsArrayGroup(d) then "[" + IntToDecimal(|d.children|) + "]"
    else if IsRepeated(d) then ElementSegment(d.fieldNumber, Occurrence(d))
    else IntToDecimal(d.fieldNumber)
  }

  /** `CreateError`: a node showing only a message. */
  function CreateError(message: string): (d: DisplayNode)
    ensures IsError(d) && !IsArrayGroup(d) && !IsRepeated(d)
    ensures d.labelText == message && d.summary == message && d.path == "" && d.fieldNumber == -1
  {
    DisplayNode(message, None, "", [], -1, Varint, message, "")
  }

  /** `CreateArrayGroup`: the node holding the occurrences of a repeated field. */
  function ArrayGroup(f: int, wireType: WireType, path: string, children: seq<DisplayNode>, totalLength: int): (d: DisplayNode)
    ensures IsArrayGroup(d) <==> |children| > 0
    ensures !IsError(d) <==> |children| > 0
  {
    DisplayNode("#" + IntToDecimal(f) + " 数组", None, path, children, f, wireType,
                "数组 · " + IntToDecimal(|children|) + " 个元素 · 长度 " + IntToDecimal(totalLength), "")
  }

  // ---------------------------------------------------------------------------
  // Grouping
  // ---------------------------------------------------------------------------

  /** The field numbers of `nodes`, each once, in order of first appearance. */
  function FieldOrder(nodes: seq<ProtoNode>): (order: seq<int>)
  {
    if nodes == [] then []
    else
      var prev := FieldOrder(nodes[..|nodes| - 1]);
      var f := nodes[|nodes| - 1].fieldNumber;
      if f in prev then prev else prev + [f]
  }

  /** The nodes with field number `f`, in their order in `nodes`. */
  function Occurrences(nodes: seq<ProtoNode>, f: int): (items: seq<ProtoNode>)
  {
    if nodes == [] then []
    else
      var last := nodes[|nodes| - 1];
      Occurrences(nodes[..|nodes| - 1], f) + (if last.fieldNumber == f then [last] else [])
  }

  /** The order lists every field number of `nodes` exactly once, and no other. */
  lemma {:induction false} FieldOrderFacts(nodes: seq<ProtoNode>)
    ensures forall i, j :: 0 <= i < j < |FieldOrder(nodes)| ==> FieldOrder(nodes)[i] != FieldOrder(nodes)[j]
    ensures forall f :: f in FieldOrder(nodes) <==> exists k :: 0 <= k < |nodes| && nodes[k].fieldNumber == f
    ensures |FieldOrder(nodes)| <= |nodes|
  {
    if nodes != [] {
      var init := nodes[..|nodes| - 1];
      FieldOrderFacts(init);
      assert forall k :: 0 <= k < |init| ==> init[k] == nodes[k];
    }
  }

  /** The occurrences of `f` are nodes of `nodes` with field number `f`, and there are some exactly when `f` occurs. */
  lemma {:induction false} OccurrencesFacts(nodes: seq<ProtoNode>, f: int)
    ensures forall x :: x in Occurrences(nodes, f) ==> x in nodes && x.fieldNumber == f
    ensures |Occurrences(nodes, f)| > 0 <==> exists k :: 0 <= k < |nodes| && nodes[k].fieldNumber == f
    ensures |Occurrences(nodes, f)| > 0 <==> f in FieldOrder(nodes)
  {
    FieldOrderFacts(nodes);
    if nodes != [] {
      var init := nodes[..|nodes| - 1];
      OccurrencesFacts(init, f);
      assert forall k :: 0 <= k < |init| ==> init[k] == nodes[k];
      assert forall x :: x in init ==> x in nodes;
    }
  }

  /** The bytes of all the values, added up. */
  function TotalLength(items: seq<ProtoNode>): nat
  {
    if items == [] then 0 else TotalLength(items[..|items| - 1]) + |items[|items| - 1].rawValue|
  }

  // ---------------------------------------------------------------------------
  // The display tree, as a function of the decoded fields
  // ---------------------------------------------------------------------------

  /** The display node of one decoded field at `path`. */
  function DisplayOf(n: ProtoNode, path: string, utf8: seq<byte> -> string): DisplayNode
    requires Displayable(n)
    decreases n
  {
    var children := if HasChildren(n) then DisplayList(n.children.nodes, path, utf8) else [];
    DisplayNode(Label(n, utf8), Some(n), path, children, n.fieldNumber, n.wireType, Summary(n, utf8), RawPreview(n))
  }

  /** The display nodes of the fields of one message under `parent`: one per distinct field number. */
  function DisplayList(nodes: seq<ProtoNode>, parent: string, utf8: seq<byte> -> string): seq<DisplayNode>
    requires forall c :: c in nodes ==> Displayable(c)
    decreases nodes, 3
  {
    Groups(nodes, parent, utf8, |FieldOrder(nodes)|)
  }

  /** The display nodes of the first `j` field numbers in order of first appearance. */
  function Groups(nodes: seq<ProtoNode>, parent: string, utf8: seq<byte> -> string, j: nat): (gs: seq<DisplayNode>)
    requires forall c :: c in nodes ==> Displayable(c)
    requires j <= |FieldOrder(nodes)|
    ensures |gs| == j
    decreases nodes, 2, j
  {
    if j == 0 then []
    else Groups(nodes, parent, utf8, j - 1) + [GroupOf(nodes, parent, utf8, FieldOrder(nodes)[j - 1])]
  }

  /** The display node of field number `f`: the node itself when it occurs once, else an array group. */
  function GroupOf(nodes: seq<ProtoNode>, parent: string, utf8: seq<byte> -> string, f: int): DisplayNode
    requires forall c :: c in nodes ==> Displayable(c)
    requires f in FieldOrder(nodes)
    decreases nodes, 1
  {
    var items := Occurrences(nodes, f);
    var basePath := ComposePath(parent, IntToDecimal(f));
    OccurrencesFacts(nodes, f);
    assert items[0] in items;
    if |items| == 1 then DisplayOf(items[0], basePath, utf8)
    else ArrayGroup(f, items[0].wireType, basePath, Elements(nodes, items, parent, utf8, f, |items|), TotalLength(items))
  }

  /**
   * The display nodes of the first `k` of `items`, the occurrences of field
   * `f`: the i-th at path segment "f[i]". (`nodes` holds the items; it only
   * bounds the recursion.)
   */
  function Elements(nodes: seq<ProtoNode>, items: seq<ProtoNode>, parent: string, utf8: seq<byte> -> string, f: int, k: nat): (es: seq<DisplayNode>)
    requires forall c :: c in items ==> c in nodes && Displayable(c)
    requires k <= |items|
    ensures |es| == k
    decreases nodes, 0, k
  {
    if k == 0 then []
    else
      assert items[k - 1] in items;
      Elements(nodes, items, parent, utf8, f, k - 1) + [DisplayOf(items[k - 1], ComposePath(parent, ElementSegment(f, k)), utf8)]
  }

  // ---------------------------------------------------------------------------
  // Building the tree
  // ---------------------------------------------------------------------------

  /** `FromNodes`: the display nodes of the top-level fields, under the empty path. */
  method FromNodes(nodes: seq<ProtoNode>, utf8: seq<byte> -> string) returns (result: seq<DisplayNode>)
    requires forall c :: c in nodes ==> Displayable(c)
    ensures result == DisplayList(nodes, "", utf8)
  {
    result := BuildDisplayNodes(nodes, "", utf8);
  }

  /** The display node constructor from a decoded field and its path. */
  method NewDisplayNode(n: ProtoNode, path: string, utf8: seq<byte> -> string) returns (d: DisplayNode)
    requires Displayable(n)
    ensures d == DisplayOf(n, path, utf8)
    decreases n
  {
    var children: seq<DisplayNode> := [];
    if HasChildren(n) {
      children := BuildDisplayNodes(n.children.nodes, path, utf8);
    }
    d := DisplayNode(Label(n, utf8), Some(n), path, children, n.fieldNumber, n.wireType, Summary(n, utf8), RawPreview(n));
  }

  /**
   * `BuildDisplayNodes`: first collects the field numbers in order of first
   * appearance and the nodes of each, then builds one display node per field
   * number.
   */
  method BuildDisplayNodes(nodes: seq<ProtoNode>, parent: string, utf8: seq<byte> -> string) returns (result: seq<DisplayNode>)
    requires forall c :: c in nodes ==> Displayable(c)
    ensures result == DisplayList(nodes, parent, utf8)
    decreases nodes, 1
  {
    if |nodes| == 0 {
      return [];
    }
    var order, grouped := GroupByField(nodes);
    result := [];
    var j := 0;
    while j < |order|
      invariant j <= |order|
      invariant result == Groups(nodes, parent, utf8, j)
    {
      var fieldNumber := order[j];
      var items := grouped[fieldNumber];
      var fieldSegment := IntToDecimal(fieldNumber);
      var basePath := ComposePath(parent, fieldSegment);
      OccurrencesFacts(nodes, fieldNumber);
      assert items[0] in items;
      if |items| == 1 {
        var d := NewDisplayNode(items[0], basePath, utf8);
        result := result + [d];
      } else {
        var children, totalLength := BuildElements(nodes, parent, utf8, fieldNumber, items);
        result := result + [ArrayGroup(fieldNumber, items[0].wireType, basePath, children, totalLength)];
      }
      j := j + 1;
    }
  }

  /**
   * The first loop of `BuildDisplayNodes`: the field numbers in order of first
   * appearance, and for each the list of its nodes.
   */
  method GroupByField(nodes: seq<ProtoNode>) returns (order: seq<int>, grouped: map<int, seq<ProtoNode>>)
    ensures order == FieldOrder(nodes)
    ensures forall f :: f in grouped <==> f in order
    ensures forall f :: f in grouped ==> grouped[f] == Occurrences(nodes, f)
  {
    order := [];
    grouped := map[];
    var i := 0;
    while i < |nodes|
      invariant i <= |nodes|
      invariant order == FieldOrder(nodes[..i])
      invariant forall f :: f in grouped <==> f in order
      invariant forall f :: f in grouped ==> grouped[f] == Occurrences(nodes[..i], f)
    {
      var child := nodes[i];
      assert nodes[..i + 1][..i] == nodes[..i];
      OccurrencesFacts(nodes[..i], child.fieldNumber);
      if child.fieldNumber !in grouped {
        grouped := grouped[child.fieldNumber := []];
        order := order + [child.fieldNumber];
      }
      grouped := grouped[child.fieldNumber := grouped[child.fieldNumber] + [child]];
      i := i + 1;
    }
    assert nodes[..i] == nodes;
  }

  /**
   * The inner loop of `BuildDisplayNodes`: one display node per occurrence of
   * a repeated field, and the total length of their values.
   */
  method BuildElements(nodes: seq<ProtoNode>, parent: string, utf8: seq<byte> -> string, fieldNumber: int, items: seq<ProtoNode>)
    returns (children: seq<DisplayNode>, totalLength: int)
    requires forall c :: c in items ==> c in nodes && Displayable(c)
    ensures children == Elements(nodes, items, parent, utf8, fieldNumber, |items|)
    ensures totalLength == TotalLength(items)
    decreases nodes, 0
  {
    children := [];
    totalLength := 0;
    var index := 0;
    while index < |items|
      invariant index <= |items|
      invariant children == Elements(nodes, items, parent, utf8, fieldNumber, index)
      invariant totalLength == TotalLength(items[..index])
    {
      var elementPath := ComposePath(parent, ElementSegment(fieldNumber, index + 1));
      assert items[index] in items;
      var d := NewDisplayNode(items[index], elementPath, utf8);
      ElementsStep(nodes, items, parent, utf8, fieldNumber, index);
      children := children + [d];
      TotalLengthStep(items, index);
      totalLength := totalLength + |items[index].rawValue|;
      index := index + 1;
    }
    assert items[..index] == items;
  }

  /** Helper: the total length of one more item. */
  lemma TotalLengthStep(items: seq<ProtoNode>, k: nat)
    requires k < |items|
    ensures TotalLength(items[..k + 1]) == TotalLength(items[..k]) + |items[k].rawValue|
  {
    assert items[..k + 1][..k] == items[..k];
  }

  /** Helper: one more element is the display node of the next occurrence. */
  lemma ElementsStep(nodes: seq<ProtoNode>, items: seq<ProtoNode>, parent: string, utf8: seq<byte> -> string, f: int, k: nat)
    requires forall c :: c in items ==> c in nodes && Displayable(c)
    requires k < |items|
    ensures Displayable(items[k])
    ensures Elements(nodes, items, parent, utf8, f, k + 1)
            == Elements(nodes, items, parent, utf8, f, k) + [DisplayOf(items[k], ComposePath(parent, ElementSegment(f, k + 1)), utf8)]
  {
    assert items[k] in items;
  }
}
