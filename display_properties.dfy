/**
 * What the display tree promises about the decoded fields it shows: one node
 * per distinct field number in order of first appearance, an array group
 * exactly for a field that occurs more than once, the i-th occurrence shown
 * as "f[i]", and every decoded field shown exactly once.
 */
module DisplayProperties {
  import opened Numeric
  import opened Results
  import opened Text
  import opened WireTypes
  import opened ProtoNodes
  import opened DisplayText
  import opened DisplayPaths
  import opened DisplayTree

  /** Helper: group `i` of the first `j` is the group of the `i`-th field number. */
  lemma {:induction false} GroupAt(nodes: seq<ProtoNode>, parent: string, utf8: seq<byte> -> string, j: nat, i: nat)
    requires forall c :: c in nodes ==> Displayable(c)
    requires i < j <= |FieldOrder(nodes)|
    ensures Groups(nodes, parent, utf8, j)[i] == GroupOf(nodes, parent, utf8, FieldOrder(nodes)[i])
  {
    var prefix := Groups(nodes, parent, utf8, j - 1);
    var last := GroupOf(nodes, parent, utf8, FieldOrder(nodes)[j - 1]);
    assert Groups(nodes, parent, utf8, j) == prefix + [last];
    if i < j - 1 {
      GroupAt(nodes, parent, utf8, j - 1, i);
      assert (prefix + [last])[i] == prefix[i];
    }
  }

  /**
   * The display list has one node per distinct field number, in order of first
   * appearance, and the node of field number `f` is its group.
   */
  lemma DisplayListGroups(nodes: seq<ProtoNode>, parent: string, utf8: seq<byte> -> string)
    requires forall c :: c in nodes ==> Displayable(c)
    ensures |DisplayList(nodes, parent, utf8)| == |FieldOrder(nodes)|
    ensures forall j :: 0 <= j < |FieldOrder(nodes)| ==>
              DisplayList(nodes, parent, utf8)[j] == GroupOf(nodes, parent, utf8, FieldOrder(nodes)[j])
  {
    var order := FieldOrder(nodes);
    forall j | 0 <= j < |order|
      ensures DisplayList(nodes, parent, utf8)[j] == GroupOf(nodes, parent, utf8, order[j])
    {
      GroupAt(nodes, parent, utf8, |order|, j);
    }
  }

  /**
   * The node of field number `f` under `parent` is at path "parent.f", never
   * an error node, and an array group exactly when `f` occurs more than once;
   * every occurrence of `f` is a displayable node of `nodes`.
   */
  lemma GroupShape(nodes: seq<ProtoNode>, parent: string, utf8: seq<byte> -> string, f: int)
    requires forall c :: c in nodes ==> Displayable(c)
    requires f in FieldOrder(nodes)
    ensures var g, items := GroupOf(nodes, parent, utf8, f), Occurrences(nodes, f);
            && |items| > 0
            && (forall x :: x in items ==> x in nodes && x.fieldNumber == f && Displayable(x))
            && g.fieldNumber == f && g.path == ComposePath(parent, IntToDecimal(f)) && !IsError(g)
            && (IsArrayGroup(g) <==> |items| > 1)
            && (IsArrayGroup(g) ==> |g.children| == |items| && FieldDisplay(g) == "[" + IntToDecimal(|items|) + "]")
  {
    var items := Occurrences(nodes, f);
    OccurrencesFacts(nodes, f);
    assert items[0] in items;
    if |items| == 1 {
      DisplayOfShowsField(items[0], ComposePath(parent, IntToDecimal(f)), utf8);
    }
  }

  /** A field that occurs once is shown by the display node of that field, at path "parent.f". */
  lemma SingleGroup(nodes: seq<ProtoNode>, parent: string, utf8: seq<byte> -> string, f: int)
    requires forall c :: c in nodes ==> Displayable(c)
    requires |Occurrences(nodes, f)| == 1
    ensures f in FieldOrder(nodes) && Occurrences(nodes, f)[0] in nodes && Displayable(Occurrences(nodes, f)[0])
    ensures GroupOf(nodes, parent, utf8, f) == DisplayOf(Occurrences(nodes, f)[0], ComposePath(parent, IntToDecimal(f)), utf8)
  {
    OccurrencesFacts(nodes, f);
    assert Occurrences(nodes, f)[0] in Occurrences(nodes, f);
  }

  /**
   * A field that occurs several times is shown by an array group: no field of
   * its own, the wire type of its first occurrence, and a summary giving the
   * number of occurrences and the sum of their own value lengths.
   */
  lemma ArrayGroupShape(nodes: seq<ProtoNode>, parent: string, utf8: seq<byte> -> string, f: int)
    requires forall c :: c in nodes ==> Displayable(c)
    requires |Occurrences(nodes, f)| > 1
    ensures f in FieldOrder(nodes)
    ensures var g, items := GroupOf(nodes, parent, utf8, f), Occurrences(nodes, f);
            && g.node.None? && IsArrayGroup(g) && g.rawPreview == ""
            && g.wireType == items[0].wireType
            && g.labelText == "#" + IntToDecimal(f) + " 数组"
            && g.summary == "数组 · " + IntToDecimal(|items|) + " 个元素 · 长度 " + IntToDecimal(TotalLength(items))
  {
    OccurrencesFacts(nodes, f);
  }

  /** The `i`-th element of the array group of `f` is the display node of its `i`-th occurrence, at path "parent.f[i]". */
  lemma ArrayElement(nodes: seq<ProtoNode>, parent: string, utf8: seq<byte> -> string, f: int, i: nat)
    requires forall c :: c in nodes ==> Displayable(c)
    requires 1 < |Occurrences(nodes, f)| && i < |Occurrences(nodes, f)|
    ensures f in FieldOrder(nodes) && Occurrences(nodes, f)[i] in nodes && Displayable(Occurrences(nodes, f)[i])
    ensures |GroupOf(nodes, parent, utf8, f).children| == |Occurrences(nodes, f)|
    ensures GroupOf(nodes, parent, utf8, f).children[i]
            == DisplayOf(Occurrences(nodes, f)[i], ComposePath(parent, ElementSegment(f, i + 1)), utf8)
  {
    var items := Occurrences(nodes, f);
    OccurrencesFacts(nodes, f);
    assert items[i] in items;
    ElementAt(nodes, items, parent, utf8, f, |items|, i);
    ElementsStep(nodes, items, parent, utf8, f, i);
  }

  /** Helper: element `i` of the first `k` is element `i` of the first `i + 1`. */
  lemma {:induction false} ElementAt(nodes: seq<ProtoNode>, items: seq<ProtoNode>, parent: string, utf8: seq<byte> -> string, f: int, k: nat, i: nat)
    requires forall c :: c in items ==> c in nodes && Displayable(c)
    requires i < k <= |items|
    ensures Elements(nodes, items, parent, utf8, f, k)[i] == Elements(nodes, items, parent, utf8, f, i + 1)[i]
  {
    if i < k - 1 {
      var prefix := Elements(nodes, items, parent, utf8, f, k - 1);
      ElementAt(nodes, items, parent, utf8, f, k - 1, i);
      assert Elements(nodes, items, parent, utf8, f, k)[..k - 1] == prefix;
    }
  }

  /** The display node of a decoded field shows that field: it is neither an error node nor an array group. */
  lemma DisplayOfShowsField(n: ProtoNode, path: string, utf8: seq<byte> -> string)
    requires Displayable(n)
    ensures var d := DisplayOf(n, path, utf8);
            && d.node == Some(n) && d.fieldNumber == n.fieldNumber && d.wireType == n.wireType && d.path == path
            && !IsError(d) && !IsArrayGroup(d)
            && (HasChildren(n) <==> |d.children| > 0)
  {
    if HasChildren(n) {
      var cs := n.children.nodes;
      FieldOrderFacts(cs);
      assert cs[0].fieldNumber in FieldOrder(cs);
      DisplayListGroups(cs, path, utf8);
    }
  }

  /** A field that occurs once is shown by its field number alone, and is not repeated. */
  lemma SingleFieldDisplay(nodes: seq<ProtoNode>, parent: string, utf8: seq<byte> -> string, f: int)
    requires forall c :: c in nodes ==> Displayable(c)
    requires |Occurrences(nodes, f)| == 1
    ensures f in FieldOrder(nodes)
    ensures !IsRepeated(GroupOf(nodes, parent, utf8, f)) && FieldDisplay(GroupOf(nodes, parent, utf8, f)) == IntToDecimal(f)
  {
    SingleGroup(nodes, parent, utf8, f);
    var n := Occurrences(nodes, f)[0];
    OccurrencesFacts(nodes, f);
    DisplayOfShowsField(n, ComposePath(parent, IntToDecimal(f)), utf8);
    ShownAsField(GroupOf(nodes, parent, utf8, f), parent);
  }

  /** Helper: a node that is not an array group, at segment "f" under `parent`, is shown as "f". */
  lemma ShownAsField(d: DisplayNode, parent: string)
    requires !IsArrayGroup(d) && d.path == ComposePath(parent, IntToDecimal(d.fieldNumber))
    ensures !IsRepeated(d) && FieldDisplay(d) == IntToDecimal(d.fieldNumber)
  {
    FieldSegment(d.fieldNumber);
    LastSegmentOfComposed(parent, IntToDecimal(d.fieldNumber));
  }

  /**
   * The `i`-th element of a repeated field's array group is repeated, has
   * occurrence index `i` (counting from one), and is shown as "f[i]".
   */
  lemma ElementFieldDisplay(nodes: seq<ProtoNode>, parent: string, utf8: seq<byte> -> string, f: int, i: nat)
    requires forall c :: c in nodes ==> Displayable(c)
    requires 1 < |Occurrences(nodes, f)| && i < |Occurrences(nodes, f)| && |nodes| <= INT32_MAX
    ensures f in FieldOrder(nodes) && |GroupOf(nodes, parent, utf8, f).children| == |Occurrences(nodes, f)|
    ensures var e := GroupOf(nodes, parent, utf8, f).children[i];
            IsRepeated(e) && Occurrence(e) == i + 1 && FieldDisplay(e) == ElementSegment(f, i + 1)
  {
    ArrayElement(nodes, parent, utf8, f, i);
    OccurrencesCount(nodes, f);
    OccurrencesFacts(nodes, f);
    var n := Occurrences(nodes, f)[i];
    assert n in Occurrences(nodes, f);
    DisplayOfShowsField(n, ComposePath(parent, ElementSegment(f, i + 1)), utf8);
    ShownAsElement(GroupOf(nodes, parent, utf8, f).children[i], parent, i + 1);
  }

  /** Helper: a node that is not an array group, at segment "f[k]" under `parent`, is occurrence `k` shown as "f[k]". */
  lemma ShownAsElement(d: DisplayNode, parent: string, k: int)
    requires 1 <= k <= INT32_MAX
    requires !IsArrayGroup(d) && d.path == ComposePath(parent, ElementSegment(d.fieldNumber, k))
    ensures IsRepeated(d) && Occurrence(d) == k && FieldDisplay(d) == ElementSegment(d.fieldNumber, k)
  {
    ElementSegmentIndex(d.fieldNumber, k);
    LastSegmentOfComposed(parent, ElementSegment(d.fieldNumber, k));
  }

  /** Helper: a field has no more occurrences than there are nodes. */
  lemma {:induction false} OccurrencesCount(nodes: seq<ProtoNode>, f: int)
    ensures |Occurrences(nodes, f)| <= |nodes|
  {
    if nodes != [] {
      OccurrencesCount(nodes[..|nodes| - 1], f);
    }
  }

  // ---------------------------------------------------------------------------
  // Every decoded field is shown exactly once
  // ---------------------------------------------------------------------------

  /** The decoded fields that display nodes stand for, in their order; error nodes and array groups stand for none. */
  function NodesOf(ds: seq<DisplayNode>): seq<ProtoNode>
  {
    if ds == [] then []
    else NodesOf(ds[..|ds| - 1]) + (if ds[|ds| - 1].node.Some? then [ds[|ds| - 1].node.value] else [])
  }

  /** The decoded fields a display node shows directly: the elements of an array group, else its own field. */
  function Shown(d: DisplayNode): seq<ProtoNode>
  {
    if IsArrayGroup(d) then NodesOf(d.children) else NodesOf([d])
  }

  /** The decoded fields the display nodes `ds` show directly, in order. */
  function ShownList(ds: seq<DisplayNode>): seq<ProtoNode>
  {
    if ds == [] then [] else ShownList(ds[..|ds| - 1]) + Shown(ds[|ds| - 1])
  }

  /** The occurrences of each of the field numbers `fs` in turn. */
  function OccurrencesOf(nodes: seq<ProtoNode>, fs: seq<int>): seq<ProtoNode>
  {
    if fs == [] then [] else OccurrencesOf(nodes, fs[..|fs| - 1]) + Occurrences(nodes, fs[|fs| - 1])
  }

  /**
   * Every decoded field of a message is shown exactly once at the top of its
   * display list: the fields shown, taking the elements of each array group,
   * are the decoded fields with their multiplicities, so as many as there are.
   */
  lemma EveryFieldShownOnce(nodes: seq<ProtoNode>, parent: string, utf8: seq<byte> -> string)
    requires forall c :: c in nodes ==> Displayable(c)
    ensures multiset(ShownList(DisplayList(nodes, parent, utf8))) == multiset(nodes)
    ensures |ShownList(DisplayList(nodes, parent, utf8))| == |nodes|
  {
    var order := FieldOrder(nodes);
    GroupsShown(nodes, parent, utf8, |order|);
    assert order[..|order|] == order;
    OccurrencesPartition(nodes);
    assert |multiset(ShownList(DisplayList(nodes, parent, utf8)))| == |ShownList(DisplayList(nodes, parent, utf8))|;
  }

  /** Helper: the first `j` groups show the occurrences of the first `j` field numbers, in that order. */
  lemma {:induction false} GroupsShown(nodes: seq<ProtoNode>, parent: string, utf8: seq<byte> -> string, j: nat)
    requires forall c :: c in nodes ==> Displayable(c)
    requires j <= |FieldOrder(nodes)|
    ensures ShownList(Groups(nodes, parent, utf8, j)) == OccurrencesOf(nodes, FieldOrder(nodes)[..j])
  {
    if j > 0 {
      var order := FieldOrder(nodes);
      var prefix := Groups(nodes, parent, utf8, j - 1);
      var g := GroupOf(nodes, parent, utf8, order[j - 1]);
      GroupsShown(nodes, parent, utf8, j - 1);
      assert Groups(nodes, parent, utf8, j) == prefix + [g];
      ShownListAppend(prefix, g);
      GroupShown(nodes, parent, utf8, order[j - 1]);
      OccurrencesOfPrefix(nodes, order, j);
    }
  }

  /** The group of `f` shows exactly the occurrences of `f`, in stream order. */
  lemma GroupShown(nodes: seq<ProtoNode>, parent: string, utf8: seq<byte> -> string, f: int)
    requires forall c :: c in nodes ==> Displayable(c)
    requires f in FieldOrder(nodes)
    ensures Shown(GroupOf(nodes, parent, utf8, f)) == Occurrences(nodes, f)
  {
    OccurrencesFacts(nodes, f);
    if |Occurrences(nodes, f)| == 1 {
      SingleShown(nodes, parent, utf8, f);
    } else {
      ArrayShown(nodes, parent, utf8, f);
    }
  }

  /** Helper: the group of a field seen once shows that one occurrence. */
  lemma SingleShown(nodes: seq<ProtoNode>, parent: string, utf8: seq<byte> -> string, f: int)
    requires forall c :: c in nodes ==> Displayable(c)
    requires |Occurrences(nodes, f)| == 1
    ensures f in FieldOrder(nodes)
    ensures Shown(GroupOf(nodes, parent, utf8, f)) == Occurrences(nodes, f)
  {
    var n := Occurrences(nodes, f)[0];
    SingleGroup(nodes, parent, utf8, f);
    DisplayOfShowsField(n, ComposePath(parent, IntToDecimal(f)), utf8);
    NodesOfAppend([], GroupOf(nodes, parent, utf8, f));
    assert Occurrences(nodes, f) == [n];
  }

  /** Helper: the group of a repeated field shows its occurrences through its elements. */
  lemma ArrayShown(nodes: seq<ProtoNode>, parent: string, utf8: seq<byte> -> string, f: int)
    requires forall c :: c in nodes ==> Displayable(c)
    requires |Occurrences(nodes, f)| > 1
    ensures f in FieldOrder(nodes)
    ensures Shown(GroupOf(nodes, parent, utf8, f)) == Occurrences(nodes, f)
  {
    var items := Occurrences(nodes, f);
    ArrayChildren(nodes, parent, utf8, f);
    ElementsShown(nodes, items, parent, utf8, f, |items|);
    assert items[..|items|] == items;
  }

  /** Helper: the children of an array group are the elements of all its items. */
  lemma ArrayChildren(nodes: seq<ProtoNode>, parent: string, utf8: seq<byte> -> string, f: int)
    requires forall c :: c in nodes ==> Displayable(c)
    requires |Occurrences(nodes, f)| > 1
    ensures f in FieldOrder(nodes)
    ensures forall c :: c in Occurrences(nodes, f) ==> c in nodes && Displayable(c)
    ensures IsArrayGroup(GroupOf(nodes, parent, utf8, f))
    ensures GroupOf(nodes, parent, utf8, f).children
            == Elements(nodes, Occurrences(nodes, f), parent, utf8, f, |Occurrences(nodes, f)|)
  {
    OccurrencesFacts(nodes, f);
  }

  /** Helper: the first `k` elements stand for the first `k` items. */
  lemma {:induction false} ElementsShown(nodes: seq<ProtoNode>, items: seq<ProtoNode>, parent: string, utf8: seq<byte> -> string, f: int, k: nat)
    requires forall c :: c in items ==> c in nodes && Displayable(c)
    requires k <= |items|
    ensures NodesOf(Elements(nodes, items, parent, utf8, f, k)) == items[..k]
  {
    if k > 0 {
      ElementsShown(nodes, items, parent, utf8, f, k - 1);
      LastElement(nodes, items, parent, utf8, f, k);
      NodesOfStep(Elements(nodes, items, parent, utf8, f, k), items, k);
    }
  }

  /** Helper: the last of the first `k` elements stands for item `k - 1`, after the first `k - 1` elements. */
  lemma LastElement(nodes: seq<ProtoNode>, items: seq<ProtoNode>, parent: string, utf8: seq<byte> -> string, f: int, k: nat)
    requires forall c :: c in items ==> c in nodes && Displayable(c)
    requires 0 < k <= |items|
    ensures var es := Elements(nodes, items, parent, utf8, f, k);
            es[..k - 1] == Elements(nodes, items, parent, utf8, f, k - 1) && es[k - 1].node == Some(items[k - 1])
  {
    ElementsStep(nodes, items, parent, utf8, f, k - 1);
    DisplayOfShowsField(items[k - 1], ComposePath(parent, ElementSegment(f, k)), utf8);
  }

  /** Helper: display nodes whose front stands for the first `k - 1` items and whose last node for the next stand for the first `k`. */
  lemma NodesOfStep(es: seq<DisplayNode>, items: seq<ProtoNode>, k: nat)
    requires 0 < k == |es| <= |items| && NodesOf(es[..k - 1]) == items[..k - 1] && es[k - 1].node == Some(items[k - 1])
    ensures NodesOf(es) == items[..k]
  {
    assert items[..k] == items[..k - 1] + [items[k - 1]];
  }

  lemma NodesOfAppend(ds: seq<DisplayNode>, d: DisplayNode)
    ensures NodesOf(ds + [d]) == NodesOf(ds) + (if d.node.Some? then [d.node.value] else [])
  {
    assert (ds + [d])[..|ds|] == ds;
  }

  lemma ShownListAppend(ds: seq<DisplayNode>, d: DisplayNode)
    ensures ShownList(ds + [d]) == ShownList(ds) + Shown(d)
  {
    assert (ds + [d])[..|ds|] == ds;
  }

  lemma OccurrencesOfPrefix(nodes: seq<ProtoNode>, fs: seq<int>, j: nat)
    requires 0 < j <= |fs|
    ensures OccurrencesOf(nodes, fs[..j]) == OccurrencesOf(nodes, fs[..j - 1]) + Occurrences(nodes, fs[j - 1])
  {
    assert fs[..j][..j - 1] == fs[..j - 1];
  }

  /**
   * The occurrences of the field numbers in order of first appearance are a
   * rearrangement of the decoded fields: grouping loses and repeats none.
   */
  lemma {:induction false} OccurrencesPartition(nodes: seq<ProtoNode>)
    ensures multiset(OccurrencesOf(nodes, FieldOrder(nodes))) == multiset(nodes)
  {
    if nodes != [] {
      var init, x := nodes[..|nodes| - 1], nodes[|nodes| - 1];
      assert nodes == init + [x];
      var prev := FieldOrder(init);
      OccurrencesPartition(init);
      FieldOrderFacts(init);
      OccurrencesOfStep(init, x, prev);
      if x.fieldNumber !in prev {
        var order := prev + [x.fieldNumber];
        assert order[..|order| - 1] == prev;
        OccurrencesFacts(init, x.fieldNumber);
        assert Occurrences(init, x.fieldNumber) == [];
      }
    }
  }

  /** Helper: appending a node adds it once to the occurrences of distinct field numbers that include its own. */
  lemma {:induction false} OccurrencesOfStep(init: seq<ProtoNode>, x: ProtoNode, fs: seq<int>)
    requires forall i, j :: 0 <= i < j < |fs| ==> fs[i] != fs[j]
    ensures multiset(OccurrencesOf(init + [x], fs))
            == multiset(OccurrencesOf(init, fs)) + (if x.fieldNumber in fs then multiset{x} else multiset{})
  {
    var nodes := init + [x];
    assert nodes[..|nodes| - 1] == init;
    if fs != [] {
      var prefix, f := fs[..|fs| - 1], fs[|fs| - 1];
      OccurrencesOfStep(init, x, prefix);
      assert x.fieldNumber in fs <==> x.fieldNumber in prefix || x.fieldNumber == f;
      assert f !in prefix;
    }
  }

  // ---------------------------------------------------------------------------
  // Order of first appearance
  // ---------------------------------------------------------------------------

  /**
   * The field numbers come in order of first appearance: wherever a later one
   * occurs, an earlier one has already occurred before it.
   */
  lemma {:induction false} FieldOrderFirstSeen(nodes: seq<ProtoNode>, i: nat, j: nat, k: nat)
    requires i < j < |FieldOrder(nodes)| && k < |nodes| && nodes[k].fieldNumber == FieldOrder(nodes)[j]
    ensures exists m :: 0 <= m < k && nodes[m].fieldNumber == FieldOrder(nodes)[i]
  {
    var init := nodes[..|nodes| - 1];
    var prev := FieldOrder(init);
    FieldOrderFacts(init);
    FieldOrderFacts(nodes);
    if k == |nodes| - 1 {
      if j < |prev| {
        assert prev[j] == FieldOrder(nodes)[j] && prev[j] in prev;
        var m :| 0 <= m < |init| && init[m].fieldNumber == prev[j];
        FieldOrderFirstSeen(init, i, j, m);
        var m' :| 0 <= m' < m && init[m'].fieldNumber == prev[i];
        assert nodes[m'] == init[m'];
      } else {
        assert prev[i] == FieldOrder(nodes)[i] && prev[i] in prev;
        var m :| 0 <= m < |init| && init[m].fieldNumber == prev[i];
        assert nodes[m] == init[m];
      }
    } else {
      assert nodes[k] == init[k];
      assert j < |prev| by {
        assert FieldOrder(nodes)[j] in prev;
      }
      assert prev[i] == FieldOrder(nodes)[i] && prev[j] == FieldOrder(nodes)[j];
      FieldOrderFirstSeen(init, i, j, k);
      var m :| 0 <= m < k && init[m].fieldNumber == prev[i];
      assert nodes[m] == init[m];
    }
  }

  // ---------------------------------------------------------------------------
  // Example
  // ---------------------------------------------------------------------------

  /** The fields of the mixed case of the display tests: field 1, field 2, field 1 again, all varints. */
  function MixedNodes(): seq<ProtoNode>
  {
    [ProtoNode(1, Varint, [0x01], Absent), ProtoNode(2, Varint, [0x05], Absent), ProtoNode(1, Varint, [0x02], Absent)]
  }

  /** Helper: the mixed case groups into field 1 (twice) and field 2 (once). */
  lemma MixedGrouping()
    ensures FieldOrder(MixedNodes()) == [1, 2]
    ensures |Occurrences(MixedNodes(), 1)| == 2 && |Occurrences(MixedNodes(), 2)| == 1
    ensures forall c :: c in MixedNodes() ==> Displayable(c)
  {
    var nodes := MixedNodes();
    var x, y, z := nodes[0], nodes[1], nodes[2];
    assert nodes[..|nodes| - 1] == [x, y];
    assert [x, y][..1] == [x];
    assert [x][..0] == [];
    assert FieldOrder([x]) == [1];
    assert FieldOrder([x, y]) == [1, 2];
    assert |Occurrences([x, y], 1)| == 1 && |Occurrences([x, y], 2)| == 1 by {
      var none: seq<ProtoNode> := [];
      assert Occurrences(none, 1) == [] && Occurrences(none, 2) == [];
      assert |Occurrences([x], 1)| == 1 && |Occurrences([x], 2)| == 0;
    }
  }

  /**
   * The mixed case of the display tests: fields 1, 2, 1 give two display
   * nodes, an array group of the two occurrences of field 1, then field 2.
   */
  lemma MixedRepeatedAndSingle(utf8: seq<byte> -> string)
    ensures forall c :: c in MixedNodes() ==> Displayable(c)
    ensures var ds := DisplayList(MixedNodes(), "", utf8);
            && |ds| == 2
            && ds[0].fieldNumber == 1 && IsArrayGroup(ds[0]) && |ds[0].children| == 2
            && ds[1].fieldNumber == 2 && !IsArrayGroup(ds[1])
  {
    MixedGrouping();
    DisplayListGroups(MixedNodes(), "", utf8);
    GroupShape(MixedNodes(), "", utf8, 1);
    GroupShape(MixedNodes(), "", utf8, 2);
  }
}
