/**
 * The paths of display nodes: dot-separated segments, one per nesting level,
 * where a segment is a field number, followed by "[i]" for the i-th
 * occurrence of a repeated field.
 */
module DisplayPaths {
  import opened Numeric
  import opened Results
  import opened Text

  /** `ComposePath`: the segment alone under the root (an empty parent), else appended after a dot. */
  function ComposePath(parent: string, segment: string): (path: string)
    ensures parent == "" ==> path == segment
    ensures parent != "" ==> path == parent + "." + segment
  {
    if parent == "" then segment else parent + "." + segment
  }

  /** `GetLastSegment`: what follows the last dot, or the whole path when it has none. */
  function LastSegment(path: string): (segment: string)
  {
    if path == "" then path
    else
      var lastDot := LastIndexOf(path, '.');
      if lastDot >= 0 then path[lastDot + 1..] else path
  }

  /**
   * `TryGetOccurrenceIndexFromSegment`: the integer between the first "[" and
   * the first "]" after it, when both are there and it parses as an `int`.
   */
  function OccurrenceIndex(segment: string): (r: Option<int>)
  {
    if segment == "" then None
    else
      var start := IndexOf(segment, '[', 0);
      if start < 0 then None
      else
        var end := IndexOf(segment, ']', start + 1);
        if end < 0 then None
        else ParseInt32(segment[start + 1..end])
  }

  /** The segment of the `k`-th occurrence of field `f`: "f[k]". */
  function ElementSegment(f: int, k: int): string
  {
    IntToDecimal(f) + "[" + IntToDecimal(k) + "]"
  }

  predicate NoDot(s: string)
  {
    forall i :: 0 <= i < |s| ==> s[i] != '.'
  }

  /** A segment without a dot, composed under any parent, is the last segment of the path. */
  lemma LastSegmentOfComposed(parent: string, segment: string)
    requires NoDot(segment)
    ensures LastSegment(ComposePath(parent, segment)) == segment
  {
    var path := ComposePath(parent, segment);
    if parent != "" {
      var d := |parent|;
      assert path[d] == '.';
      assert forall k :: d < k < |path| ==> path[k] == segment[k - d - 1];
      var lastDot := LastIndexOf(path, '.');
      assert lastDot == d;
      assert path[d + 1..] == segment;
    } else if segment != "" {
      assert LastIndexOf(path, '.') == -1;
    }
  }

  /** The segment of a field without an occurrence: no dot, and no occurrence index. */
  lemma FieldSegment(f: int)
    ensures NoDot(IntToDecimal(f))
    ensures OccurrenceIndex(IntToDecimal(f)) == None
  {
    var s := IntToDecimal(f);
    assert IndexOf(s, '[', 0) == -1;
  }

  /** The segment of the `k`-th occurrence has no dot, and its occurrence index reads back as `k`. */
  lemma ElementSegmentIndex(f: int, k: int)
    requires INT32_MIN <= k <= INT32_MAX
    ensures NoDot(ElementSegment(f, k))
    ensures OccurrenceIndex(ElementSegment(f, k)) == Some(k)
  {
    BracketIndex(IntToDecimal(f), IntToDecimal(k));
    ParseInt32OfDecimal(k);
  }

  /** Helper: in "a[b]" with no bracket in `a` or `b`, the occurrence index is `b` parsed. */
  lemma BracketIndex(a: string, b: string)
    requires forall i :: 0 <= i < |a| ==> a[i] != '[' && a[i] != ']' && a[i] != '.'
    requires forall i :: 0 <= i < |b| ==> b[i] != '[' && b[i] != ']' && b[i] != '.'
    ensures NoDot(a + "[" + b + "]")
    ensures OccurrenceIndex(a + "[" + b + "]") == ParseInt32(b)
  {
    var s := a + "[" + b + "]";
    var start := |a|;
    var end := |a| + 1 + |b|;
    assert forall i :: 0 <= i < start ==> s[i] == a[i];
    assert forall i :: start < i < end ==> s[i] == b[i - start - 1];
    IndexOfFirst(s, '[', 0, start);
    IndexOfFirst(s, ']', start + 1, end);
    assert s[start + 1..end] == b;
  }

  /** Helper: `IndexOf` finds the first position at or after `from` that holds `c`. */
  lemma {:induction false} IndexOfFirst(s: string, c: char, from: nat, at: nat)
    requires from <= at < |s| && s[at] == c
    requires forall i :: from <= i < at ==> s[i] != c
    ensures IndexOf(s, c, from) == at
    decreases at - from
  {
    if from < at {
      IndexOfFirst(s, c, from + 1, at);
    }
  }

  /** The path of the display tests, "3[2]", is the second occurrence of field 3. */
  lemma OccurrenceExample()
    ensures OccurrenceIndex("3[2]") == Some(2)
  {
    ElementSegmentIndex(3, 2);
    assert ElementSegment(3, 2) == "3[2]";
  }
}
