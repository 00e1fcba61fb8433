/**
 * `ProtoParser`: decodes Protocol Buffers wire format without a schema.
 *
 * The first half specifies the wire format as functions of the buffer and a
 * position; the second half is the decoder as the source writes it, a reader
 * object with a mutable position and a loop over field keys, proved to compute
 * exactly what the specification says.
 */
module ProtoParser {
  import opened Numeric
  import opened Results
  import opened WireTypes
  import opened ProtoNodes

  /** The ways a decode fails (the source throws an exception for each). */
  datatype ParseError =
    | VarintTruncated              // the buffer ends before a byte without the continuation bit
    | VarintTooLong                // ten bytes, all with the continuation bit
    | SliceOutOfRange              // fewer bytes remain than a fixed or declared width
    | LengthTooLarge               // a declared length above int.MaxValue
    | UnsupportedWireType(bits: nat) // the key's low three bits name no wire type

  // ---------------------------------------------------------------------------
  // Specification
  // ---------------------------------------------------------------------------

  /**
   * The length of the varint at `pos`, once its first `k` bytes are known to
   * carry the continuation bit: the read stops at the first byte without it,
   * and gives up once the shift would reach 64 (after ten such bytes).
   */
  function ScanVarint(data: seq<byte>, pos: nat, k: nat): (r: Result<nat, ParseError>)
    requires k <= 9
    ensures r.Ok? ==> k < r.value <= 10 && pos + r.value <= |data| && data[pos + r.value - 1] < 128
    ensures r.Err? ==> r.error == VarintTruncated || r.error == VarintTooLong
    decreases 10 - k
  {
    if pos + k >= |data| then Err(VarintTruncated)
    else if data[pos + k] < 128 then Ok(k + 1)
    else if 7 * (k + 1) >= 64 then Err(VarintTooLong)
    else ScanVarint(data, pos, k + 1)
  }

  /** The varint at `pos`: its value truncated to 64 bits, and the position after it. */
  function ReadVarintAt(data: seq<byte>, pos: nat): (r: Result<(nat, nat), ParseError>)
    ensures r.Ok? ==> r.value.0 < TWO_64 && pos < r.value.1 <= pos + 10 && r.value.1 <= |data|
  {
    match ScanVarint(data, pos, 0)
    case Err(e) => Err(e)
    case Ok(n) => Ok((GroupsValue(data[pos..pos + n]) % TWO_64, pos + n))
  }

  /**
   * One field as it lies in the buffer: the key starts at `start`, the value
   * occupies `valueStart` up to `next`, and the next field starts at `next`.
   */
  datatype Field = Field(start: nat, fieldNumber: int, wireType: WireType, valueStart: nat, next: nat)

  /** The field whose key starts at `pos`. */
  function ReadFieldAt(data: seq<byte>, pos: nat): (r: Result<Field, ParseError>)
    requires pos < |data|
    ensures r.Ok? ==> r.value.start == pos < r.value.valueStart <= r.value.next <= |data|
  {
    match ReadVarintAt(data, pos)
    case Err(e) => Err(e)
    case Ok((key, afterKey)) =>
      // the field number is the key's bits above the low three, read as an
      // `int`; the low three bits name the wire type
      match FromBits(key % 8)
      case None => Err(UnsupportedWireType(key % 8))
      case Some(wireType) => ValueAt(data, pos, Int32Wrap(key / 8), wireType, afterKey)
  }

  /**
   * The value of the field whose key starts at `pos` and ends before
   * `afterKey`, for a known wire type: how far the value reaches.
   */
  function ValueAt(data: seq<byte>, pos: nat, fieldNumber: int, wireType: WireType, afterKey: nat): (r: Result<Field, ParseError>)
    requires pos < afterKey <= |data|
    ensures r.Ok? ==> r.value.start == pos && afterKey <= r.value.valueStart <= r.value.next <= |data|
    ensures r.Ok? ==> r.value.fieldNumber == fieldNumber && r.value.wireType == wireType
  {
    match wireType
    case Varint =>
      (match ReadVarintAt(data, afterKey)
       case Err(e) => Err(e)
       case Ok((_, afterValue)) => Ok(Field(pos, fieldNumber, Varint, afterKey, afterValue)))
    case Fixed32 =>
      if afterKey + 4 <= |data| then Ok(Field(pos, fieldNumber, Fixed32, afterKey, afterKey + 4))
      else Err(SliceOutOfRange)
    case Fixed64 =>
      if afterKey + 8 <= |data| then Ok(Field(pos, fieldNumber, Fixed64, afterKey, afterKey + 8))
      else Err(SliceOutOfRange)
    case LengthDelimited => LengthDelimitedAt(data, pos, fieldNumber, afterKey)
  }

  /**
   * A length-delimited value after the key ending before `afterKey`: a varint
   * length of at most `int.MaxValue`, then that many bytes.
   */
  function LengthDelimitedAt(data: seq<byte>, pos: nat, fieldNumber: int, afterKey: nat): (r: Result<Field, ParseError>)
    ensures r.Ok? ==> r.value.start == pos && afterKey < r.value.valueStart <= r.value.next <= |data|
  {
    match ReadVarintAt(data, afterKey)
    case Err(e) => Err(e)
    case Ok((length, afterLength)) =>
      if length > INT32_MAX then Err(LengthTooLarge)
      else if afterLength + length <= |data| then
        Ok(Field(pos, fieldNumber, LengthDelimited, afterLength, afterLength + length))
      else Err(SliceOutOfRange)
  }

  /**
   * The fields from `pos` to the end of the buffer, in stream order; see
   * `NodeOf` for the node each field becomes.
   */
  function ParseFrom(data: seq<byte>, pos: nat): Result<seq<ProtoNode>, ParseError>
    decreases |data|, |data| - pos
  {
    if pos >= |data| then Ok([])
    else
      match ReadFieldAt(data, pos)
      case Err(e) => Err(e)
      case Ok(f) =>
        match ParseFrom(data, f.next)
        case Err(e) => Err(e)
        case Ok(rest) => Ok([NodeOf(data, f)] + rest)
  }

  /**
   * The node field `f` becomes: its number, wire type and value bytes; a
   * non-empty length-delimited value gets children when it decodes, on its
   * own, as a message, and stays a leaf otherwise.
   */
  function NodeOf(data: seq<byte>, f: Field): (n: ProtoNode)
    requires 0 < f.valueStart <= f.next <= |data|
    decreases |data|, 0
  {
    var payload := data[f.valueStart..f.next];
    var children :=
      if f.wireType == LengthDelimited && |payload| > 0 && ParseFrom(payload, 0).Ok?
      then Present(ParseFrom(payload, 0).value)
      else Absent;
    ProtoNode(f.fieldNumber, f.wireType, payload, children)
  }

  /** `Parse`: the fields of a whole buffer. */
  function Decode(data: seq<byte>): Result<seq<ProtoNode>, ParseError>
  {
    ParseFrom(data, 0)
  }

  /** The fields from `pos` on, as positions only, without looking inside any value. */
  function Frames(data: seq<byte>, pos: nat): Result<seq<Field>, ParseError>
    decreases |data| - pos
  {
    if pos >= |data| then Ok([])
    else
      match ReadFieldAt(data, pos)
      case Err(e) => Err(e)
      case Ok(f) =>
        match Frames(data, f.next)
        case Err(e) => Err(e)
        case Ok(rest) => Ok([f] + rest)
  }

  /** Fields that follow each other without gap or overlap from `pos` to `end`. */
  predicate Tiles(fs: seq<Field>, pos: nat, end: nat)
  {
    && (|fs| == 0 ==> pos == end)
    && (|fs| > 0 ==> fs[0].start == pos && fs[|fs| - 1].next == end)
    && (forall i :: 0 <= i < |fs| - 1 ==> fs[i].next == fs[i + 1].start)
  }

  /** A node is the one decoded from field `f`: same number, same wire type, the value's bytes. */
  predicate NodeOfField(data: seq<byte>, n: ProtoNode, f: Field)
  {
    && f.valueStart <= f.next <= |data|
    && n.fieldNumber == f.fieldNumber
    && n.wireType == f.wireType
    && n.rawValue == data[f.valueStart..f.next]
  }

  /** How the scan goes on past byte `k`, told by that byte alone. */
  lemma ScanStep(data: seq<byte>, start: nat, k: nat)
    requires k <= 9 && ScanVarint(data, start, 0) == ScanVarint(data, start, k)
    requires start + k < |data|
    ensures data[start + k] < 128 ==> ScanVarint(data, start, 0) == Ok(k + 1)
    ensures data[start + k] >= 128 && 7 * (k + 1) >= 64 ==> ScanVarint(data, start, 0) == Err(VarintTooLong)
    ensures data[start + k] >= 128 && 7 * (k + 1) < 64 ==>
              ScanVarint(data, start, 0) == ScanVarint(data, start, k + 1)
  {
  }

  /** The value of the first `k + 1` groups, from that of the first `k` and byte `b`. */
  lemma GroupStep(data: seq<byte>, start: nat, k: nat, acc: nat, b: byte)
    requires k <= 9 && start + k < |data| && b == data[start + k]
    requires acc == GroupsValue(data[start..start + k])
    ensures BitOr(acc, ShiftLeft64(b as int % 128, 7 * k)) == GroupsValue(data[start..start + k + 1]) % TWO_64
    ensures k < 9 ==> BitOr(acc, ShiftLeft64(b as int % 128, 7 * k)) == GroupsValue(data[start..start + k + 1])
  {
    var prefix, next := data[start..start + k], data[start..start + k + 1];
    assert prefix + [b] == next;
    AccumulateGroup(prefix, b);
    if k < 9 {
      GroupsValueSmall(next);
      ModOfMultiplePlus(GroupsValue(next), 0, TWO_64, GroupsValue(next));
    }
  }

  /**
   * The bits the reader has gathered from the first `k` bytes of the varint
   * at `start`: each byte's low seven bits or-ed in at seven times its index.
   */
  function Gathered(data: seq<byte>, start: nat, k: nat): nat
    requires start + k <= |data|
  {
    if k == 0 then 0
    else BitOr(Gathered(data, start, k - 1), ShiftLeft64(data[start + k - 1] as int % 128, 7 * (k - 1)))
  }

  /** Or-ing the groups in one by one is adding them up, cut to 64 bits. */
  lemma {:induction false} GatheredGroups(data: seq<byte>, start: nat, k: nat)
    requires start + k <= |data| && k <= 10
    ensures Gathered(data, start, k) == GroupsValue(data[start..start + k]) % TWO_64
    ensures k <= 9 ==> Gathered(data, start, k) == GroupsValue(data[start..start + k])
  {
    if k == 0 {
      assert data[start..start] == [];
    } else {
      GatheredGroups(data, start, k - 1);
      GroupStep(data, start, k - 1, Gathered(data, start, k - 1), data[start + k - 1]);
    }
  }

  /**
   * One byte `b` of a varint read, after `k` bytes with the continuation bit:
   * what the read of the whole varint comes to, or how the scan goes on.
   */
  lemma VarintStep(data: seq<byte>, start: nat, k: nat)
    requires k <= 9 && ScanVarint(data, start, 0) == ScanVarint(data, start, k)
    requires start + k < |data|
    ensures data[start + k] < 128 ==> ReadVarintAt(data, start) == Ok((Gathered(data, start, k + 1), start + k + 1))
    ensures data[start + k] >= 128 && 7 * (k + 1) >= 64 ==> ReadVarintAt(data, start) == Err(VarintTooLong)
    ensures data[start + k] >= 128 && 7 * (k + 1) < 64 ==> ScanVarint(data, start, 0) == ScanVarint(data, start, k + 1)
  {
    ScanStep(data, start, k);
    GatheredGroups(data, start, k + 1);
  }

  /** The data ends after `k` bytes with the continuation bit: the varint is truncated. */
  lemma VarintTruncatedAt(data: seq<byte>, start: nat, k: nat)
    requires k <= 9 && ScanVarint(data, start, 0) == ScanVarint(data, start, k)
    requires start + k >= |data|
    ensures ReadVarintAt(data, start) == Err(VarintTruncated)
  {
  }

  /** Prefixes the nodes already decoded to the outcome of decoding the rest. */
  function Prepend(nodes: seq<ProtoNode>, rest: Result<seq<ProtoNode>, ParseError>): Result<seq<ProtoNode>, ParseError>
  {
    match rest
    case Err(e) => Err(e)
    case Ok(more) => Ok(nodes + more)
  }

  /** One step of `ParseFrom`: the field at `pos`, then the rest. */
  lemma ParseFromStep(data: seq<byte>, pos: nat)
    requires pos < |data|
    ensures ReadFieldAt(data, pos).Err? ==> ParseFrom(data, pos) == Err(ReadFieldAt(data, pos).error)
    ensures ReadFieldAt(data, pos).Ok? ==>
              var f := ReadFieldAt(data, pos).value;
              ParseFrom(data, pos) == Prepend([NodeOf(data, f)], ParseFrom(data, f.next))
  {
  }

  lemma PrependNothing(rest: Result<seq<ProtoNode>, ParseError>)
    ensures Prepend([], rest) == rest
  {
    if rest.Ok? {
      assert [] + rest.value == rest.value;
    }
  }

  lemma PrependTwice(nodes: seq<ProtoNode>, more: seq<ProtoNode>, rest: Result<seq<ProtoNode>, ParseError>)
    ensures Prepend(nodes, Prepend(more, rest)) == Prepend(nodes + more, rest)
  {
    if rest.Ok? {
      assert nodes + (more + rest.value) == (nodes + more) + rest.value;
    }
  }

  /** A leaf node: a value that is not length-delimited never gets children. */
  lemma LeafNode(data: seq<byte>, f: Field)
    requires 0 < f.valueStart <= f.next <= |data| && f.wireType != LengthDelimited
    ensures NodeOf(data, f) == ProtoNode(f.fieldNumber, f.wireType, data[f.valueStart..f.next], Absent)
  {
  }

  /** A length-delimited value whose length and bytes are all there. */
  lemma LengthDelimitedFound(data: seq<byte>, pos: nat, fieldNumber: int, afterKey: nat, length: nat, afterLength: nat)
    requires ReadVarintAt(data, afterKey) == Ok((length, afterLength))
    requires length <= INT32_MAX && afterLength + length <= |data|
    ensures LengthDelimitedAt(data, pos, fieldNumber, afterKey)
            == Ok(Field(pos, fieldNumber, LengthDelimited, afterLength, afterLength + length))
  {
  }

  // ---------------------------------------------------------------------------
  // The decoder
  // ---------------------------------------------------------------------------

  /** `ProtoReader`: a cursor over a read-only buffer. */
  class ProtoReader {
    const data: seq<byte>
    var position: nat

    ghost predicate Valid()
      reads this
    {
      position <= |data|
    }

    constructor (data: seq<byte>)
      ensures this.data == data && position == 0 && Valid()
    {
      this.data := data;
      position := 0;
    }

    /** Whether every byte has been read: for a valid reader, exactly when the bytes read are all of them. */
    predicate IsAtEnd()
      reads this
      ensures Valid() ==> (IsAtEnd() <==> BytesRead() == |data|)
    {
      position >= |data|
    }

    /** How many bytes have been read; never more than there are. */
    function BytesRead(): (n: nat)
      reads this
      ensures Valid() ==> n <= |data|
    {
      position
    }

    /** The next `length` bytes; fails, without moving, when fewer remain. */
    method ReadBytes(length: nat) returns (r: Result<seq<byte>, ParseError>)
      requires Valid()
      modifies this
      ensures Valid()
      ensures old(position) + length <= |data| ==>
                r == Ok(data[old(position)..old(position) + length]) && position == old(position) + length
      ensures old(position) + length > |data| ==> r == Err(SliceOutOfRange) && position == old(position)
    {
      if position + length > |data| {
        return Err(SliceOutOfRange);
      }
      r := Ok(data[position..position + length]);
      position := position + length;
    }

    /**
     * Reads one varint, seven bits per byte, least significant group first;
     * on success the position is just past its last byte.
     */
    method ReadRawVarint64() returns (r: Result<nat, ParseError>)
      requires Valid()
      modifies this
      ensures Valid()
      ensures var v := ReadVarintAt(data, old(position));
              && (v.Ok? ==> r == Ok(v.value.0) && position == v.value.1)
              && (v.Err? ==> r == Err(v.error))
    {
      var result: nat := 0;
      var shift: nat := 0;
      ghost var start := position;
      ghost var k: nat := 0;
      while true
        invariant Valid() && position == start + k && k <= 9 && shift == 7 * k
        invariant result == Gathered(data, start, k)
        invariant ScanVarint(data, start, 0) == ScanVarint(data, start, k)
        decreases |data| - position
      {
        if position >= |data| {
          VarintTruncatedAt(data, start, k);
          return Err(VarintTruncated);
        }
        var b := data[position];
        VarintStep(data, start, k);
        position := position + 1;
        result := BitOr(result, ShiftLeft64(b as int % 128, shift));
        if b < 128 {
          return Ok(result);
        }
        shift := shift + 7;
        if shift >= 64 {
          return Err(VarintTooLong);
        }
        k := k + 1;
      }
    }

    method ReadVarint() returns (r: Result<nat, ParseError>)
      requires Valid()
      modifies this
      ensures Valid()
      ensures var v := ReadVarintAt(data, old(position));
              && (v.Ok? ==> r == Ok(v.value.0) && position == v.value.1)
              && (v.Err? ==> r == Err(v.error))
    {
      r := ReadRawVarint64();
    }

    /** Reads one varint and returns the bytes it occupied, with its value. */
    method ReadVarintBytes() returns (r: Result<(seq<byte>, nat), ParseError>)
      requires Valid()
      modifies this
      ensures Valid()
      ensures var v := ReadVarintAt(data, old(position));
              && (v.Ok? ==> r == Ok((data[old(position)..v.value.1], v.value.0)) && position == v.value.1)
              && (v.Err? ==> r == Err(v.error))
    {
      var start := position;
      var value := ReadRawVarint64();
      if value.Err? {
        return Err(value.error);
      }
      var consumed := position - start;
      r := Ok((data[start..start + consumed], value.value));
    }
  }

  /**
   * `ParseMessage`: decodes fields until the reader is at the end of its buffer;
   * on success the whole rest of the buffer has been consumed.
   */
  method ParseMessage(reader: ProtoReader) returns (r: Result<seq<ProtoNode>, ParseError>)
    requires reader.Valid()
    modifies reader
    ensures reader.Valid()
    ensures r == ParseFrom(reader.data, old(reader.position))
    ensures r.Ok? ==> reader.IsAtEnd() && reader.BytesRead() == |reader.data|
    decreases |reader.data|, 1
  {
    var nodes: seq<ProtoNode> := [];
    ghost var data, start := reader.data, reader.position;
    PrependNothing(ParseFrom(data, start));
    while !reader.IsAtEnd()
      invariant reader.Valid() && reader.data == data
      invariant ParseFrom(data, start) == Prepend(nodes, ParseFrom(data, reader.position))
      decreases |data| - reader.position
    {
      ghost var pos := reader.position;
      ParseFromStep(data, pos);
      var key := reader.ReadVarint();
      if key.Err? {
        return Err(key.error);
      }
      var fieldNumber := Int32Wrap(key.value / 8);
      var wireType := FromBits(key.value % 8);
      if wireType.None? {
        return Err(UnsupportedWireType(key.value % 8));
      }
      var node := ReadValue(reader, pos, fieldNumber, wireType.value);
      if node.Err? {
        return Err(node.error);
      }
      PrependTwice(nodes, [node.value], ParseFrom(data, reader.position));
      nodes := nodes + [node.value];
    }
    assert nodes + [] == nodes;
    return Ok(nodes);
  }

  /**
   * The `switch` on the wire type inside `ParseMessage`: reads the value of
   * the field whose key started at `pos` and returns the node it becomes.
   */
  method ReadValue(reader: ProtoReader, ghost pos: nat, fieldNumber: int, wireType: WireType)
    returns (r: Result<ProtoNode, ParseError>)
    requires reader.Valid() && pos < reader.position
    modifies reader
    ensures reader.Valid()
    ensures var v := ValueAt(reader.data, pos, fieldNumber, wireType, old(reader.position));
            && (v.Err? ==> r == Err(v.error))
            && (v.Ok? ==> r == Ok(NodeOf(reader.data, v.value)) && reader.position == v.value.next)
    decreases |reader.data|, 0
  {
    ghost var data, afterKey := reader.data, reader.position;
    ghost var expected := ValueAt(data, pos, fieldNumber, wireType, afterKey);
    match wireType {
      case Varint =>
        var raw := reader.ReadVarintBytes();
        if raw.Err? {
          assert expected == Err(raw.error);
          return Err(raw.error);
        }
        ghost var f := Field(pos, fieldNumber, Varint, afterKey, reader.position);
        assert expected == Ok(f);
        LeafNode(data, f);
        r := Ok(ProtoNode(fieldNumber, Varint, raw.value.0, Absent));
      case Fixed32 =>
        var raw := reader.ReadBytes(4);
        if raw.Err? {
          assert expected == Err(SliceOutOfRange);
          return Err(raw.error);
        }
        ghost var f := Field(pos, fieldNumber, Fixed32, afterKey, reader.position);
        assert expected == Ok(f);
        LeafNode(data, f);
        r := Ok(ProtoNode(fieldNumber, Fixed32, raw.value, Absent));
      case Fixed64 =>
        var raw := reader.ReadBytes(8);
        if raw.Err? {
          assert expected == Err(SliceOutOfRange);
          return Err(raw.error);
        }
        ghost var f := Field(pos, fieldNumber, Fixed64, afterKey, reader.position);
        assert expected == Ok(f);
        LeafNode(data, f);
        r := Ok(ProtoNode(fieldNumber, Fixed64, raw.value, Absent));
      case LengthDelimited =>
        assert expected == LengthDelimitedAt(data, pos, fieldNumber, afterKey);
        var length := reader.ReadVarint();
        if length.Err? {
          assert expected == Err(length.error);
          return Err(length.error);
        }
        if length.value > INT32_MAX {
          assert expected == Err(LengthTooLarge);
          return Err(LengthTooLarge);
        }
        ghost var afterLength := reader.position;
        var payload := reader.ReadBytes(length.value);
        if payload.Err? {
          assert expected == Err(SliceOutOfRange);
          return Err(payload.error);
        }
        ghost var f := Field(pos, fieldNumber, LengthDelimited, afterLength, reader.position);
        LengthDelimitedFound(data, pos, fieldNumber, afterKey, length.value, afterLength);
        assert expected == Ok(f);
        assert payload.value == data[f.valueStart..f.next];
        var nested, children := false, [];
        if |payload.value| > 0 {
          nested, children := TryParseNested(payload.value);
        }
        if nested {
          r := Ok(ProtoNode(fieldNumber, LengthDelimited, payload.value, Present(children)));
        } else {
          r := Ok(ProtoNode(fieldNumber, LengthDelimited, payload.value, Absent));
        }
    }
  }

  /**
   * `TryParseNested`: decodes a payload as a message of its own. Every failure
   * stays inside; the result is kept only when the decode succeeded and
   * consumed the payload exactly.
   */
  method TryParseNested(payload: seq<byte>) returns (ok: bool, nodes: seq<ProtoNode>)
    ensures ok <==> ParseFrom(payload, 0).Ok?
    ensures ok ==> nodes == ParseFrom(payload, 0).value
    ensures !ok ==> nodes == []
    decreases |payload|, 2
  {
    var nestedReader := new ProtoReader(payload);
    var r := ParseMessage(nestedReader);
    if r.Err? {
      return false, [];
    }
    nodes := r.value;
    ok := nestedReader.IsAtEnd() && nestedReader.BytesRead() == |payload|;
  }

  /** `Parse`: decodes a whole buffer. */
  method Parse(data: seq<byte>) returns (r: Result<seq<ProtoNode>, ParseError>)
    ensures r == Decode(data)
  {
    var reader := new ProtoReader(data);
    r := ParseMessage(reader);
  }
}
