/**
 * What the decoder promises about a whole buffer: how each field is laid out,
 * when a field is rejected and why, that fields tile the buffer, that the
 * outcome of the outer decode never depends on what a length-delimited value
 * holds, and that every decoded node has the shape its wire type dictates.
 */
module ParserProperties {
  import opened Numeric
  import opened Results
  import opened WireTypes
  import opened ProtoNodes
  import opened ProtoParser
  import opened VarintProperties

  // ---------------------------------------------------------------------------
  // One field
  // ---------------------------------------------------------------------------

  /**
   * The key of a decoded field: a varint whose low three bits are the wire
   * type's value and whose remaining bits, cut to an `int`, are the field number.
   */
  lemma FieldKey(data: seq<byte>, pos: nat)
    requires pos < |data| && ReadFieldAt(data, pos).Ok?
    ensures ReadVarintAt(data, pos).Ok?
    ensures var (key, _) := ReadVarintAt(data, pos).value;
            var f := ReadFieldAt(data, pos).value;
            && Value(f.wireType) == key % 8
            && f.fieldNumber == Int32Wrap(key / 8)
  {
  }

  /**
   * The value of a decoded field: four bytes for Fixed32, eight for Fixed64,
   * one varint for Varint, and for a length-delimited field a varint length of
   * at most `int.MaxValue` followed by exactly that many bytes.
   */
  lemma FieldValue(data: seq<byte>, pos: nat)
    requires pos < |data| && ReadFieldAt(data, pos).Ok?
    ensures ReadVarintAt(data, pos).Ok?
    ensures var afterKey := ReadVarintAt(data, pos).value.1;
            var f := ReadFieldAt(data, pos).value;
            && (f.wireType == Fixed32 ==> f.valueStart == afterKey && f.next == afterKey + 4)
            && (f.wireType == Fixed64 ==> f.valueStart == afterKey && f.next == afterKey + 8)
            && (f.wireType == Varint ==> f.valueStart == afterKey && IsVarintSpan(data[f.valueStart..f.next]))
            && (f.wireType == LengthDelimited ==>
                  && ReadVarintAt(data, afterKey) == Ok((f.next - f.valueStart, f.valueStart))
                  && f.next - f.valueStart <= INT32_MAX)
  {
    var afterKey := ReadVarintAt(data, pos).value.1;
    var f := ReadFieldAt(data, pos).value;
    if f.wireType == Varint {
      ReadVarintSpan(data, afterKey);
    }
  }

  /** Only the wire-type values 3, 4, 6 and 7 are rejected as unsupported, and the error names the value. */
  lemma UnsupportedWireTypes(data: seq<byte>, pos: nat)
    requires pos < |data| && ReadVarintAt(data, pos).Ok?
    ensures var key := ReadVarintAt(data, pos).value.0;
            ReadFieldAt(data, pos) == Err(UnsupportedWireType(key % 8)) <==>
              key % 8 == 3 || key % 8 == 4 || key % 8 == 6 || key % 8 == 7
    ensures ReadFieldAt(data, pos).Err? && ReadFieldAt(data, pos).error.UnsupportedWireType? ==>
              ReadFieldAt(data, pos) == Err(UnsupportedWireType(ReadVarintAt(data, pos).value.0 % 8))
  {
  }

  /**
   * The errors of a field with a supported wire type: a fixed-width value
   * that runs past the end of the buffer is out of range; a length-delimited
   * value is too large when its length exceeds `int.MaxValue` and out of range
   * when it runs past the end; a varint value fails exactly as its varint does.
   */
  lemma ValueErrors(data: seq<byte>, pos: nat)
    requires pos < |data| && ReadVarintAt(data, pos).Ok?
    ensures var (key, afterKey) := ReadVarintAt(data, pos).value;
            var r := ReadFieldAt(data, pos);
            && (key % 8 == 5 ==> (r == Err(SliceOutOfRange) <==> |data| < afterKey + 4))
            && (key % 8 == 1 ==> (r == Err(SliceOutOfRange) <==> |data| < afterKey + 8))
            && (key % 8 == 0 ==> (r.Err? <==> ReadVarintAt(data, afterKey).Err?))
            && (key % 8 == 0 && r.Err? ==> r.error == ReadVarintAt(data, afterKey).error)
  {
  }

  /** The two ways a length-delimited field fails after its length was read. */
  lemma LengthErrors(data: seq<byte>, pos: nat)
    requires pos < |data| && ReadVarintAt(data, pos).Ok?
    requires ReadVarintAt(data, pos).value.0 % 8 == 2
    ensures var afterKey := ReadVarintAt(data, pos).value.1;
            var len := ReadVarintAt(data, afterKey);
            var r := ReadFieldAt(data, pos);
            && (r == Err(LengthTooLarge) <==> len.Ok? && len.value.0 > INT32_MAX)
            && (r == Err(SliceOutOfRange) <==>
                  len.Ok? && len.value.0 <= INT32_MAX && |data| < len.value.1 + len.value.0)
            && (len.Err? ==> r == Err(len.error))
  {
  }

  // ---------------------------------------------------------------------------
  // The whole buffer
  // ---------------------------------------------------------------------------

  /**
   * The frames from `pos` follow each other without gap or overlap up to the
   * end of the buffer, and each is the field read at its own start.
   */
  lemma {:induction false} FramesTile(data: seq<byte>, pos: nat)
    requires pos <= |data| && Frames(data, pos).Ok?
    ensures Tiles(Frames(data, pos).value, pos, |data|)
    ensures var fs := Frames(data, pos).value;
            forall i :: 0 <= i < |fs| ==>
              fs[i].start < |data| && ReadFieldAt(data, fs[i].start) == Ok(fs[i])
    decreases |data| - pos
  {
    if pos < |data| {
      var f := ReadFieldAt(data, pos).value;
      FramesTile(data, f.next);
      var rest := Frames(data, f.next).value;
      assert Frames(data, pos).value == [f] + rest;
    }
  }

  /**
   * Decoding and framing agree: they fail at the same field with the same
   * error, and on success the `i`-th node is the one made from the `i`-th
   * frame. So whether a buffer decodes never depends on the contents of its
   * length-delimited values: a value that does not decode as a message just
   * stays a leaf.
   */
  lemma {:induction false} ParseFromFrames(data: seq<byte>, pos: nat)
    ensures ParseFrom(data, pos).Ok? <==> Frames(data, pos).Ok?
    ensures ParseFrom(data, pos).Err? ==> ParseFrom(data, pos).error == Frames(data, pos).error
    ensures Frames(data, pos).Ok? ==>
              var fs, nodes := Frames(data, pos).value, ParseFrom(data, pos).value;
              && |nodes| == |fs|
              && (forall i :: 0 <= i < |fs| ==> 0 < fs[i].valueStart <= fs[i].next <= |data|)
              && (forall i :: 0 <= i < |fs| ==> nodes[i] == NodeOf(data, fs[i]))
    decreases |data| - pos
  {
    if pos < |data| && ReadFieldAt(data, pos).Ok? {
      var f := ReadFieldAt(data, pos).value;
      ParseFromFrames(data, f.next);
      if Frames(data, f.next).Ok? {
        var fs, nodes := Frames(data, f.next).value, ParseFrom(data, f.next).value;
        assert Frames(data, pos).value == [f] + fs;
        assert ParseFrom(data, pos).value == [NodeOf(data, f)] + nodes;
      }
    }
  }

  /** Decoding from `pos` gives no node exactly when nothing is left to decode. */
  lemma ParseFromEmpty(data: seq<byte>, pos: nat)
    requires ParseFrom(data, pos).Ok?
    ensures |ParseFrom(data, pos).value| == 0 <==> pos >= |data|
  {
    if pos < |data| {
      ParseFromStep(data, pos);
    }
  }

  /**
   * The node made from a field read at its start is well formed: its value
   * has the size its wire type dictates, and children, when present, belong
   * to a length-delimited field, are not empty and are well formed too.
   */
  lemma {:induction false} FieldNodeWellFormed(data: seq<byte>, f: Field)
    requires f.start < |data| && ReadFieldAt(data, f.start) == Ok(f)
    ensures WellFormed(NodeOf(data, f))
    decreases |data|, 0
  {
    FieldValue(data, f.start);
    var payload := data[f.valueStart..f.next];
    if f.wireType == LengthDelimited && |payload| > 0 && ParseFrom(payload, 0).Ok? {
      ParseFromEmpty(payload, 0);
      ParsedWellFormed(payload, 0);
    }
  }

  /** Every node decoded from `pos` on is well formed. */
  lemma {:induction false} ParsedWellFormed(data: seq<byte>, pos: nat)
    requires ParseFrom(data, pos).Ok?
    ensures forall n :: n in ParseFrom(data, pos).value ==> WellFormed(n)
    decreases |data|, |data| - pos
  {
    if pos < |data| {
      var f := ReadFieldAt(data, pos).value;
      FieldNodeWellFormed(data, f);
      ParsedWellFormed(data, f.next);
      assert ParseFrom(data, pos).value == [NodeOf(data, f)] + ParseFrom(data, f.next).value;
    }
  }

  /**
   * `Parse` on a buffer that decodes: every node is well formed, so a node's
   * text ends in " child nodes" exactly when its child list is present.
   */
  lemma DecodeWellFormed(data: seq<byte>)
    requires Decode(data).Ok?
    ensures forall n :: n in Decode(data).value ==> WellFormed(n)
    ensures forall n :: n in Decode(data).value ==>
              (EndsWith(ToString(n), " child nodes") <==> n.children.Present?)
  {
    ParsedWellFormed(data, 0);
    forall n | n in Decode(data).value
      ensures EndsWith(ToString(n), " child nodes") <==> n.children.Present?
    {
      ToStringOfWellFormed(n);
    }
  }

  // ---------------------------------------------------------------------------
  // Encoded fields read back
  // ---------------------------------------------------------------------------

  /**
   * The wire-format key of a field: the field number above three bits holding
   * the wire type's value, written as a varint, which reads back as that field
   * number and wire type. (The helper of the parser's tests shifts in 32-bit
   * `int` and agrees with it for field numbers below 2^28.)
   */
  function EncodeKey(fieldNumber: nat, wireType: WireType): (bs: seq<byte>)
    requires fieldNumber <= INT32_MAX
    ensures KeyReads(bs, |bs|, fieldNumber, wireType)
  {
    var key := fieldNumber * 8 + Value(wireType);
    var bs := EncodeVarint(key);
    assert bs[0..|bs|] == bs;
    ReadEncodedAt(bs, 0, key);
    bs
  }

  /** The key of a field at `0`: its varint reads the field number shifted past the wire type's three bits. */
  predicate KeyReads(data: seq<byte>, keyLength: nat, fieldNumber: nat, wireType: WireType)
  {
    ReadVarintAt(data, 0) == Ok((fieldNumber * 8 + Value(wireType), keyLength))
  }

  /** A buffer whose key reads a field number up to `int.MaxValue` and a supported wire type yields that field. */
  lemma ReadKey(data: seq<byte>, keyLength: nat, fieldNumber: nat, wireType: WireType)
    requires fieldNumber <= INT32_MAX && KeyReads(data, keyLength, fieldNumber, wireType)
    ensures 0 < keyLength <= |data|
    ensures ReadFieldAt(data, 0) == ValueAt(data, 0, fieldNumber, wireType, keyLength)
  {
    var k := fieldNumber * 8 + Value(wireType);
    ModOfMultiplePlus(k, fieldNumber, 8, Value(wireType));
    ValueRoundTrip(wireType);
  }

  /** A key read as a Varint field, then a varint ending at `next`: one Varint field up to `next`. */
  lemma ReadVarintFieldIn(data: seq<byte>, keyLength: nat, next: nat, fieldNumber: nat)
    requires fieldNumber <= INT32_MAX && KeyReads(data, keyLength, fieldNumber, Varint)
    requires ReadVarintAt(data, keyLength).Ok? && ReadVarintAt(data, keyLength).value.1 == next
    ensures ReadFieldAt(data, 0) == Ok(Field(0, fieldNumber, Varint, keyLength, next))
  {
    ReadKey(data, keyLength, fieldNumber, Varint);
  }

  /**
   * A key read as a length-delimited field, then a length `n` of at most
   * `int.MaxValue` ending at `afterLength`, then at least `n` bytes: one field
   * whose value is those `n` bytes.
   */
  lemma ReadLengthDelimitedFieldIn(data: seq<byte>, keyLength: nat, afterLength: nat, n: nat, fieldNumber: nat)
    requires fieldNumber <= INT32_MAX && KeyReads(data, keyLength, fieldNumber, LengthDelimited)
    requires ReadVarintAt(data, keyLength) == Ok((n, afterLength)) && n <= INT32_MAX && afterLength + n <= |data|
    ensures ReadFieldAt(data, 0) == Ok(Field(0, fieldNumber, LengthDelimited, afterLength, afterLength + n))
  {
    ReadKey(data, keyLength, fieldNumber, LengthDelimited);
  }

  /** A buffer made of exactly one field decodes to the one node of that field. */
  lemma DecodeOneField(data: seq<byte>, f: Field)
    requires 0 < |data| && ReadFieldAt(data, 0) == Ok(f) && f.next == |data|
    ensures Decode(data) == Ok([NodeOf(data, f)])
  {
    ParseFromStep(data, 0);
    assert [NodeOf(data, f)] + [] == [NodeOf(data, f)];
  }

  /** A Varint key and then one varint that ends the buffer decode to one Varint leaf. */
  lemma DecodeVarintIn(data: seq<byte>, keyLength: nat, fieldNumber: nat)
    requires fieldNumber <= INT32_MAX && KeyReads(data, keyLength, fieldNumber, Varint)
    requires ReadVarintAt(data, keyLength).Ok? && ReadVarintAt(data, keyLength).value.1 == |data|
    ensures keyLength <= |data|
    ensures Decode(data) == Ok([ProtoNode(fieldNumber, Varint, data[keyLength..], Absent)])
  {
    ReadVarintFieldIn(data, keyLength, |data|, fieldNumber);
    DecodeOneField(data, Field(0, fieldNumber, Varint, keyLength, |data|));
    assert data[keyLength..|data|] == data[keyLength..];
  }

  /**
   * A length-delimited key, then a length that counts exactly the bytes left,
   * decode to one node holding those bytes: with their fields as children when
   * they are non-empty and decode, as a leaf otherwise.
   */
  lemma DecodeNestedIn(data: seq<byte>, keyLength: nat, afterLength: nat, fieldNumber: nat)
    requires fieldNumber <= INT32_MAX && KeyReads(data, keyLength, fieldNumber, LengthDelimited)
    requires afterLength <= |data| && ReadVarintAt(data, keyLength) == Ok((|data| - afterLength, afterLength))
    requires |data| - afterLength <= INT32_MAX
    ensures var payload := data[afterLength..];
            Decode(data) == Ok([ProtoNode(fieldNumber, LengthDelimited, payload,
                                  if |payload| > 0 && Decode(payload).Ok? then Present(Decode(payload).value)
                                  else Absent)])
  {
    ReadLengthDelimitedFieldIn(data, keyLength, afterLength, |data| - afterLength, fieldNumber);
    var f := Field(0, fieldNumber, LengthDelimited, afterLength, |data|);
    DecodeOneField(data, f);
    LastNode(data, f);
  }

  /** The node of a length-delimited field that ends the buffer, in terms of `Decode` of its value. */
  lemma LastNode(data: seq<byte>, f: Field)
    requires 0 < f.valueStart <= f.next == |data| && f.wireType == LengthDelimited
    ensures var payload := data[f.valueStart..];
            NodeOf(data, f) == ProtoNode(f.fieldNumber, LengthDelimited, payload,
                                 if |payload| > 0 && Decode(payload).Ok? then Present(Decode(payload).value)
                                 else Absent)
  {
    assert data[f.valueStart..f.next] == data[f.valueStart..];
  }

  /** A buffer holding one encoded Varint field decodes to that one leaf. */
  lemma DecodeVarintField(fieldNumber: nat, v: nat)
    requires fieldNumber <= INT32_MAX && v < TWO_64
    ensures Decode(EncodeKey(fieldNumber, Varint) + EncodeVarint(v)) ==
              Ok([ProtoNode(fieldNumber, Varint, EncodeVarint(v), Absent)])
  {
    var key, value := EncodeKey(fieldNumber, Varint), EncodeVarint(v);
    var data := key + value;
    Concatenations(key, value, []);
    ReadEncodedAt(data, 0, fieldNumber * 8 + Value(Varint));
    ReadEncodedAt(data, |key|, v);
    DecodeVarintIn(data, |key|, fieldNumber);
  }

  /** Where the three parts of a buffer sit. */
  lemma Concatenations(a: seq<byte>, b: seq<byte>, c: seq<byte>)
    ensures var data := a + b + c;
            && |data| == |a| + |b| + |c|
            && data[0..|a|] == a
            && data[|a|..|a| + |b|] == b
            && data[|a| + |b|..] == c
            && (c == [] ==> data == a + b)
  {
    var data := a + b + c;
    assert data[0..|a|] == a;
    assert data[|a|..|a| + |b|] == b;
    assert data[|a| + |b|..] == c;
  }

  // ---------------------------------------------------------------------------
  // The parser's test inputs
  // ---------------------------------------------------------------------------

  /** Field 1 holding the varint 150: one leaf whose value is its two bytes. */
  lemma SimpleVarintExample()
    ensures Decode([0x08, 0x96, 0x01]) == Ok([ProtoNode(1, Varint, [0x96, 0x01], Absent)])
  {
    var data: seq<byte> := [0x08, 0x96, 0x01];
    OneByteAt(data, 0);
    assert EncodeVarint(150) == [0x96, 0x01];
    ReadEncodedAt(data, 1, 150);
    DecodeVarintIn(data, 1, 1);
    assert data[1..] == [0x96, 0x01];
  }

  /** An empty length-delimited value is a leaf with no bytes. */
  lemma EmptyLengthDelimitedExample()
    ensures Decode([0x0A, 0x00]) == Ok([ProtoNode(1, LengthDelimited, [], Absent)])
  {
    var data: seq<byte> := [0x0A, 0x00];
    OneByteAt(data, 0);
    OneByteAt(data, 1);
    DecodeNestedIn(data, 1, 2, 1);
    assert data[2..] == [];
  }

  /** Field 3 holding the message "field 1 = 150" decodes with that message as its one child. */
  lemma NestedMessageExample()
    ensures Decode([0x1A, 0x03, 0x08, 0x96, 0x01]) ==
              Ok([ProtoNode(3, LengthDelimited, [0x08, 0x96, 0x01],
                    Present([ProtoNode(1, Varint, [0x96, 0x01], Absent)]))])
  {
    var data: seq<byte> := [0x1A, 0x03, 0x08, 0x96, 0x01];
    OneByteAt(data, 0);
    OneByteAt(data, 1);
    DecodeNestedIn(data, 1, 2, 3);
    assert data[2..] == [0x08, 0x96, 0x01];
    SimpleVarintExample();
  }

  /** The empty buffer decodes to no node. */
  lemma EmptyDataExample()
    ensures Decode([]) == Ok([])
  {
  }

  /** A varint whose last byte still has the continuation bit is truncated. */
  lemma IncompleteVarintExample()
    ensures Decode([0x08, 0x96, 0x80]) == Err(VarintTruncated)
  {
    var data: seq<byte> := [0x08, 0x96, 0x80];
    OneByteAt(data, 0);
    ReadVarintErrors(data, 1);
    ValueErrors(data, 0);
    ParseFromStep(data, 0);
  }

  /** A Fixed32 value with only two bytes left is out of range. */
  lemma IncompleteFixed32Example()
    ensures Decode([0x0D, 0x01, 0x02]) == Err(SliceOutOfRange)
  {
    var data: seq<byte> := [0x0D, 0x01, 0x02];
    OneByteAt(data, 0);
    ValueErrors(data, 0);
    ParseFromStep(data, 0);
  }

  /** Wire type 3 (start group) is rejected. */
  lemma InvalidWireTypeExample()
    ensures Decode([0x0B]) == Err(UnsupportedWireType(3))
  {
    var data: seq<byte> := [0x0B];
    OneByteAt(data, 0);
    UnsupportedWireTypes(data, 0);
    ParseFromStep(data, 0);
  }

  /** A byte without the continuation bit is a whole varint by itself. */
  lemma OneByteAt(data: seq<byte>, pos: nat)
    requires pos < |data| && data[pos] < 128
    ensures ReadVarintAt(data, pos) == Ok((data[pos] as nat, pos + 1))
  {
    assert data[pos..pos + 1] == [data[pos]];
    ReadOfSpan(data, pos, 1);
    GroupsValueFront([data[pos]]);
    assert [data[pos]][1..] == [];
  }

  /** The largest `ulong` is a ten-byte value. */
  lemma LargeVarintExample()
    ensures Decode(EncodeKey(1, Varint) + EncodeVarint(TWO_64 - 1)) ==
              Ok([ProtoNode(1, Varint, EncodeVarint(TWO_64 - 1), Absent)])
    ensures |EncodeVarint(TWO_64 - 1)| == 10
  {
    DecodeVarintField(1, TWO_64 - 1);
    EncodeULongLength(TWO_64 - 1);
  }
}
