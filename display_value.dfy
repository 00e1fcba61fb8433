/**
 * The numbers the display layer shows for a field value: the varint value
 * recomputed from the raw bytes (`ProtoDisplayNode.VarintToValue`), and the
 * little-endian words `BitConverter.ToUInt32` / `ToUInt64` read from a
 * Fixed32 / Fixed64 value.
 */
module DisplayValues {
  import opened Numeric
  import opened WireTypes
  import opened ProtoParser
  import opened VarintProperties

  /**
   * The bits `VarintToValue` has gathered once it has looked at bytes `i..` of
   * `span`, having gathered `acc` from the bytes before: byte `i` is or-ed in
   * at shift `7 * i` (masked to six bits, as `<<` on `ulong` does), and the
   * scan stops after the first byte without the continuation bit, or at the
   * end of the span.
   */
  function VarintBitsFrom(span: seq<byte>, i: nat, acc: nat): (r: nat)
    requires i <= |span|
    ensures acc < TWO_64 ==> r < TWO_64
    decreases |span| - i
  {
    if i == |span| then acc
    else
      var next := BitOr(acc, ShiftLeft64(span[i] as int % 128, 7 * i));
      BitOrBound64(acc, ShiftLeft64(span[i] as int % 128, 7 * i));
      if span[i] < 128 then next else VarintBitsFrom(span, i + 1, next)
  }

  /** The 64 bits `VarintToValue` gathers from the whole span. */
  function VarintBits(span: seq<byte>): (r: nat)
    ensures r < TWO_64
  {
    VarintBitsFrom(span, 0, 0)
  }

  /** Helper: or-ing two 64-bit values stays within 64 bits. */
  lemma BitOrBound64(a: nat, b: nat)
    ensures a < TWO_64 && b < TWO_64 ==> BitOr(a, b) < TWO_64
  {
    Pow2Sixty4();
    if a < TWO_64 && b < TWO_64 {
      BitOrBound(a, b, 64);
    }
  }

  /**
   * `VarintToValue`: the bits gathered from the span, returned as a `long`
   * (the `ulong` reinterpreted as two's complement).
   */
  method VarintToValue(span: seq<byte>) returns (value: int)
    ensures value == ToInt64(VarintBits(span))
  {
    var result: nat := 0;
    var shift: nat := 0;
    var i := 0;
    while i < |span|
      invariant i <= |span| && shift == 7 * i && result < TWO_64
      invariant VarintBitsFrom(span, i, result) == VarintBits(span)
      decreases |span| - i
    {
      var b := span[i];
      BitOrBound64(result, ShiftLeft64(b as int % 128, shift));
      result := BitOr(result, ShiftLeft64(b as int % 128, shift));
      if b < 128 {
        break;
      }
      shift := shift + 7;
      i := i + 1;
    }
    value := ToInt64(result);
  }

  /** Helper: the gathering from byte `i` on, when bytes `i..n-2` continue and byte `n-1` ends a varint of at most ten bytes. */
  lemma {:induction false} VarintBitsGroups(span: seq<byte>, n: nat, i: nat, acc: nat)
    requires i < n <= |span| && n <= 10
    requires span[n - 1] < 128 && forall k :: i <= k < n - 1 ==> span[k] >= 128
    requires acc == GroupsValue(span[..i])
    ensures VarintBitsFrom(span, i, acc) == GroupsValue(span[..n]) % TWO_64
    decreases n - i
  {
    assert span[0..i] == span[..i];
    GroupStep(span, 0, i, acc, span[i]);
    assert span[0..i + 1] == span[..i + 1];
    if i < n - 1 {
      VarintBitsGroups(span, n, i + 1, BitOr(acc, ShiftLeft64(span[i] as int % 128, 7 * i)));
    }
  }

  /**
   * Whenever the span starts with a varint of at most ten bytes, the bits
   * gathered are that varint's groups, truncated to 64 bits: the same value
   * the decoder reads.
   */
  lemma VarintBitsOfPrefix(span: seq<byte>, n: nat)
    requires 1 <= n <= |span| && n <= 10 && IsVarintSpan(span[..n])
    ensures VarintBits(span) == GroupsValue(span[..n]) % TWO_64
  {
    var prefix := span[..n];
    forall k | 0 <= k < n - 1
      ensures span[k] >= 128
    {
      assert span[k] == prefix[k];
    }
    assert span[n - 1] == prefix[n - 1];
    VarintBitsGroups(span, n, 0, 0);
  }

  /**
   * The display agrees with the decoder: for the raw bytes of a varint the
   * decoder read as `v`, `VarintToValue` returns `v` reinterpreted as a `long`.
   */
  lemma VarintValueOfDecoded(data: seq<byte>, pos: nat)
    requires ReadVarintAt(data, pos).Ok?
    ensures var (v, next) := ReadVarintAt(data, pos).value;
            pos < next <= |data| && VarintBits(data[pos..next]) == v
  {
    var (v, next) := ReadVarintAt(data, pos).value;
    var span := data[pos..next];
    ReadVarintSpan(data, pos);
    assert span[..|span|] == span;
    VarintBitsOfPrefix(span, |span|);
  }

  /** Bytes after the first one without the continuation bit do not change the value shown. */
  lemma VarintIgnoresTail(span: seq<byte>, tail: seq<byte>, n: nat)
    requires n < |span| && span[n] < 128
    ensures VarintBits(span + tail) == VarintBits(span)
  {
    var e := FirstEnd(span, n);
    VarintTailFrom(span, tail, 0, 0, e);
  }

  /** Helper: there is a first byte without the continuation bit, at or before `n`. */
  lemma {:induction false} FirstEnd(span: seq<byte>, n: nat) returns (e: nat)
    requires n < |span| && span[n] < 128
    ensures e <= n && span[e] < 128 && forall k :: 0 <= k < e ==> span[k] >= 128
  {
    if exists k :: 0 <= k < n && span[k] < 128 {
      var k :| 0 <= k < n && span[k] < 128;
      e := FirstEnd(span, k);
    } else {
      e := n;
    }
  }

  lemma {:induction false} VarintTailFrom(span: seq<byte>, tail: seq<byte>, i: nat, acc: nat, e: nat)
    requires i <= e < |span| && span[e] < 128 && forall k :: i <= k < e ==> span[k] >= 128
    ensures VarintBitsFrom(span + tail, i, acc) == VarintBitsFrom(span, i, acc)
    decreases e - i
  {
    assert (span + tail)[i] == span[i];
    if i < e {
      VarintTailFrom(span, tail, i + 1, BitOr(acc, ShiftLeft64(span[i] as int % 128, 7 * i)), e);
    }
  }

  /** The three cases of the display tests: 01 shows 1, AC 02 shows 300, 00 shows 0. */
  lemma VarintToValueExamples()
    ensures ToInt64(VarintBits([0x01])) == 1
    ensures ToInt64(VarintBits([0xAC, 0x02])) == 300
    ensures ToInt64(VarintBits([0x00])) == 0
  {
    SingleByteVarint(0x01);
    SingleByteVarint(0x00);
    ThreeHundred();
  }

  /** A single byte below 0x80 is its own value. */
  lemma SingleByteVarint(b: byte)
    requires b < 128
    ensures ToInt64(VarintBits([b])) == b as int
  {
    var span: seq<byte> := [b];
    VarintBitsOfPrefix(span, 1);
    assert span[..1] == span;
    assert span[..0] == [];
    assert GroupsValue(span) == b as int;
  }

  /** Helper: AC 02 is 300. */
  lemma ThreeHundred()
    ensures ToInt64(VarintBits([0xAC, 0x02])) == 300
  {
    TwoByteVarint(0xAC, 0x02);
  }

  /** Two bytes, the first with its continuation bit set, are the low seven bits of the first plus 128 times the second. */
  lemma TwoByteVarint(lo: byte, hi: byte)
    requires lo >= 128 && hi < 128
    ensures ToInt64(VarintBits([lo, hi])) == lo as int % 128 + 128 * hi as int
  {
    var span: seq<byte> := [lo, hi];
    VarintBitsOfPrefix(span, 2);
    assert span[..2] == span;
    var low := span[..1];
    assert low == [lo] && low[..0] == [];
    assert GroupsValue(low) == lo as int % 128;
    assert Shl(hi as int, 7) == 128 * hi as int by {
      ShlIsMul(hi as int, 7);
      Pow2Seven();
    }
    var v := GroupsValue(span);
    assert v == lo as int % 128 + 128 * hi as int;
    assert v < TWO_63;
    SmallModulo(v, TWO_64);
  }

  /** Helper: a value below the modulus is its own remainder. */
  lemma SmallModulo(v: nat, m: nat)
    requires v < m
    ensures v % m == v
  {
  }

  // ---------------------------------------------------------------------------
  // Fixed-width values
  // ---------------------------------------------------------------------------

  /** The unsigned value of `bs` read little-endian: the first byte is the least significant. */
  function LittleEndian(bs: seq<byte>): (r: nat)
    decreases |bs|
  {
    if bs == [] then 0 else bs[0] as int + 256 * LittleEndian(bs[1..])
  }

  /** A little-endian word of `n` bytes is below `2^(8n)`. */
  lemma {:induction false} LittleEndianBound(bs: seq<byte>)
    ensures LittleEndian(bs) < Pow2(8 * |bs|)
  {
    if bs != [] {
      LittleEndianBound(bs[1..]);
      Pow2Add(8, 8 * (|bs| - 1));
      Pow2Eight();
      MulMonotone(LittleEndian(bs[1..]) + 1, Pow2(8 * (|bs| - 1)), 256);
    }
  }

  /** `BitConverter.ToUInt32(span)`: the first four bytes, little-endian. */
  function ToUInt32(bs: seq<byte>): (r: nat)
    requires |bs| >= 4
  {
    LittleEndian(bs[..4])
  }

  /** `BitConverter.ToUInt64(span)`: the first eight bytes, little-endian. */
  function ToUInt64(bs: seq<byte>): (r: nat)
    requires |bs| >= 8
  {
    LittleEndian(bs[..8])
  }

  /** The words read fit their types, and only the first four (eight) bytes count. */
  lemma FixedWords(bs: seq<byte>, tail: seq<byte>)
    requires |bs| >= 4
    ensures ToUInt32(bs) < TWO_32 && ToUInt32(bs + tail) == ToUInt32(bs)
    ensures |bs| >= 8 ==> ToUInt64(bs) < TWO_64 && ToUInt64(bs + tail) == ToUInt64(bs)
  {
    LittleEndianBound(bs[..4]);
    Pow2Eight();
    Pow2Add(8, 8);
    Pow2Add(16, 16);
    assert (bs + tail)[..4] == bs[..4];
    if |bs| >= 8 {
      LittleEndianBound(bs[..8]);
      Pow2Sixty4();
      assert (bs + tail)[..8] == bs[..8];
    }
  }

  /** The Fixed32 value of the display tests, 12 34 56 78, reads as 0x78563412. */
  lemma Fixed32Example()
    ensures ToUInt32([0x12, 0x34, 0x56, 0x78]) == 0x7856_3412
  {
    var bs: seq<byte> := [0x12, 0x34, 0x56, 0x78];
    assert bs[..4] == bs;
    assert bs[1..][1..][1..][1..] == [];
  }
}
