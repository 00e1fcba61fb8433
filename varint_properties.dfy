/**
 * What a varint read accepts and rejects, and the encoder the parser's own
 * tests build their inputs with, proved to read back.
 */
module VarintProperties {
  import opened Numeric
  import opened Results
  import opened WireTypes
  import opened ProtoParser

  /** Every byte of `data[from..to]` has its continuation bit set. */
  predicate AllContinue(data: seq<byte>, from: nat, to: nat)
    requires from <= to <= |data|
  {
    forall j :: from <= j < to ==> data[j] >= 128
  }

  /**
   * How the scan from byte `k` on ends: it fails as truncated exactly when the
   * buffer ends, before ten bytes, without a terminating byte; it fails as too
   * long exactly when ten bytes all carry the continuation bit; and otherwise
   * it stops at the first byte without one.
   */
  lemma {:induction false} ScanOutcome(data: seq<byte>, pos: nat, k: nat)
    requires k <= 9 && pos + k <= |data|
    ensures ScanVarint(data, pos, k) == Err(VarintTruncated) <==>
              pos + k <= |data| < pos + 10 && AllContinue(data, pos + k, |data|)
    ensures ScanVarint(data, pos, k) == Err(VarintTooLong) <==>
              pos + 10 <= |data| && AllContinue(data, pos + k, pos + 10)
    ensures ScanVarint(data, pos, k).Ok? ==>
              var n := ScanVarint(data, pos, k).value;
              pos + k < pos + n <= |data| && AllContinue(data, pos + k, pos + n - 1) && data[pos + n - 1] < 128
    decreases 10 - k
  {
    if pos + k == |data| {
    } else if data[pos + k] < 128 {
    } else if k == 9 {
    } else {
      ScanOutcome(data, pos, k + 1);
    }
  }

  /**
   * A successful varint read: the bytes it consumed are one varint span of 1
   * to 10 bytes, and its value is their groups, truncated to 64 bits.
   */
  lemma ReadVarintSpan(data: seq<byte>, pos: nat)
    requires ReadVarintAt(data, pos).Ok?
    ensures var (v, next) := ReadVarintAt(data, pos).value;
            && pos + 1 <= next <= pos + 10
            && IsVarintSpan(data[pos..next])
            && v == GroupsValue(data[pos..next]) % TWO_64
  {
    ScanOutcome(data, pos, 0);
    var next := ReadVarintAt(data, pos).value.1;
    var span := data[pos..next];
    forall k | 0 <= k < |span| - 1
      ensures span[k] >= 128
    {
      assert span[k] == data[pos + k];
    }
  }

  /** Conversely, a varint span at `pos` is read in full, whatever follows it. */
  lemma ReadOfSpan(data: seq<byte>, pos: nat, n: nat)
    requires pos + n <= |data| && IsVarintSpan(data[pos..pos + n])
    ensures ReadVarintAt(data, pos) == Ok((GroupsValue(data[pos..pos + n]) % TWO_64, pos + n))
  {
    var span := data[pos..pos + n];
    assert AllContinue(data, pos, pos + n - 1) by {
      forall j | pos <= j < pos + n - 1
        ensures data[j] >= 128
      {
        assert data[j] == span[j - pos];
      }
    }
    ScanReachesEnd(data, pos, n, 0);
  }

  lemma {:induction false} ScanReachesEnd(data: seq<byte>, pos: nat, n: nat, k: nat)
    requires 1 <= n <= 10 && k < n && pos + n <= |data|
    requires AllContinue(data, pos, pos + n - 1) && data[pos + n - 1] < 128
    ensures ScanVarint(data, pos, k) == Ok(n)
    decreases n - k
  {
    if k < n - 1 {
      assert data[pos + k] >= 128;
      ScanReachesEnd(data, pos, n, k + 1);
    }
  }

  /** A failed varint read fails only as truncated or too long. */
  lemma ReadVarintErrors(data: seq<byte>, pos: nat)
    requires pos <= |data|
    ensures ReadVarintAt(data, pos) == Err(VarintTruncated) <==>
              |data| < pos + 10 && AllContinue(data, pos, |data|)
    ensures ReadVarintAt(data, pos) == Err(VarintTooLong) <==>
              pos + 10 <= |data| && AllContinue(data, pos, pos + 10)
    ensures ReadVarintAt(data, pos).Err? ==>
              ReadVarintAt(data, pos).error == VarintTruncated || ReadVarintAt(data, pos).error == VarintTooLong
  {
    ScanOutcome(data, pos, 0);
  }

  // ---------------------------------------------------------------------------
  // The encoder of the parser's tests
  // ---------------------------------------------------------------------------

  /**
   * `EncodeVarint` of the parser's tests: seven bits at a time, least
   * significant first, with the continuation bit on every byte but the last.
   */
  function EncodeVarint(v: nat): (bs: seq<byte>)
    ensures |bs| >= 1
    decreases v
  {
    if v > 0x7F then [(v % 128 + 128) as byte] + EncodeVarint(v / 128)
    else [v as byte]
  }

  /** Every byte of the encoding but the last carries the continuation bit; the last does not. */
  lemma {:induction false} EncodeShape(v: nat)
    ensures EncodeVarint(v)[|EncodeVarint(v)| - 1] < 128
    ensures forall k :: 0 <= k < |EncodeVarint(v)| - 1 ==> EncodeVarint(v)[k] >= 128
    decreases v
  {
    if v > 0x7F {
      var bs, rest := EncodeVarint(v), EncodeVarint(v / 128);
      EncodeShape(v / 128);
      assert bs == [(v % 128 + 128) as byte] + rest;
      forall k | 1 <= k < |bs| - 1
        ensures bs[k] >= 128
      {
        assert bs[k] == rest[k - 1];
      }
    }
  }

  /** The groups of the encoding add up to the value encoded. */
  lemma {:induction false} EncodeValue(v: nat)
    ensures GroupsValue(EncodeVarint(v)) == v
    decreases v
  {
    var bs := EncodeVarint(v);
    GroupsValueFront(bs);
    if v > 0x7F {
      EncodeValue(v / 128);
      assert bs[1..] == EncodeVarint(v / 128);
    } else {
      assert bs[1..] == [];
    }
  }

  /** A value below `2^(7n)` takes at most `n` bytes; one of at least `2^(7n)` more than `n`. */
  lemma {:induction false} EncodeLength(v: nat, n: nat)
    ensures v < Pow2(7 * n) ==> |EncodeVarint(v)| <= n || n == 0
    ensures v >= Pow2(7 * n) ==> |EncodeVarint(v)| > n
    decreases v
  {
    if n > 0 {
      Pow2NextGroup(n - 1);
      Pow2Monotone(7, 7 * n);
      Pow2Seven();
      if v > 0x7F {
        EncodeLength(v / 128, n - 1);
      }
    }
  }

  /** Every `ulong` encodes to 1..10 bytes, and `ulong.MaxValue` to exactly 10. */
  lemma EncodeULongLength(v: nat)
    requires v < TWO_64
    ensures IsVarintSpan(EncodeVarint(v)) && GroupsValue(EncodeVarint(v)) == v
    ensures v == TWO_64 - 1 ==> |EncodeVarint(v)| == 10
  {
    EncodeShape(v);
    EncodeValue(v);
    Pow2Sixty4();
    Pow2Monotone(64, 70);
    EncodeLength(v, 10);
    Pow2Monotone(63, 64);
    Pow2Add(63, 1);
    EncodeLength(v, 9);
  }

  /**
   * Round trip: reading the encoding of a `ulong`, wherever it sits in a
   * buffer, gives the value back and stops just past the encoding.
   */
  lemma ReadEncodedAt(data: seq<byte>, pos: nat, v: nat)
    requires v < TWO_64
    requires pos + |EncodeVarint(v)| <= |data| && data[pos..pos + |EncodeVarint(v)|] == EncodeVarint(v)
    ensures ReadVarintAt(data, pos) == Ok((v, pos + |EncodeVarint(v)|))
  {
    EncodeULongLength(v);
    ReadOfSpan(data, pos, |EncodeVarint(v)|);
    ModOfMultiplePlus(v, 0, TWO_64, v);
  }
}
