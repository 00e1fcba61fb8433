/** `ProtoWireType`: the wire types of the Protocol Buffers encoding that the decoder accepts. */
module WireTypes {
  import opened Numeric
  import opened Results

  /** The four members of the enumeration; the 3-bit values 3, 4, 6 and 7 have none. */
  datatype WireType = Varint | Fixed64 | LengthDelimited | Fixed32

  /** The integer value of each member, as declared. */
  function Value(w: WireType): (v: nat)
    ensures v < 8
    ensures v == 0 || v == 1 || v == 2 || v == 5
  {
    match w
    case Varint => 0
    case Fixed64 => 1
    case LengthDelimited => 2
    case Fixed32 => 5
  }

  /**
   * `(ProtoWireType)(key & 7)` as the decoder's switch sees it: the member whose
   * value is `bits`, or none for the values without a member.
   */
  function FromBits(bits: nat): (r: Option<WireType>)
    requires bits < 8
    ensures r.Some? <==> bits == 0 || bits == 1 || bits == 2 || bits == 5
    ensures r.Some? ==> Value(r.value) == bits
  {
    if bits == 0 then Some(Varint)
    else if bits == 1 then Some(Fixed64)
    else if bits == 2 then Some(LengthDelimited)
    else if bits == 5 then Some(Fixed32)
    else None
  }

  /** Converting a member to its value and back gives the member; so distinct members have distinct values. */
  lemma ValueRoundTrip(w: WireType)
    ensures FromBits(Value(w)) == Some(w)
    ensures forall u: WireType :: Value(u) == Value(w) ==> u == w
  {
  }

  /** The member's name, as the enumeration's `ToString` gives it. */
  function Name(w: WireType): (s: string)
    ensures |s| > 0
  {
    match w
    case Varint => "Varint"
    case Fixed64 => "Fixed64"
    case LengthDelimited => "LengthDelimited"
    case Fixed32 => "Fixed32"
  }

  /** Distinct members have distinct names, so a label's name tells its wire type. */
  lemma NamesDistinct(a: WireType, b: WireType)
    ensures Name(a) == Name(b) <==> a == b
  {
  }

  /**
   * The bytes of one base-128 varint as the decoder accepts it: 1 to 10 bytes,
   * every byte but the last with its continuation bit (0x80) set.
   */
  predicate IsVarintSpan(bs: seq<byte>)
  {
    && 1 <= |bs| <= 10
    && bs[|bs| - 1] < 128
    && forall k :: 0 <= k < |bs| - 1 ==> bs[k] >= 128
  }
}
