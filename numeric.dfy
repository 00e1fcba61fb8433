/**
 * The .NET integer operations the decoder relies on, written out over unbounded
 * integers: unsigned bytes, 32/64-bit truncation, `<<` on `ulong` and `|`.
 */
module Numeric {

  /** An unsigned 8-bit value (`byte`). */
  newtype byte = x: int | 0 <= x < 256

  const TWO_31: nat := 0x8000_0000
  const TWO_32: nat := 0x1_0000_0000
  const TWO_63: nat := 0x8000_0000_0000_0000
  const TWO_64: nat := 0x1_0000_0000_0000_0000

  /** `int.MaxValue` */
  const INT32_MAX: int := 0x7FFF_FFFF
  /** `int.MinValue` */
  const INT32_MIN: int := -0x8000_0000

  function Pow2(n: nat): (r: nat)
    ensures r >= 1
  {
    if n == 0 then 1 else 2 * Pow2(n - 1)
  }

  lemma {:induction false} Pow2Add(a: nat, b: nat)
    ensures Pow2(a + b) == Pow2(a) * Pow2(b)
  {
    if a > 0 {
      Pow2Add(a - 1, b);
    }
  }

  lemma {:induction false} Pow2Monotone(a: nat, b: nat)
    requires a <= b
    ensures Pow2(a) <= Pow2(b)
  {
    if a < b {
      Pow2Monotone(a, b - 1);
    }
  }

  lemma Pow2Eight()
    ensures Pow2(8) == 256
  {
  }

  lemma Pow2Sixty4()
    ensures Pow2(64) == TWO_64
  {
    Pow2Eight();
    Pow2Add(8, 8);
    assert Pow2(16) == 0x1_0000;
    Pow2Add(16, 16);
    assert Pow2(32) == TWO_32;
    Pow2Add(32, 32);
  }

  /** `(int)x` in an unchecked context: the low 32 bits read as a two's-complement value. */
  function Int32Wrap(x: int): (r: int)
    ensures INT32_MIN <= r <= INT32_MAX
    ensures (r - x) % TWO_32 == 0
    ensures INT32_MIN <= x <= INT32_MAX ==> r == x
  {
    var m := x % TWO_32;
    if m >= TWO_31 then m - TWO_32 else m
  }

  /** `(long)x` for a `ulong` x: the same 64 bits read as a two's-complement value. */
  function ToInt64(x: nat): (r: int)
    requires x < TWO_64
    ensures -(TWO_63 as int) <= r < TWO_63
    ensures r == x || r == x - TWO_64
    ensures x < TWO_63 ==> r == x
  {
    if x >= TWO_63 then x - TWO_64 else x
  }

  /** `x` shifted left by `n` places with no bit lost, one doubling per place. */
  function Shl(x: nat, n: nat): nat
  {
    if n == 0 then x else 2 * Shl(x, n - 1)
  }

  /** Shifting left by `n` places multiplies by `2^n`. */
  lemma {:induction false} ShlIsMul(x: nat, n: nat)
    ensures Shl(x, n) == x * Pow2(n)
  {
    if n > 0 {
      ShlIsMul(x, n - 1);
      assert 2 * (x * Pow2(n - 1)) == x * (2 * Pow2(n - 1));
    }
  }

  /**
   * `x << s` on `ulong`: the shift count is masked to its low six bits (`s & 63`)
   * and the bits shifted past bit 63 are lost.
   */
  function ShiftLeft64(x: nat, s: nat): (r: nat)
    ensures r < TWO_64
  {
    Shl(x, s % 64) % TWO_64
  }

  /** `a | b` on non-negative integers, bit by bit from the least significant. */
  function BitOr(a: nat, b: nat): nat
    decreases a + b
  {
    if a == 0 then b
    else if b == 0 then a
    else 2 * BitOr(a / 2, b / 2) + (if a % 2 == 1 || b % 2 == 1 then 1 else 0)
  }

  /** Helper: a positive multiple of `m` is at least `m`. */
  lemma {:induction false} MulAtLeast(d: int, m: nat)
    requires d >= 1
    ensures d * m >= m
  {
    if d > 1 {
      MulAtLeast(d - 1, m);
      assert d * m == (d - 1) * m + m;
    }
  }

  /** Helper: `x % m == r` and `x / m == k` when `x == k * m + r` and `0 <= r < m`. */
  lemma ModOfMultiplePlus(x: int, k: int, m: int, r: int)
    requires m > 0 && 0 <= r < m && x == k * m + r
    ensures x % m == r && x / m == k
  {
    var k', r' := x / m, x % m;
    assert x == k' * m + r';
    assert (k - k') * m == r' - r by {
      assert (k - k') * m == k * m - k' * m;
    }
    if k - k' >= 1 {
      MulAtLeast(k - k', m);
    } else if k' - k >= 1 {
      MulAtLeast(k' - k, m);
    }
  }

  /** Helper: a multiple of `2 * p` halves to a multiple of `p`. */
  lemma HalfOfMultiple(b: nat, p: nat)
    requires p >= 1 && b % (2 * p) == 0
    ensures b % 2 == 0 && (b / 2) % p == 0
  {
    var q := b / (2 * p);
    assert b == q * (2 * p);
    assert q * (2 * p) == 2 * (q * p);
    ModOfMultiplePlus(b, q * p, 2, 0);
    ModOfMultiplePlus(b / 2, q, p, 0);
  }

  /** When the bits of `a` and `b` do not overlap, `a | b` is their sum. */
  lemma {:induction false} BitOrDisjoint(a: nat, b: nat, s: nat)
    requires a < Pow2(s) && b % Pow2(s) == 0
    ensures BitOr(a, b) == a + b
  {
    if a != 0 && b != 0 {
      assert s > 0;
      HalfOfMultiple(b, Pow2(s - 1));
      BitOrDisjoint(a / 2, b / 2, s - 1);
    }
  }

  /** `|` never sets a bit above the highest bit of its operands. */
  lemma {:induction false} BitOrBound(a: nat, b: nat, n: nat)
    requires a < Pow2(n) && b < Pow2(n)
    ensures BitOr(a, b) < Pow2(n)
  {
    if a != 0 && b != 0 {
      BitOrBound(a / 2, b / 2, n - 1);
    }
  }

  /**
   * The value of a base-128 group sequence, least significant group first;
   * the high (continuation) bit of every byte is ignored.
   */
  function GroupsValue(bs: seq<byte>): nat
  {
    if bs == [] then 0
    else GroupsValue(bs[..|bs| - 1]) + Shl(bs[|bs| - 1] as int % 128, 7 * (|bs| - 1))
  }

  /** Helper: multiplying both sides of `a <= b` by a natural number. */
  lemma {:induction false} MulMonotone(a: int, b: int, c: nat)
    requires a <= b
    ensures a * c <= b * c
  {
    if c > 0 {
      MulMonotone(a, b, c - 1);
      assert a * c == a * (c - 1) + a;
      assert b * c == b * (c - 1) + b;
    }
  }

  lemma Pow2Seven()
    ensures Pow2(7) == 128
  {
  }

  /** Helper: the last group's place value, one group further. */
  lemma Pow2NextGroup(k: nat)
    ensures Pow2(7 * (k + 1)) == 128 * Pow2(7 * k)
  {
    Pow2Add(7 * k, 7);
    Pow2Seven();
  }

  lemma {:induction false} GroupsValueBound(bs: seq<byte>)
    ensures GroupsValue(bs) < Pow2(7 * |bs|)
  {
    if bs != [] {
      var n := |bs|;
      var p := Pow2(7 * (n - 1));
      var g := bs[n - 1] as int % 128;
      ShlIsMul(g, 7 * (n - 1));
      assert GroupsValue(bs) == GroupsValue(bs[..n - 1]) + g * p;
      GroupsValueBound(bs[..n - 1]);
      MulMonotone(g, 127, p);
      Pow2NextGroup(n - 1);
    }
  }

  /** The groups of at most nine bytes fit in 63 bits, so in a `ulong`. */
  lemma GroupsValueSmall(bs: seq<byte>)
    requires |bs| <= 9
    ensures GroupsValue(bs) < TWO_63 < TWO_64
  {
    GroupsValueBound(bs);
    Pow2Monotone(7 * |bs|, 63);
    Pow2Add(63, 1);
    Pow2Sixty4();
  }

  /** Helper: seven more places multiply a shifted group by 128. */
  lemma ShlSeven(x: nat, k: nat)
    ensures Shl(x, k + 7) == 128 * Shl(x, k)
  {
    ShlIsMul(x, k + 7);
    ShlIsMul(x, k);
    Pow2Add(k, 7);
    Pow2Seven();
    assert x * (Pow2(k) * 128) == 128 * (x * Pow2(k));
  }

  /** The same value read from the front: the first group plus 128 times the rest. */
  lemma {:induction false} GroupsValueFront(bs: seq<byte>)
    requires bs != []
    ensures GroupsValue(bs) == bs[0] as int % 128 + 128 * GroupsValue(bs[1..])
  {
    var n := |bs|;
    if n == 1 {
      assert bs[..0] == [];
      assert bs[1..] == [];
    } else {
      var init, rest := bs[..n - 1], bs[1..];
      var g := bs[n - 1] as int % 128;
      GroupsValueFront(init);
      assert init[1..] == rest[..n - 2];
      assert init[0] == bs[0];
      assert rest[n - 2] == bs[n - 1];
      assert GroupsValue(bs) == GroupsValue(init) + Shl(g, 7 * (n - 1));
      assert GroupsValue(rest) == GroupsValue(rest[..n - 2]) + Shl(g, 7 * (n - 2));
      ShlSeven(g, 7 * (n - 2));
    }
  }

  /** Helper: the residue of `a + g * p` modulo `p * q` when `a < p`. */
  lemma AddScaledMod(a: nat, g: nat, p: nat, q: nat)
    requires a < p && q >= 1
    ensures (g * p) % (p * q) == p * (g % q)
    ensures (a + g * p) % (p * q) == a + p * (g % q)
  {
    var k := g / q;
    var r := g % q;
    assert g == k * q + r;
    assert g * p == k * (p * q) + p * r;
    assert p * r <= p * (q - 1);
    ModOfMultiplePlus(g * p, k, p * q, p * r);
    ModOfMultiplePlus(a + g * p, k, p * q, a + p * r);
  }

  /** Helper: a shift by fewer than 64 places keeps the low `64 - s` bits of `g`, moved up by `s`. */
  lemma ShiftLeftInRange(g: nat, s: nat)
    requires s < 64
    ensures Pow2(s) * Pow2(64 - s) == TWO_64
    ensures ShiftLeft64(g, s) == Pow2(s) * (g % Pow2(64 - s))
    ensures ShiftLeft64(g, s) % Pow2(s) == 0
  {
    var p, q := Pow2(s), Pow2(64 - s);
    Pow2Add(s, 64 - s);
    Pow2Sixty4();
    assert s % 64 == s;
    ShlIsMul(g, s);
    assert ShiftLeft64(g, s) == (g * p) % (p * q);
    AddScaledMod(0, g, p, q);
    ModOfMultiplePlus(p * (g % q), g % q, p, 0);
  }

  /**
   * One step of a varint read: or-ing group `b`, shifted into place, into the
   * value of the groups already read is the same as reading `prefix + [b]`,
   * truncated to 64 bits.
   */
  lemma AccumulateGroup(prefix: seq<byte>, b: byte)
    requires |prefix| <= 9
    ensures GroupsValue(prefix) < TWO_64
    ensures BitOr(GroupsValue(prefix), ShiftLeft64(b as int % 128, 7 * |prefix|))
            == GroupsValue(prefix + [b]) % TWO_64
  {
    var s := 7 * |prefix|;
    var p, q := Pow2(s), Pow2(64 - s);
    var g := b as int % 128;
    var a := GroupsValue(prefix);
    var t := ShiftLeft64(g, s);
    assert a < p by {
      GroupsValueBound(prefix);
    }
    assert p <= TWO_64 by {
      Pow2Monotone(s, 64);
      Pow2Sixty4();
    }
    assert GroupsValue(prefix + [b]) == a + g * p by {
      assert (prefix + [b])[..|prefix|] == prefix;
      ShlIsMul(g, s);
    }
    assert p * q == TWO_64 && t == p * (g % q) && t % p == 0 by {
      ShiftLeftInRange(g, s);
    }
    assert (a + g * p) % (p * q) == a + p * (g % q) by {
      AddScaledMod(a, g, p, q);
    }
    assert BitOr(a, t) == a + t by {
      BitOrDisjoint(a, t, s);
    }
  }
}
