/**
 * Fixed-width unsigned integers, little-endian byte codecs and single-bit
 * mask operations shared by every wire layout of the gs_usb protocol.
 */
module Bytes {

  type u8 = x: int | 0 <= x < 0x100
  type u16 = x: int | 0 <= x < 0x1_0000
  type u32 = x: int | 0 <= x < 0x1_0000_0000

  const U32_MAX: u32 := 0xFFFF_FFFF

  /** The four bytes of `x`, least significant first (scroll's `LE` context). */
  function LE32(x: u32): (b: seq<u8>)
    ensures |b| == 4
  {
    [x % 0x100, x / 0x100 % 0x100, x / 0x1_0000 % 0x100, x / 0x100_0000]
  }

  /** The u32 stored little-endian in `s[off..off + 4]`. */
  function ReadLE32(s: seq<u8>, off: nat): (x: u32)
    requires off + 4 <= |s|
    ensures x == 0 <==> s[off] == 0 && s[off + 1] == 0 && s[off + 2] == 0 && s[off + 3] == 0
  {
    var b0: int, b1: int, b2: int, b3: int := s[off], s[off + 1], s[off + 2], s[off + 3];
    b0 + 0x100 * b1 + 0x1_0000 * b2 + 0x100_0000 * b3
  }

  /** Reading back an encoded u32 gives the value that was encoded. */
  lemma ReadLE32OfLE32(s: seq<u8>, off: nat, x: u32)
    requires off + 4 <= |s| && s[off..off + 4] == LE32(x)
    ensures ReadLE32(s, off) == x
  {
    var q1 := x / 0x100;
    var q2 := q1 / 0x100;
    assert x / 0x1_0000 == q2 && x / 0x100_0000 == q2 / 0x100;
    assert s[off] == x % 0x100 && s[off + 1] == q1 % 0x100;
    assert s[off + 2] == q2 % 0x100 && s[off + 3] == q2 / 0x100;
    assert q1 == q1 % 0x100 + 0x100 * q2;
    assert q2 == q2 % 0x100 + 0x100 * (q2 / 0x100);
  }

  /** Encoding a value read from four bytes reproduces those bytes. */
  lemma LE32OfReadLE32(s: seq<u8>, off: nat)
    requires off + 4 <= |s|
    ensures LE32(ReadLE32(s, off)) == s[off..off + 4]
  {
    var b0: int, b1: int, b2: int, b3: int := s[off], s[off + 1], s[off + 2], s[off + 3];
    var x := ReadLE32(s, off);
    assert x == b0 + 0x100 * (b1 + 0x100 * (b2 + 0x100 * b3));
    DivModUnique(x, b0, b1 + 0x100 * (b2 + 0x100 * b3));
    DivModUnique(x / 0x100, b1, b2 + 0x100 * b3);
    DivModUnique(x / 0x1_0000, b2, b3);
    assert x / 0x1_0000 == x / 0x100 / 0x100;
    assert x / 0x100_0000 == x / 0x1_0000 / 0x100;
  }

  /** Quotient and remainder by 256 are determined by any decomposition with a byte-sized remainder. */
  lemma DivModUnique(x: int, lo: int, hi: int)
    requires 0 <= lo < 0x100 && x == lo + 0x100 * hi
    ensures x % 0x100 == lo && x / 0x100 == hi
  {
  }

  /** `1 << k`. */
  function Pow2(k: nat): (p: nat)
    ensures p >= 1
  {
    if k == 0 then 1 else 2 * Pow2(k - 1)
  }

  /** `1 << (a + b) == (1 << a) * (1 << b)`. */
  lemma {:induction false} Pow2Add(a: nat, b: nat)
    ensures Pow2(a + b) == Pow2(a) * Pow2(b)
  {
    if a > 0 {
      Pow2Add(a - 1, b);
    }
  }

  /** The powers of two that the identifier flag bits and u32 bounds use. */
  lemma Pow2Constants()
    ensures Pow2(8) == 0x100 && Pow2(16) == 0x1_0000
    ensures Pow2(29) == 0x2000_0000 && Pow2(30) == 0x4000_0000
    ensures Pow2(31) == 0x8000_0000 && Pow2(32) == 0x1_0000_0000
  {
    assert Pow2(8) == 0x100;
    Pow2Add(8, 8);
    Pow2Add(16, 8);
    Pow2Add(24, 5);
    Pow2Add(24, 6);
    Pow2Add(24, 7);
    Pow2Add(24, 8);
    assert Pow2(5) == 32;
  }

  /** `x & (1 << k) != 0`: bit `k` of `x` is set. */
  predicate BitSet(x: nat, k: nat) {
    if k == 0 then x % 2 == 1 else BitSet(x / 2, k - 1)
  }

  /** `x | (1 << k)`. */
  function SetBit(x: nat, k: nat): nat {
    if BitSet(x, k) then x else x + Pow2(k)
  }

  /** Adding `1 << k` to a value whose bit `k` is clear sets that bit and no other. */
  lemma {:induction false} AddClearBit(x: nat, k: nat, j: nat)
    requires !BitSet(x, k)
    ensures BitSet(x + Pow2(k), j) <==> BitSet(x, j) || j == k
  {
    if k == 0 {
      if j > 0 {
        assert (x + 1) / 2 == x / 2;
      }
    } else {
      assert (x + Pow2(k)) / 2 == x / 2 + Pow2(k - 1);
      assert (x + Pow2(k)) % 2 == x % 2;
      if j > 0 {
        AddClearBit(x / 2, k - 1, j - 1);
      }
    }
  }

  /** ORing in bit `k` turns that bit on and leaves every other bit as it was. */
  lemma SetBitBits(x: nat, k: nat)
    ensures forall j: nat :: BitSet(SetBit(x, k), j) <==> BitSet(x, j) || j == k
  {
    forall j: nat ensures BitSet(SetBit(x, k), j) <==> BitSet(x, j) || j == k {
      if !BitSet(x, k) {
        AddClearBit(x, k, j);
      }
    }
  }

  /** ORing a bit below position `n` into a value below `1 << n` stays below `1 << n`. */
  lemma {:induction false} SetBitBound(x: nat, k: nat, n: nat)
    requires x < Pow2(n) && k < n
    ensures SetBit(x, k) < Pow2(n)
  {
    if !BitSet(x, k) {
      assert Pow2(n) == 2 * Pow2(n - 1);
      if k == 0 {
        assert x % 2 == 0;
      } else {
        assert !BitSet(x / 2, k - 1);
        SetBitBound(x / 2, k - 1, n - 1);
        assert x + Pow2(k) == 2 * (x / 2 + Pow2(k - 1)) + x % 2;
      }
    }
  }

  /** A value below `1 << n` has no bit set at position `n` or above. */
  lemma {:induction false} NoBitsAbove(x: nat, n: nat, j: nat)
    requires x < Pow2(n) && n <= j
    ensures !BitSet(x, j)
  {
    if j > 0 && n > 0 {
      NoBitsAbove(x / 2, n - 1, j - 1);
    } else if j > 0 {
      assert x / 2 == 0;
      NoBitsAbove(0, 0, j - 1);
    }
  }

  /** Two values below `1 << n` that agree on bits `0 .. n-1` are equal. */
  lemma {:induction false} BitsDetermine(x: nat, y: nat, n: nat)
    requires x < Pow2(n) && y < Pow2(n)
    requires forall j: nat :: j < n ==> (BitSet(x, j) <==> BitSet(y, j))
    ensures x == y
  {
    if n > 0 {
      forall j: nat | j < n - 1 ensures BitSet(x / 2, j) <==> BitSet(y / 2, j) {
        assert BitSet(x, j + 1) <==> BitSet(y, j + 1);
      }
      BitsDetermine(x / 2, y / 2, n - 1);
      assert BitSet(x, 0) <==> BitSet(y, 0);
    }
  }

  /** `x & ((1 << n) - 1)`: the remainder by `1 << n` keeps exactly the bits of `x` below `n`. */
  lemma {:induction false} LowBits(x: nat, n: nat, j: nat)
    ensures BitSet(x % Pow2(n), j) <==> j < n && BitSet(x, j)
  {
    if n == 0 {
      NoBitsAbove(x % Pow2(n), 0, j);
    } else {
      ModHalf(x, Pow2(n - 1));
      if j > 0 {
        LowBits(x / 2, n - 1, j - 1);
      }
    }
  }

  /** The remainder by `2m` is the low bit followed by the remainder of the half by `m`. */
  lemma ModHalf(x: nat, m: nat)
    requires m > 0
    ensures x % (2 * m) % 2 == x % 2 && x % (2 * m) / 2 == x / 2 % m
  {
    var h, b := x / 2, x % 2;
    var r := 2 * (h % m) + b;
    assert h == h / m * m + h % m;
    assert x == h / m * (2 * m) + r;
    DivUnique(x, 2 * m, h / m, r);
    DivUnique(r, 2, h % m, b);
  }

  /** Integer division is determined by any quotient/remainder decomposition. */
  lemma DivUnique(x: int, d: int, q: int, r: int)
    requires d > 0 && 0 <= r < d && x == q * d + r
    ensures x / d == q && x % d == r
  {
    var q', r' := x / d, x % d;
    var k := q' - q;
    assert k * d == r - r' by {
      assert q' * d + r' == q * d + r;
      assert k * d == q' * d - q * d;
    }
    if k > 0 {
      MulAtLeast(k, d);
    } else if k < 0 {
      MulAtLeast(-k, d);
    }
  }

  /** A positive multiple of `d` is at least `d`. */
  lemma MulAtLeast(k: int, d: int)
    requires k >= 1 && d > 0
    ensures k * d >= d
  {
    assert k * d == (k - 1) * d + d;
    assert (k - 1) * d >= 0;
  }

  /** Dividing twice with truncation is dividing once by the product. */
  lemma DivDiv(a: nat, b: nat, c: nat)
    requires b > 0 && c > 0
    ensures a / b / c == a / (b * c)
  {
    var q, r := a / (b * c), a % (b * c);
    assert a == q * (b * c) + r;
    var s, t := r / b, r % b;
    assert r == s * b + t;
    assert s < c by {
      assert s * b <= r < c * b;
      if s >= c {
        MulMono(c, s, b);
      }
    }
    assert a == (q * c + s) * b + t by {
      assert q * (b * c) == (q * c) * b;
      assert (q * c + s) * b == (q * c) * b + s * b;
    }
    DivUnique(a, b, q * c + s, t);
    DivUnique(a / b, c, q, s);
  }

  /** Dividing by a positive integer never increases a natural number. */
  lemma DivAtMost(a: nat, b: nat)
    requires b > 0
    ensures a / b <= a
  {
    var q := a / b;
    if q > a {
      MulAtLeast(b, q);
    }
  }

  /** Multiplication by a non-negative factor is monotone. */
  lemma MulMono(x: int, y: int, b: int)
    requires x <= y && b >= 0
    ensures x * b <= y * b
  {
    assert y * b - x * b == (y - x) * b;
  }

  /** `BitSet` is the mask test `x & (1 << k) != 0`: bit k of the binary expansion. */
  lemma {:induction false} BitSetIsMaskTest(x: nat, k: nat)
    ensures BitSet(x, k) <==> x / Pow2(k) % 2 == 1
  {
    if k > 0 {
      BitSetIsMaskTest(x / 2, k - 1);
      DivDiv(x, 2, Pow2(k - 1));
    }
  }

  /** A slice of a slice is a slice of the original. */
  lemma SliceOfSlice<T>(b: seq<T>, lo: nat, hi: nat, s: nat, t: nat)
    requires lo <= hi <= |b| && s <= t <= hi - lo
    ensures b[lo..hi][s..t] == b[lo + s .. lo + t]
  {
    var w := b[lo..hi][s..t];
    forall k | 0 <= k < t - s ensures w[k] == b[lo + s + k] {
      assert w[k] == b[lo..hi][s + k];
    }
  }

  /** `n` zero bytes. */
  function Zeros(n: nat): (z: seq<u8>)
    ensures |z| == n && forall i :: 0 <= i < n ==> z[i] == 0
  {
    seq(n, _ => 0)
  }
}
