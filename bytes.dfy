/** Fixed-width integers and their little-endian byte encoding, as the packed
    structs (x86 `memcpy`) and `ByteOrder.LITTLE_ENDIAN` buffers lay them out. */
module Bytes {

  type byte = b: int | 0 <= b < 256

  const U32_LIMIT: int := 0x1_0000_0000
  const U64_LIMIT: int := 0x1_0000_0000_0000_0000
  const I32_LIMIT: int := 0x8000_0000
  const I64_LIMIT: int := 0x8000_0000_0000_0000

  type u32 = x: int | 0 <= x < 0x1_0000_0000
  type u64 = x: int | 0 <= x < 0x1_0000_0000_0000_0000
  type i32 = x: int | -0x8000_0000 <= x < 0x8000_0000
  type i64 = x: int | -0x8000_0000_0000_0000 <= x < 0x8000_0000_0000_0000

  function Pow256(n: nat): (r: nat)
    ensures r >= 1
  {
    if n == 0 then 1 else 256 * Pow256(n - 1)
  }

  lemma Pow256Widths()
    ensures Pow256(4) == U32_LIMIT
    ensures Pow256(8) == U64_LIMIT
  {
    assert Pow256(2) == 0x1_0000;
    assert Pow256(4) == 0x1_0000 * 0x1_0000;
    assert Pow256(6) == 0x1_0000_0000 * 0x1_0000;
    assert Pow256(8) == 0x1_0000_0000_0000 * 0x1_0000;
  }

  /** The `n` low-order bytes of `v`, least significant first: the two's complement
      bytes of a negative value, and only the low-order part of a value too wide
      for `n` bytes, as a narrowing store writes them. */
  function ToLE(v: int, n: nat): (s: seq<byte>)
    ensures |s| == n
    decreases n
  {
    if n == 0 then [] else [v % 256] + ToLE(v / 256, n - 1)
  }

  /** The value of a little-endian byte string. */
  function FromLE(s: seq<byte>): nat
  {
    if s == [] then 0 else s[0] + 256 * FromLE(s[1..])
  }

  /** An `n`-byte string encodes a value below 256^n. */
  lemma {:induction false} FromLEBound(s: seq<byte>)
    ensures FromLE(s) < Pow256(|s|)
  {
    if s != [] {
      FromLEBound(s[1..]);
    }
  }

  function Zeros(n: nat): (s: seq<byte>)
    ensures |s| == n
    ensures forall i :: 0 <= i < n ==> s[i] == 0
  {
    seq(n, _ => 0)
  }

  /** Decoding inverts encoding. */
  lemma {:induction false} FromToLE(v: nat, n: nat)
    requires v < Pow256(n)
    ensures FromLE(ToLE(v, n)) == v
  {
    if n > 0 {
      FromToLE(v / 256, n - 1);
      assert ToLE(v, n)[1..] == ToLE(v / 256, n - 1);
    }
  }

  /** Encoding inverts decoding: a byte string is determined by its value and length. */
  lemma {:induction false} ToFromLE(s: seq<byte>)
    ensures ToLE(FromLE(s), |s|) == s
  {
    if s != [] {
      ToFromLE(s[1..]);
      var v := FromLE(s);
      DivModUnique(v, 256, FromLE(s[1..]), s[0] as int);
      assert ToLE(v, |s|) == [s[0]] + ToLE(FromLE(s[1..]), |s| - 1);
      assert s == [s[0]] + s[1..];
    }
  }

  /** The value of a concatenation: the second part carries the high-order bytes. */
  lemma {:induction false} FromLEAppend(a: seq<byte>, b: seq<byte>)
    ensures FromLE(a + b) == FromLE(a) + Pow256(|a|) * FromLE(b)
  {
    if a == [] {
      assert a + b == b;
    } else {
      assert (a + b)[1..] == a[1..] + b;
      FromLEAppend(a[1..], b);
      ShiftByte(FromLE(a[1..]), Pow256(|a| - 1), FromLE(b));
    }
  }

  lemma ShiftByte(x: int, p: int, y: int)
    ensures 256 * (x + p * y) == 256 * x + (256 * p) * y
  {
  }

  /** Euclidean division is unique: a value written as `r + p * q` with `0 <= r < p`
      has quotient `q` and remainder `r`. */
  lemma DivModUnique(v: int, p: int, q: int, r: int)
    requires p > 0 && 0 <= r < p && v == r + p * q
    ensures v / p == q && v % p == r
  {
    var q', r' := v / p, v % p;
    assert v == r' + p * q';
    assert p * (q - q') == r' - r;
    if q - q' >= 1 {
      MulAtLeast(p, q - q');
    } else if q' - q >= 1 {
      MulAtLeast(p, q' - q);
    }
  }

  /** Adding a multiple of the modulus does not change a remainder. */
  lemma ModShift(x: int, k: int, m: int)
    requires m > 0
    ensures (x + m * k) % m == x % m
  {
    assert x + m * k == x % m + m * (x / m + k);
    DivModUnique(x + m * k, m, x / m + k, x % m);
  }

  lemma MulAtLeast(p: int, k: int)
    requires p > 0 && k >= 1
    ensures p * k >= p
  {
    assert p * k == p * (k - 1) + p;
    assert p * (k - 1) >= 0;
  }

  /** Splitting an encoding: the first `m` bytes encode `v mod 256^m`, the rest `v div 256^m`. */
  lemma ToLESplit(v: int, m: nat, n: nat)
    requires 0 <= v < Pow256(m + n)
    ensures v / Pow256(m) < Pow256(n)
    ensures ToLE(v, m + n) == ToLE(v % Pow256(m), m) + ToLE(v / Pow256(m), n)
  {
    var s := ToLE(v, m + n);
    var lo, hi := s[..m], s[m..];
    assert s == lo + hi;
    var p := Pow256(m);
    assert v == FromLE(lo) + p * FromLE(hi) by {
      FromLEAppend(lo, hi);
      FromToLE(v, m + n);
    }
    FromLEBound(lo);
    FromLEBound(hi);
    DivModUnique(v, p, FromLE(hi), FromLE(lo));
    assert ToLE(v % p, m) == lo by {
      ToFromLE(lo);
    }
    assert ToLE(v / p, n) == hi by {
      ToFromLE(hi);
    }
  }

  lemma DivDiv(v: nat, a: nat, b: nat)
    requires a > 0 && b > 0
    ensures v / a / b == v / (a * b)
  {
    var q := v / a / b;
    var r := v / a % b;
    DivSplit(v, a, b, q, r);
    DivModUnique(v, a * b, q, v % a + a * r);
  }

  /** Dividing by `a` and then by `b` splits `v` into a quotient by `a * b` and a remainder below it. */
  lemma DivSplit(v: nat, a: nat, b: nat, q: int, r: int)
    requires a > 0 && b > 0 && 0 <= r < b && v / a == r + b * q
    ensures v == (v % a + a * r) + (a * b) * q
    ensures 0 <= v % a + a * r < a * b
  {
    assert a * (v / a) == a * r + (a * b) * q by {
      assert a * (r + b * q) == a * r + a * (b * q);
    }
    assert a * r <= a * (b - 1);
  }

  /** A `uint32_t` as the four bytes a little-endian store writes. */
  function StoreU32(v: u32): (s: seq<byte>)
    ensures |s| == 4
  {
    [v % 0x100, v / 0x100 % 0x100, v / 0x1_0000 % 0x100, v / 0x100_0000 % 0x100]
  }

  /** A `uint64_t` as eight bytes: its low 32-bit word, then its high word. */
  function StoreU64(v: u64): (s: seq<byte>)
    ensures |s| == 8
  {
    StoreU32(v % U32_LIMIT) + StoreU32(v / U32_LIMIT)
  }

  /** The fixed-width stores agree with the general encoding. */
  lemma StoreU32IsLE(v: u32)
    ensures StoreU32(v) == ToLE(v, 4)
  {
    DivDiv(v, 0x100, 0x100);
    DivDiv(v, 0x1_0000, 0x100);
    assert ToLE(v, 4) == [v % 256] + ToLE(v / 256, 3);
    assert ToLE(v / 256, 3) == [v / 256 % 256] + ToLE(v / 256 / 256, 2);
    assert ToLE(v / 256 / 256, 2) == [v / 0x1_0000 % 256] + ToLE(v / 0x1_0000 / 256, 1);
  }

  lemma StoreU64IsLE(v: u64)
    ensures StoreU64(v) == ToLE(v, 8)
  {
    Pow256Widths();
    ToLESplit(v, 4, 4);
    StoreU32IsLE(v % U32_LIMIT);
    StoreU32IsLE(v / U32_LIMIT);
  }

  /** A 4-byte little-endian field read as `uint32_t`. */
  function LoadU32(s: seq<byte>): u32
    requires |s| == 4
  {
    Pow256Widths();
    FromLEBound(s);
    FromLE(s)
  }

  /** An 8-byte little-endian field read as `uint64_t`. */
  function LoadU64(s: seq<byte>): u64
    requires |s| == 8
  {
    Pow256Widths();
    FromLEBound(s);
    FromLE(s)
  }

  /** Storing what was loaded gives the bytes back. */
  lemma StoreLoadU32(s: seq<byte>)
    requires |s| == 4
    ensures StoreU32(LoadU32(s)) == s
  {
    Pow256Widths();
    ToFromLE(s);
    FromLEBound(s);
    StoreU32IsLE(FromLE(s));
  }

  lemma StoreLoadU64(s: seq<byte>)
    requires |s| == 8
    ensures StoreU64(LoadU64(s)) == s
  {
    Pow256Widths();
    ToFromLE(s);
    FromLEBound(s);
    StoreU64IsLE(FromLE(s));
  }

  /** Loading what was stored gives the value back. */
  lemma LoadStoreU32(v: u32)
    ensures LoadU32(StoreU32(v)) == v
  {
    Pow256Widths();
    StoreU32IsLE(v);
    FromToLE(v, 4);
  }

  lemma LoadStoreU64(v: u64)
    ensures LoadU64(StoreU64(v)) == v
  {
    Pow256Widths();
    StoreU64IsLE(v);
    FromToLE(v, 8);
  }

  // ---------------------------------------------------------------------
  // Two's complement views of the same bits.

  /** A 32-bit pattern read as a signed Java/Kotlin `Int`. */
  function Signed32(x: u32): (r: i32)
    ensures r % U32_LIMIT == x
  {
    if x < I32_LIMIT then x else x - U32_LIMIT
  }

  /** A 64-bit pattern read as a signed `int64_t` or Kotlin `Long`. */
  function Signed64(x: u64): (r: i64)
    ensures r % U64_LIMIT == x
  {
    if x < I64_LIMIT then x else x - U64_LIMIT
  }

  /** Storing a signed 32-bit value in 32 bits and reading it back as signed is the identity. */
  lemma SignedWrap32(x: i32)
    ensures Signed32(x % U32_LIMIT) == x
  {
    if x < 0 {
      DivModUnique(x, U32_LIMIT, -1, x + U32_LIMIT);
    }
  }

  /** Unsigned 64-bit arithmetic: the result modulo 2^64. */
  function WrapU64(x: int): (r: u64)
    ensures (x - r) % U64_LIMIT == 0
  {
    x % U64_LIMIT
  }

  /** Signed 64-bit two's complement wrap-around (Kotlin `Long` arithmetic). */
  function WrapI64(x: int): (r: i64)
    ensures (x - r) % U64_LIMIT == 0
    ensures I64_LIMIT * -1 <= x < I64_LIMIT ==> r == x
  {
    Signed64(x % U64_LIMIT)
  }

  /** Integer division rounding toward zero, as in C++, Java and Kotlin: the
      remainder `a - q * b` has the sign of `a` and is smaller than `b` in size. */
  function TruncDiv(a: int, b: int): (q: int)
    requires b > 0
    ensures a >= 0 ==> 0 <= a - q * b < b
    ensures a < 0 ==> -b < a - q * b <= 0
  {
    if a >= 0 then a / b else -((-a) / b)
  }
}
