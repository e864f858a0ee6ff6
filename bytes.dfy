/**
 * Bytes and their big-endian and little-endian integer values.
 * Integers are unbounded: byte k of an integer v is (v >> 8k) & 0xFF, which on
 * negative values, with Dafny's Euclidean division, is the two's complement byte.
 */
module Bytes {
  type byte = x: int | 0 <= x < 256

  /** 256 to the power n, that is 2^(8n). */
  function Pow256(n: nat): (r: nat)
    ensures r >= 1
  {
    if n == 0 then 1 else 256 * Pow256(n - 1)
  }

  function Pow2(n: nat): (r: nat)
    ensures r >= 1
  {
    if n == 0 then 1 else 2 * Pow2(n - 1)
  }

  /** x >> c. */
  function Shr(x: nat, c: nat): nat
  {
    DivNonNeg(x, Pow2(c));
    x / Pow2(c)
  }

  lemma {:induction false} DivNonNeg(x: nat, p: int)
    requires p > 0
    ensures x / p >= 0
  {
    var q := x / p;
    if q < 0 {
      MulMono(p, q, -1);
      assert false;
    }
  }

  /** x & ~(~0 << n): the n low-order bits of x. */
  function LowBits(x: nat, n: nat): nat
  {
    x % Pow2(n)
  }

  /** Byte number k (counting from the least significant) of v: (v >> 8k) & 0xFF. */
  function ByteOf(v: int, k: nat): byte
  {
    (v / Pow256(k)) % 256
  }

  /** Exclusive or of the n low-order bits of a and b. */
  function XorBits(a: nat, b: nat, n: nat): (r: nat)
    ensures r < Pow2(n)
  {
    if n == 0 then 0
    else (if a % 2 != b % 2 then 1 else 0) + 2 * XorBits(a / 2, b / 2, n - 1)
  }

  /** Exclusive or of two bytes. */
  function Xor(a: byte, b: byte): byte
  {
    assert Pow2(8) == 256;
    XorBits(a, b, 8)
  }

  /** Value of a sequence of bytes read most significant first. */
  function BE(s: seq<byte>): nat
  {
    if s == [] then 0 else 256 * BE(s[..|s| - 1]) + s[|s| - 1]
  }

  /** Value of a sequence of bytes read least significant first. */
  function LE(s: seq<byte>): nat
  {
    if s == [] then 0 else s[0] + 256 * LE(s[1..])
  }

  /** The n bytes of v (modulo 2^(8n)), most significant first. */
  function BEBytes(v: int, n: nat): (r: seq<byte>)
    decreases n
    ensures |r| == n
  {
    if n == 0 then [] else BEBytes(v / 256, n - 1) + [v % 256]
  }

  /** The n bytes of v (modulo 2^(8n)), least significant first. */
  function LEBytes(v: int, n: nat): (r: seq<byte>)
    decreases n
    ensures |r| == n
  {
    if n == 0 then [] else [v % 256] + LEBytes(v / 256, n - 1)
  }

  /** Euclidean division is unique. */
  lemma {:induction false} DivModUnique(v: int, m: int, q: int, r: int)
    requires m > 0 && 0 <= r < m && v == m * q + r
    ensures v / m == q && v % m == r
  {
    var q0, r0 := v / m, v % m;
    assert v == m * q0 + r0;
    if q0 > q {
      assert m * q0 >= m * (q + 1) by { MulMono(m, q + 1, q0); }
      assert false;
    } else if q0 < q {
      assert m * q >= m * (q0 + 1) by { MulMono(m, q0 + 1, q); }
      assert false;
    }
  }

  lemma {:induction false} DivModOfProduct(v: int, q: int, m: int, r: int)
    requires m > 0 && 0 <= r < m && v == q * m + r
    ensures v / m == q && v % m == r
  {
    DivModUnique(v, m, q, r);
  }

  lemma {:induction false} MulSplit(a: int, b: int, q: int, r: int)
    ensures a * (b * q + r) == (a * b) * q + a * r
  {
  }

  lemma {:induction false} MulMono(m: int, a: int, b: int)
    requires m > 0 && a <= b
    ensures m * a <= m * b
  {
  }

  lemma {:induction false} DivDiv(v: int, a: int, b: int)
    requires a > 0 && b > 0
    ensures v / a / b == v / (a * b)
    ensures v % (a * b) == v % a + a * ((v / a) % b)
  {
    var q, r := v / a, v % a;
    var q2, r2 := q / b, q % b;
    assert v == a * q + r;
    assert q == b * q2 + r2;
    MulSplit(a, b, q2, r2);
    MulMono(a, r2, b - 1);
    MulSplit(a, b, 1, -1);
    DivModUnique(v, a * b, q2, a * r2 + r);
  }

  lemma {:induction false} ByteOfStep(v: int, k: nat)
    ensures ByteOf(v, k + 1) == ByteOf(v / 256, k)
  {
    DivDiv(v, 256, Pow256(k));
  }

  lemma {:induction false} BEBytesAt(v: int, n: nat, k: nat)
    decreases n
    requires k < n
    ensures BEBytes(v, n)[k] == ByteOf(v, n - 1 - k)
  {
    if k < n - 1 {
      BEBytesAt(v / 256, n - 1, k);
      ByteOfStep(v, n - 2 - k);
    }
  }

  lemma {:induction false} LEBytesAt(v: int, n: nat, k: nat)
    decreases n
    requires k < n
    ensures LEBytes(v, n)[k] == ByteOf(v, k)
  {
    if k > 0 {
      LEBytesAt(v / 256, n - 1, k - 1);
      ByteOfStep(v, k - 1);
    }
  }

  /** The big-endian value of the n-byte encoding of v is v modulo 2^(8n). */
  lemma {:induction false} BERoundTrip(v: int, n: nat)
    decreases n
    ensures BE(BEBytes(v, n)) == v % Pow256(n)
  {
    if n > 0 {
      var s := BEBytes(v, n);
      assert s[..n - 1] == BEBytes(v / 256, n - 1);
      BERoundTrip(v / 256, n - 1);
      DivDiv(v, 256, Pow256(n - 1));
    }
  }

  /** The little-endian value of the n-byte encoding of v is v modulo 2^(8n). */
  lemma {:induction false} LERoundTrip(v: int, n: nat)
    decreases n
    ensures LE(LEBytes(v, n)) == v % Pow256(n)
  {
    if n > 0 {
      var s := LEBytes(v, n);
      assert s[1..] == LEBytes(v / 256, n - 1);
      LERoundTrip(v / 256, n - 1);
      DivDiv(v, 256, Pow256(n - 1));
    }
  }

  lemma {:induction false} BEBound(s: seq<byte>)
    ensures BE(s) < Pow256(|s|)
  {
    if s != [] {
      BEBound(s[..|s| - 1]);
    }
  }

  lemma {:induction false} LEBound(s: seq<byte>)
    ensures LE(s) < Pow256(|s|)
  {
    if s != [] {
      LEBound(s[1..]);
    }
  }

  /** A byte sequence is the encoding of its own value: encoding is injective on n bytes. */
  lemma {:induction false} BEBytesOfBE(s: seq<byte>)
    ensures BEBytes(BE(s), |s|) == s
  {
    if s != [] {
      var p := s[..|s| - 1];
      var v := BE(s);
      DivModUnique(v, 256, BE(p), s[|s| - 1]);
      BEBytesOfBE(p);
      assert s == p + [s[|s| - 1]];
    }
  }

  lemma {:induction false} LEBytesOfLE(s: seq<byte>)
    ensures LEBytes(LE(s), |s|) == s
  {
    if s != [] {
      var v := LE(s);
      DivModUnique(v, 256, LE(s[1..]), s[0]);
      LEBytesOfLE(s[1..]);
      assert s == [s[0]] + s[1..];
    }
  }


  /** Masking twice with the same bits gives back the original value. */
  lemma {:induction false} XorBitsInvolution(a: nat, b: nat, n: nat)
    requires a < Pow2(n)
    ensures XorBits(XorBits(a, b, n), b, n) == a
  {
    if n > 0 {
      var c := XorBits(a, b, n);
      var d := if a % 2 != b % 2 then 1 else 0;
      var c1 := XorBits(a / 2, b / 2, n - 1);
      DivModUnique(c, 2, c1, d);
      XorBitsInvolution(a / 2, b / 2, n - 1);
    }
  }

  lemma {:induction false} XorInvolution(a: byte, b: byte)
    ensures Xor(Xor(a, b), b) == a
  {
    assert Pow2(8) == 256;
    XorBitsInvolution(a, b, 8);
  }

  // ---------------------------------------------------------------------
  // Bitwise and, bit strings
  // ---------------------------------------------------------------------

  /** Bitwise and of the n low-order bits of a and b. */
  function AndBits(a: nat, b: nat, n: nat): (r: nat)
    ensures r < Pow2(n)
  {
    if n == 0 then 0
    else (if a % 2 == 1 && b % 2 == 1 then 1 else 0) + 2 * AndBits(a / 2, b / 2, n - 1)
  }

  /** Bitwise and of two bytes. */
  function And(a: byte, b: byte): byte
  {
    assert Pow2(8) == 256;
    AndBits(a, b, 8)
  }

  /** A mask of n one bits keeps a value of n bits unchanged. */
  lemma {:induction false} AndBitsAllOnes(a: nat, n: nat)
    requires a < Pow2(n)
    ensures AndBits(a, Pow2(n) - 1, n) == a
  {
    if n > 0 {
      var m := Pow2(n) - 1;
      assert m % 2 == 1 && m / 2 == Pow2(n - 1) - 1;
      AndBitsAllOnes(a / 2, n - 1);
    }
  }

  lemma {:induction false} AndFF(a: byte)
    ensures And(a, 0xFF) == a
  {
    assert Pow2(8) == 256;
    AndBitsAllOnes(a, 8);
  }

  /** Bitwise or of the n low-order bits of a and b. */
  function OrBits(a: nat, b: nat, n: nat): (r: nat)
    ensures r < Pow2(n)
  {
    if n == 0 then 0
    else (if a % 2 == 1 || b % 2 == 1 then 1 else 0) + 2 * OrBits(a / 2, b / 2, n - 1)
  }

  /** Or with zero keeps the n low-order bits. */
  lemma {:induction false} OrBitsZero(b: nat, n: nat)
    ensures OrBits(0, b, n) == LowBits(b, n)
  {
    if n > 0 {
      OrBitsZero(b / 2, n - 1);
      DivDiv(b, 2, Pow2(n - 1));
    }
  }

  /** A value of k bits or'ed with a value shifted left by k bits is their sum. */
  lemma {:induction false} OrBitsShifted(a: nat, x: nat, k: nat, n: nat)
    requires a < Pow2(k) && k <= n
    ensures OrBits(a, Shl(x, k), n) == a + Shl(OrBits(0, x, n - k), k)
  {
    if k > 0 {
      assert Shl(x, k) % 2 == 0 && Shl(x, k) / 2 == Shl(x, k - 1);
      OrBitsShifted(a / 2, x, k - 1, n - 1);
    }
  }

  lemma {:induction false} Pow2Add(a: nat, b: nat)
    ensures Pow2(a + b) == Pow2(a) * Pow2(b)
    decreases b
  {
    if b > 0 {
      Pow2Add(a, b - 1);
      assert Pow2(a + b) == 2 * Pow2(a + b - 1);
    }
  }

  lemma {:induction false} Pow256IsPow2(n: nat)
    ensures Pow256(n) == Pow2(8 * n)
  {
    if n > 0 {
      Pow256IsPow2(n - 1);
      Pow2Add(8 * (n - 1), 8);
      assert Pow2(8) == 256;
    }
  }

  /**
   * Bit i of a byte string, bits being numbered from the most significant bit
   * of the first byte, as in the syntax tables of ISO/IEC 13818-1.
   */
  function Bit(s: seq<byte>, i: nat): nat
    requires i < 8 * |s|
  {
    BitOf(s[i / 8], 7 - i % 8)
  }

  /** Bit j (counting from the least significant) of x. */
  function BitOf(x: nat, j: nat): (r: nat)
    ensures r < 2
  {
    if j == 0 then x % 2 else BitOf(x / 2, j - 1)
  }

  lemma {:induction false} BitOfIsShift(x: nat, j: nat)
    ensures BitOf(x, j) == (x / Pow2(j)) % 2
  {
    if j > 0 {
      BitOfIsShift(x / 2, j - 1);
      DivDiv(x, 2, Pow2(j - 1));
    }
  }

  /** Unsigned value of the n bits of s starting at bit offset `off`, most significant first. */
  function BitsValue(s: seq<byte>, off: nat, n: nat): (r: nat)
    requires off + n <= 8 * |s|
    ensures r < Pow2(n)
  {
    if n == 0 then 0 else 2 * BitsValue(s, off, n - 1) + Bit(s, off + n - 1)
  }

  /** x shifted left by c bits. */
  function Shl(x: nat, c: nat): nat
  {
    if c == 0 then x else 2 * Shl(x, c - 1)
  }

  lemma {:induction false} ShlIsMul(x: nat, c: nat)
    ensures Shl(x, c) == x * Pow2(c)
  {
    if c > 0 {
      ShlIsMul(x, c - 1);
      assert 2 * (x * Pow2(c - 1)) == x * (2 * Pow2(c - 1));
    }
  }

  /** A bit field made of two adjacent fields. */
  lemma {:induction false} BitsConcat(s: seq<byte>, a: nat, b: nat, c: nat)
    requires a + b + c <= 8 * |s|
    ensures BitsValue(s, a, b + c) == Shl(BitsValue(s, a, b), c) + BitsValue(s, a + b, c)
    decreases c
  {
    if c > 0 {
      BitsConcat(s, a, b, c - 1);
    }
  }

  /** The first j bits of byte k are the byte shifted right by 8 - j. */
  lemma {:induction false} BitsOfByte(s: seq<byte>, k: nat, j: nat)
    requires k < |s| && j <= 8
    ensures BitsValue(s, 8 * k, j) == s[k] / Pow2(8 - j)
  {
    if j == 0 {
      assert Pow2(8) == 256;
    } else {
      BitsOfByte(s, k, j - 1);
      var x := s[k];
      var y := x / Pow2(8 - j);
      assert (8 * k + j - 1) / 8 == k && (8 * k + j - 1) % 8 == j - 1;
      BitOfIsShift(x, 8 - j);
      assert Pow2(9 - j) == Pow2(8 - j) * 2;
      DivDiv(x, Pow2(8 - j), 2);
      assert x / Pow2(9 - j) == y / 2;
    }
  }

  /** Bits [8k, 8(k+n)) read as a number are the big-endian value of bytes [k, k+n). */
  lemma {:induction false} BitsOfBytes(s: seq<byte>, k: nat, n: nat)
    requires k + n <= |s|
    ensures BitsValue(s, 8 * k, 8 * n) == BE(s[k..k + n])
  {
    if n > 0 {
      BitsOfBytes(s, k, n - 1);
      BitsOfLastByte(s, k, n);
      BEOfLastByte(s, k, n);
      assert BitsValue(s, 8 * k, 8 * n) == 256 * BE(s[k..k + n - 1]) + s[k + n - 1];
    }
  }

  lemma {:induction false} BitsOfLastByte(s: seq<byte>, k: nat, n: nat)
    requires 0 < n && k + n <= |s|
    ensures BitsValue(s, 8 * k, 8 * n) == 256 * BitsValue(s, 8 * k, 8 * (n - 1)) + s[k + n - 1]
  {
    assert 8 * (n - 1) + 8 == 8 * n && 8 * k + 8 * (n - 1) == 8 * (k + n - 1);
    AppendByte(s, 8 * k, 8 * (n - 1), k + n - 1);
  }

  lemma {:induction false} AppendByte(s: seq<byte>, b: nat, m: nat, last: nat)
    requires last < |s| && b + m == 8 * last
    ensures BitsValue(s, b, m + 8) == 256 * BitsValue(s, b, m) + s[last]
  {
    var x := BitsValue(s, b, m);
    BitsConcat(s, b, m, 8);
    ByteBits(s, last);
    ShlByte(x);
  }

  lemma {:induction false} ShlByte(x: nat)
    ensures Shl(x, 8) == 256 * x
  {
    ShlIsMul(x, 8);
    assert Pow2(8) == 256;
  }

  lemma {:induction false} ByteBits(s: seq<byte>, k: nat)
    requires k < |s|
    ensures BitsValue(s, 8 * k, 8) == s[k]
  {
    BitsOfByte(s, k, 8);
    assert Pow2(0) == 1;
  }

  lemma {:induction false} BEOfLastByte(s: seq<byte>, k: nat, n: nat)
    requires 0 < n && k + n <= |s|
    ensures BE(s[k..k + n]) == 256 * BE(s[k..k + n - 1]) + s[k + n - 1]
  {
    var t := s[k..k + n];
    assert t[..n - 1] == s[k..k + n - 1];
  }

  /** A value of a + b bits shifted right by b bits has a bits. */
  lemma {:induction false} ShiftBound(x: nat, a: nat, b: nat)
    requires x < Pow2(a + b)
    ensures x / Pow2(b) < Pow2(a)
  {
    Pow2Add(a, b);
    DivBound(x, Pow2(a), Pow2(b));
  }

  lemma {:induction false} DivBound(x: nat, p: int, q: int)
    requires p > 0 && q > 0 && x < p * q
    ensures x / q < p
  {
    var d := x / q;
    assert q * d <= x;
    if d >= p {
      MulMono(q, p, d);
      assert false;
    }
  }

  /**
   * The bit field [off, off + n) of s is found by reading the bytes that hold
   * it as a big-endian integer, dropping the bits after it and keeping n bits.
   */
  lemma {:induction false} BitFieldFromBytes(s: seq<byte>, off: nat, n: nat)
    requires (off + n + 7) / 8 <= |s|
    ensures var first, after := off / 8, (off + n + 7) / 8;
            var t := 8 * after - (off + n);
            BE(s[first..after]) / Pow2(t) % Pow2(n) == BitsValue(s, off, n)
  {
    var first, after := off / 8, (off + n + 7) / 8;
    var t := 8 * after - (off + n);
    var lead := off - 8 * first;
    assert 8 * first + lead == off && 8 * (after - first) == lead + n + t;
    BitField(s, first, after, lead, n, t);
  }

  lemma {:induction false} BitField(s: seq<byte>, first: nat, after: nat, lead: nat, n: nat, t: nat)
    requires first <= after <= |s| && 8 * (after - first) == lead + n + t
    ensures BE(s[first..after]) / Pow2(t) % Pow2(n) == BitsValue(s, 8 * first + lead, n)
  {
    var b, v := 8 * first, BE(s[first..after]);
    BytesAsBits(s, first, after, lead + n + t);
    assert v == BitsValue(s, b, lead + n + t);
    SplitField(s, b, lead, n, t);
  }

  lemma {:induction false} SplitField(s: seq<byte>, b: nat, lead: nat, n: nat, t: nat)
    requires b + lead + n + t <= 8 * |s|
    ensures BitsValue(s, b, lead + n + t) / Pow2(t) % Pow2(n) == BitsValue(s, b + lead, n)
  {
    var m := lead + n;
    DropLowBits(s, b, m, t);
    KeepLowBits(s, b, lead, n);
  }

  /** Dropping the last c bits of a field of b + c bits. */
  lemma {:induction false} DropLowBits(s: seq<byte>, a: nat, b: nat, c: nat)
    requires a + b + c <= 8 * |s|
    ensures BitsValue(s, a, b + c) / Pow2(c) == BitsValue(s, a, b)
  {
    var v, q, r := BitsValue(s, a, b + c), BitsValue(s, a, b), BitsValue(s, a + b, c);
    BitsConcat(s, a, b, c);
    ShlIsMul(q, c);
    DivModOfProduct(v, q, Pow2(c), r);
  }

  /** Keeping the last c bits of a field of b + c bits. */
  lemma {:induction false} KeepLowBits(s: seq<byte>, a: nat, b: nat, c: nat)
    requires a + b + c <= 8 * |s|
    ensures BitsValue(s, a, b + c) % Pow2(c) == BitsValue(s, a + b, c)
  {
    var v, q, r := BitsValue(s, a, b + c), BitsValue(s, a, b), BitsValue(s, a + b, c);
    BitsConcat(s, a, b, c);
    ShlIsMul(q, c);
    DivModOfProduct(v, q, Pow2(c), r);
  }

  lemma {:induction false} BytesAsBits(s: seq<byte>, first: nat, after: nat, bits: nat)
    requires first <= after <= |s| && 8 * (after - first) == bits
    ensures BE(s[first..after]) == BitsValue(s, 8 * first, bits)
  {
    BitsOfBytes(s, first, after - first);
  }
}
