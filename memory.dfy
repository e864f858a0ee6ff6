/**
 * Memory-area helpers of the core library: comparison, prefix test, pattern
 * search, identical-bytes test, exclusive or, and the serialization to and
 * from big-endian and little-endian integers of 1 to 8 bytes.
 *
 * A constant memory area is a `seq<byte>`; a writable buffer is an
 * `array<byte>` with an offset. A returned pointer is an index into the area,
 * `None` standing for the null pointer.
 */
module Memory {
  import opened Bytes
  import opened Wrappers

  // ---------------------------------------------------------------------
  // Comparison
  // ---------------------------------------------------------------------

  /**
   * std::memcmp on the first `size` bytes: zero when they are equal (or
   * `size` is zero), otherwise the difference of the first differing bytes,
   * one of the results with the sign memcmp promises.
   */
  function MemCompare(a: seq<byte>, b: seq<byte>, size: nat): (r: int)
    requires size <= |a| && size <= |b|
    ensures r == 0 <==> a[..size] == b[..size]
    ensures r != 0 ==> exists k :: 0 <= k < size && a[..k] == b[..k] && r == a[k] as int - b[k] as int
    decreases size
  {
    if size == 0 then 0
    else if a[0] != b[0] then
      assert a[..0] == b[..0];
      a[0] as int - b[0] as int
    else
      var r := MemCompare(a[1..], b[1..], size - 1);
      assert a[..size] == [a[0]] + a[1..][..size - 1];
      assert b[..size] == [b[0]] + b[1..][..size - 1];
      if r != 0 then
        var k :| 0 <= k < size - 1 && a[1..][..k] == b[1..][..k] && r == a[1..][k] as int - b[1..][k] as int;
        assert a[..k + 1] == [a[0]] + a[1..][..k];
        assert b[..k + 1] == [b[0]] + b[1..][..k];
        r
      else r
  }

  /** Two memory areas are identical on `size` bytes; true when `size` is zero. */
  function MemEqual(a: seq<byte>, b: seq<byte>, size: nat): (r: bool)
    requires size <= |a| && size <= |b|
    ensures size == 0 ==> r
    ensures r <==> forall i :: 0 <= i < size ==> a[i] == b[i]
  {
    var c := size == 0 || MemCompare(a, b, size) == 0;
    assert c <==> a[..size] == b[..size];
    assert a[..size] == b[..size] <==> forall i :: 0 <= i < size ==> a[..size][i] == b[..size][i];
    c
  }

  /** The area starts with the prefix. */
  function StartsWith(area: seq<byte>, prefix: seq<byte>): (r: bool)
    ensures r <==> |prefix| <= |area| && area[..|prefix|] == prefix
  {
    var c := |area| >= |prefix| && MemEqual(area, prefix, |prefix|);
    assert |prefix| <= |area| ==> (area[..|prefix|] == prefix <==> forall i :: 0 <= i < |prefix| ==> area[i] == prefix[i]);
    c
  }

  // ---------------------------------------------------------------------
  // Search
  // ---------------------------------------------------------------------

  /** std::memchr over the indices [lo, hi): the first index holding `val`. */
  function MemChr(s: seq<byte>, lo: nat, hi: nat, val: byte): (r: Option<nat>)
    requires lo <= hi <= |s|
    ensures r.Some? ==> lo <= r.value < hi && s[r.value] == val
    ensures r.Some? ==> (forall j :: lo <= j < r.value ==> s[j] != val)
    ensures r.None? ==> (forall j :: lo <= j < hi ==> s[j] != val)
    decreases hi - lo
  {
    if lo == hi then None
    else if s[lo] == val then Some(lo)
    else MemChr(s, lo + 1, hi, val)
  }

  /** The pattern occurs in the area at index i. */
  predicate OccursAt(area: seq<byte>, pattern: seq<byte>, i: nat)
  {
    i + |pattern| <= |area| && area[i..i + |pattern|] == pattern
  }

  /** An occurrence at i is exactly the area from i starting with the pattern. */
  lemma {:induction false} OccursAtIsStartsWith(area: seq<byte>, pattern: seq<byte>, i: nat)
    requires i <= |area|
    ensures OccursAt(area, pattern, i) <==> StartsWith(area[i..], pattern)
  {
    if i + |pattern| <= |area| {
      assert area[i..][..|pattern|] == area[i..i + |pattern|];
    }
  }

  /**
   * The first occurrence of a non-empty pattern in the area, or None when
   * there is none or the pattern is empty.
   */
  method LocatePattern(area: seq<byte>, pattern: seq<byte>) returns (r: Option<nat>)
    ensures pattern == [] ==> r == None
    ensures pattern != [] && r.Some? ==> OccursAt(area, pattern, r.value)
    ensures r.Some? ==> forall j :: 0 <= j < r.value ==> !OccursAt(area, pattern, j)
    ensures pattern != [] && r.None? ==> forall j :: 0 <= j <= |area| ==> !OccursAt(area, pattern, j)
  {
    if |pattern| == 0 {
      return None;
    } else if |pattern| == 1 {
      r := MemChr(area, 0, |area|, pattern[0]);
      forall j | 0 <= j <= |area| && j + 1 <= |area|
        ensures OccursAt(area, pattern, j) <==> area[j] == pattern[0]
      {
        assert area[j..j + 1] == [area[j]];
      }
      return r;
    } else {
      var a: nat := 0;
      var size := |area|;
      var last := |pattern| - 1;
      var sublen := |pattern| - 2;
      while size >= |pattern|
        invariant a + size == |area|
        invariant forall j :: 0 <= j < a ==> !OccursAt(area, pattern, j)
      {
        if OccursAt(area, pattern, a) {
          forall i | 0 <= i < sublen
            ensures area[a + 1..][i] == pattern[1..][i]
          {
            assert area[a..a + |pattern|][i + 1] == pattern[i + 1];
          }
        }
        if area[a] == pattern[0] && area[a + last] == pattern[last] && MemEqual(area[a + 1..], pattern[1..], sublen) {
          assert area[a..a + |pattern|] == pattern by {
            forall i | 0 <= i < |pattern|
              ensures area[a..a + |pattern|][i] == pattern[i]
            {
              if 0 < i < last {
                assert area[a + 1..][i - 1] == pattern[1..][i - 1];
              }
            }
          }
          return Some(a);
        }
        a := a + 1;
        size := size - 1;
      }
      return None;
    }
  }

  /** The bytes 00 00 `third` start at index i. */
  predicate ZeroZeroAt(area: seq<byte>, third: byte, i: nat)
  {
    i + 3 <= |area| && area[i] == 0 && area[i + 1] == 0 && area[i + 2] == third
  }

  /** The first index where the 3-byte pattern 00 00 `third` starts, or None. */
  method LocateZeroZero(area: seq<byte>, third: byte) returns (r: Option<nat>)
    ensures r.Some? ==> ZeroZeroAt(area, third, r.value)
    ensures r.Some? ==> forall j :: 0 <= j < r.value ==> !ZeroZeroAt(area, third, j)
    ensures r.None? ==> forall j :: 0 <= j < |area| ==> !ZeroZeroAt(area, third, j)
  {
    var a: nat := 0;
    var size := |area|;
    while size >= 3
      invariant a + size == |area|
      invariant forall j :: 0 <= j < a ==> !ZeroZeroAt(area, third, j)
    {
      var next := MemChr(area, a, a + size - 2, 0);
      if next.None? {
        return None;
      }
      var n := next.value;
      if area[n + 1] != 0 {
        size := size - (n - a) - 2;
        a := n + 2;
      } else if area[n + 2] == third {
        return Some(n);
      } else {
        size := size - (n - a) - 1;
        a := n + 1;
      }
    }
    return None;
  }

  /** True when the area has at least two bytes and all of them are equal. */
  method IdenticalBytes(area: seq<byte>) returns (r: bool)
    ensures r <==> |area| >= 2 && forall i :: 0 <= i < |area| ==> area[i] == area[0]
  {
    if |area| < 2 {
      return false;
    }
    var val := area[0];
    var p := 1;
    while p < |area|
      invariant 1 <= p <= |area|
      invariant forall i :: 0 <= i < p ==> area[i] == val
    {
      if area[p] != val {
        return false;
      }
      p := p + 1;
    }
    return true;
  }

  // ---------------------------------------------------------------------
  // Exclusive or
  // ---------------------------------------------------------------------

  /** Byte-wise exclusive or of two sequences of the same length. */
  function XorBytes(s1: seq<byte>, s2: seq<byte>): (r: seq<byte>)
    requires |s1| == |s2|
    ensures |r| == |s1|
  {
    seq(|s1|, i requires 0 <= i < |s1| => Xor(s1[i], s2[i]))
  }

  /** Applying the same mask twice gives back the original bytes. */
  lemma {:induction false} XorBytesInvolution(s: seq<byte>, mask: seq<byte>)
    requires |s| == |mask|
    ensures XorBytes(XorBytes(s, mask), mask) == s
  {
    forall i | 0 <= i < |s|
      ensures XorBytes(XorBytes(s, mask), mask)[i] == s[i]
    {
      XorInvolution(s[i], mask[i]);
    }
  }

  /**
   * dest[i] := src1[i] ^ src2[i] for i < size, by blocks of 8 bytes, then one
   * block of 4, then byte by byte. The sources are the values they had on
   * entry (an overlapping destination is not modelled).
   */
  method MemXor(dest: array<byte>, src1: seq<byte>, src2: seq<byte>, size: nat)
    requires size <= dest.Length && size <= |src1| && size <= |src2|
    modifies dest
    ensures dest[..] == XorBytes(src1[..size], src2[..size]) + old(dest[size..])
  {
    ghost var o := dest[..];
    var done := 0;
    var rest := size;
    while rest >= 8
      invariant done + rest == size
      invariant XorPrefix(dest[..], o, src1, src2, done)
    {
      XorBlock(dest, src1, src2, done, 8, o);
      done := done + 8;
      rest := rest - 8;
    }
    if rest >= 4 {
      XorBlock(dest, src1, src2, done, 4, o);
      done := done + 4;
      rest := rest - 4;
    }
    while rest > 0
      invariant done + rest == size
      invariant XorPrefix(dest[..], o, src1, src2, done)
    {
      XorBlock(dest, src1, src2, done, 1, o);
      done := done + 1;
      rest := rest - 1;
    }
    XorDone(dest[..], o, src1, src2, size);
  }

  /** The first `done` bytes of d are the xor of the sources, the others those of o. */
  predicate XorPrefix(d: seq<byte>, o: seq<byte>, src1: seq<byte>, src2: seq<byte>, done: nat)
  {
    |d| == |o| && done <= |d| && done <= |src1| && done <= |src2| &&
    (forall i :: 0 <= i < done ==> d[i] == Xor(src1[i], src2[i])) &&
    (forall i :: done <= i < |d| ==> d[i] == o[i])
  }

  lemma {:induction false} XorDone(d: seq<byte>, o: seq<byte>, src1: seq<byte>, src2: seq<byte>, size: nat)
    requires XorPrefix(d, o, src1, src2, size)
    ensures d == XorBytes(src1[..size], src2[..size]) + o[size..]
  {
    var w := XorBytes(src1[..size], src2[..size]);
    SplicedFrom(o, d, 0, w);
    assert o[..0] == [];
  }

  /** One block of MemXor(): the n bytes at offset at. */
  method XorBlock(dest: array<byte>, src1: seq<byte>, src2: seq<byte>, at: nat, n: nat, ghost o: seq<byte>)
    requires at + n <= dest.Length && at + n <= |src1| && at + n <= |src2|
    requires XorPrefix(dest[..], o, src1, src2, at)
    modifies dest
    ensures XorPrefix(dest[..], o, src1, src2, at + n)
  {
    forall k | 0 <= k < n {
      dest[at + k] := Xor(src1[at + k], src2[at + k]);
    }
  }

  /** A buffer o with the bytes w written over it at offset at. */
  function Spliced(o: seq<byte>, at: nat, w: seq<byte>): seq<byte>
    requires at + |w| <= |o|
  {
    o[..at] + w + o[at + |w|..]
  }

  /** A buffer that holds w at `at` and o everywhere else is o spliced with w. */
  lemma {:induction false} SplicedFrom(o: seq<byte>, after: seq<byte>, at: nat, w: seq<byte>)
    requires |after| == |o| && at + |w| <= |o|
    requires forall i :: 0 <= i < |o| && !(at <= i < at + |w|) ==> after[i] == o[i]
    requires forall k :: 0 <= k < |w| ==> after[at + k] == w[k]
    ensures after == Spliced(o, at, w)
  {
    var r := Spliced(o, at, w);
    forall i | 0 <= i < |o|
      ensures after[i] == r[i]
    {
      if at <= i < at + |w| {
        assert after[at + (i - at)] == w[i - at];
      }
    }
  }

  /** Writing w at `at`, then c just after it, is writing w + c at `at`. */
  lemma {:induction false} SpliceAfter(o: seq<byte>, at: nat, w: seq<byte>, c: seq<byte>)
    requires at + |w| + |c| <= |o|
    ensures |Spliced(o, at, w)| == |o|
    ensures Spliced(Spliced(o, at, w), at + |w|, c) == Spliced(o, at, w + c)
  {
    var mid := Spliced(o, at, w);
    assert mid[..at + |w|] == o[..at] + w;
    assert mid[at + |w| + |c|..] == o[at + |w| + |c|..];
  }

  /** SpliceAfter, on the buffers before and after the second write. */
  lemma {:induction false} SpliceStep(o: seq<byte>, before: seq<byte>, after: seq<byte>, at: nat, w: seq<byte>, next: nat, c: seq<byte>)
    requires at + |w| + |c| <= |o| && next == at + |w|
    requires before == Spliced(o, at, w) && after == Spliced(before, next, c)
    ensures after == Spliced(o, at, w + c)
  {
    SpliceAfter(o, at, w, c);
  }

  /** Writing w at at + |h|, then h at `at`, is writing h + w at `at`. */
  lemma {:induction false} SpliceBefore(o: seq<byte>, at: nat, h: seq<byte>, w: seq<byte>)
    requires at + |h| + |w| <= |o|
    ensures |Spliced(o, at + |h|, w)| == |o|
    ensures Spliced(Spliced(o, at + |h|, w), at, h) == Spliced(o, at, h + w)
  {
    var mid := Spliced(o, at + |h|, w);
    assert mid[..at] == o[..at];
    assert mid[at + |h|..] == w + o[at + |h| + |w|..];
  }

  /** MemCopy: copies the bytes of src to dest[at..]. */
  method MemCopy(dest: array<byte>, at: nat, src: seq<byte>)
    requires at + |src| <= dest.Length
    modifies dest
    ensures dest[..] == Spliced(old(dest[..]), at, src)
  {
    forall i | at <= i < at + |src| {
      dest[i] := src[i - at];
    }
    SplicedFrom(old(dest[..]), dest[..], at, src);
  }

  /** MemZero(): size zero bytes at offset at. */
  method MemZero(dest: array<byte>, at: nat, size: nat)
    requires at + size <= dest.Length
    modifies dest
    ensures dest[..] == Spliced(old(dest[..]), at, seq(size, _ => 0))
  {
    MemCopy(dest, at, seq(size, _ => 0));
  }

  // ---------------------------------------------------------------------
  // Integers of 1 to 8 bytes
  // ---------------------------------------------------------------------

  /** The unsigned big-endian integer in the first n bytes of p. */
  function GetUIntBE(p: seq<byte>, n: nat): (r: nat)
    requires n <= |p|
    ensures r < Pow256(n)
  {
    BEBound(p[..n]);
    BE(p[..n])
  }

  /** The unsigned little-endian integer in the first n bytes of p. */
  function GetUIntLE(p: seq<byte>, n: nat): (r: nat)
    requires n <= |p|
    ensures r < Pow256(n)
  {
    LEBound(p[..n]);
    LE(p[..n])
  }

  /**
   * Writes the n low-order bytes of v at a[off..], most significant first:
   * byte k is v >> 8*(n-1-k), truncated to 8 bits.
   */
  method PutUIntBE(a: array<byte>, off: nat, n: nat, v: int)
    requires off + n <= a.Length
    modifies a
    ensures a[..] == Spliced(old(a[..]), off, BEBytes(v, n))
  {
    forall k | 0 <= k < n {
      a[off + k] := ByteOf(v, n - 1 - k);
    }
    forall k | 0 <= k < n
      ensures a[off + k] == BEBytes(v, n)[k]
    {
      BEBytesAt(v, n, k);
    }
    SplicedFrom(old(a[..]), a[..], off, BEBytes(v, n));
  }

  /**
   * Writes the n low-order bytes of v at a[off..], least significant first:
   * byte k is v >> 8*k, truncated to 8 bits.
   */
  method PutUIntLE(a: array<byte>, off: nat, n: nat, v: int)
    requires off + n <= a.Length
    modifies a
    ensures a[..] == Spliced(old(a[..]), off, LEBytes(v, n))
  {
    forall k | 0 <= k < n {
      a[off + k] := ByteOf(v, k);
    }
    forall k | 0 <= k < n
      ensures a[off + k] == LEBytes(v, n)[k]
    {
      LEBytesAt(v, n, k);
    }
    SplicedFrom(old(a[..]), a[..], off, LEBytes(v, n));
  }

  /** Reading back the n bytes written by PutUIntBE gives v modulo 2^(8n). */
  lemma {:induction false} GetPutUIntBE(v: int, n: nat)
    ensures GetUIntBE(BEBytes(v, n), n) == v % Pow256(n)
  {
    assert BEBytes(v, n)[..n] == BEBytes(v, n);
    BERoundTrip(v, n);
  }

  /** Reading back the n bytes written by PutUIntLE gives v modulo 2^(8n). */
  lemma {:induction false} GetPutUIntLE(v: int, n: nat)
    ensures GetUIntLE(LEBytes(v, n), n) == v % Pow256(n)
  {
    assert LEBytes(v, n)[..n] == LEBytes(v, n);
    LERoundTrip(v, n);
  }

  /** Writing back the value read from n bytes restores exactly those bytes. */
  lemma {:induction false} PutGetUIntBE(p: seq<byte>, n: nat)
    requires n <= |p|
    ensures BEBytes(GetUIntBE(p, n), n) == p[..n]
  {
    BEBytesOfBE(p[..n]);
  }

  lemma {:induction false} PutGetUIntLE(p: seq<byte>, n: nat)
    requires n <= |p|
    ensures LEBytes(GetUIntLE(p, n), n) == p[..n]
  {
    LEBytesOfLE(p[..n]);
  }

  // ---------------------------------------------------------------------
  // Signed integers
  // ---------------------------------------------------------------------

  /** Two's complement reading of an n-byte unsigned value. */
  function SignExtend(u: nat, n: nat): (r: int)
    requires 1 <= n && u < Pow256(n)
    ensures -128 * Pow256(n - 1) <= r < 128 * Pow256(n - 1)
    ensures r % Pow256(n) == u
    ensures r < 0 <==> u >= 128 * Pow256(n - 1)
  {
    var h := Pow256(n - 1);
    var m := Pow256(n);
    assert m == 256 * h;
    if u < 128 * h then
      DivModUnique(u, m, 0, u);
      u
    else
      DivModUnique(u - m, m, -1, u);
      u - m
  }

  lemma {:induction false} BEFirst(s: seq<byte>)
    requires s != []
    ensures BE(s) == s[0] * Pow256(|s| - 1) + BE(s[1..])
  {
    if |s| > 1 {
      var p := s[..|s| - 1];
      BEFirst(p);
      assert p[1..] == s[1..][..|s| - 2];
      var a, x, b, c := s[0] as int, Pow256(|s| - 2), BE(p[1..]), s[|s| - 1] as int;
      assert BE(p) == a * x + b;
      assert BE(s[1..]) == 256 * b + c;
      assert BE(s) == 256 * (a * x + b) + c;
      Bytes.MulSplit(256, x, a, 0);
      Bytes.MulSplit(a, 256, x, 0);
      assert Pow256(|s| - 1) == 256 * x;
      Bytes.MulSplit(256, a, x, b);
    }
  }

  lemma {:induction false} LELast(s: seq<byte>)
    requires s != []
    ensures LE(s) == LE(s[..|s| - 1]) + s[|s| - 1] * Pow256(|s| - 1)
  {
    if |s| > 1 {
      var t, p := s[1..], s[..|s| - 1];
      LELast(t);
      assert t[..|t| - 1] == p[1..];
      var a, b, c, x := s[0] as int, LE(p[1..]), s[|s| - 1] as int, Pow256(|s| - 2);
      assert LE(t) == b + c * x;
      assert LE(s) == a + 256 * (b + c * x);
      assert LE(p) == a + 256 * b;
      assert Pow256(|s| - 1) == 256 * x;
      Bytes.MulSplit(256, c, x, b);
      Bytes.MulSplit(c, 256, x, 0);
    }
  }

  /** The high byte of an n-byte value is at least 128 iff the value is. */
  lemma {:induction false} HighByte(b: byte, rest: nat, m: nat)
    requires m >= 1 && rest < m
    ensures b * m + rest >= 128 * m <==> b >= 128
  {
    if b >= 128 {
      assert b * m >= 128 * m by { MulMono(m, 128, b); }
    } else {
      assert b * m <= 127 * m by { MulMono(m, b, 127); }
    }
  }

  /**
   * The signed big-endian integer of n bytes (GetInt16/24/32/40/48/56/64BE):
   * negative exactly when the first byte has its top bit set.
   */
  function GetIntBE(p: seq<byte>, n: nat): (r: int)
    requires 1 <= n <= |p|
    ensures -128 * Pow256(n - 1) <= r < 128 * Pow256(n - 1)
    ensures r % Pow256(n) == GetUIntBE(p, n)
    ensures r < 0 <==> p[0] >= 128
  {
    var s := p[..n];
    BEFirst(s);
    BEBound(s[1..]);
    HighByte(s[0], BE(s[1..]), Pow256(n - 1));
    SignExtend(GetUIntBE(p, n), n)
  }

  /**
   * The signed little-endian integer of n bytes (GetInt16/24/32/40/48/56/64LE):
   * negative exactly when the last byte has its top bit set.
   */
  function GetIntLE(p: seq<byte>, n: nat): (r: int)
    requires 1 <= n <= |p|
    ensures -128 * Pow256(n - 1) <= r < 128 * Pow256(n - 1)
    ensures r % Pow256(n) == GetUIntLE(p, n)
    ensures r < 0 <==> p[n - 1] >= 128
  {
    var s := p[..n];
    LELast(s);
    LEBound(s[..n - 1]);
    HighByte(s[n - 1], LE(s[..n - 1]), Pow256(n - 1));
    SignExtend(GetUIntLE(p, n), n)
  }

  // ---------------------------------------------------------------------
  // Variable-size integers
  // ---------------------------------------------------------------------

  /** A size handled by the variable-size accessors. */
  predicate VarSize(size: nat) { 1 <= size <= 8 }

  /** GetIntVarBE: the big-endian value of `size` bytes, 0 for a size outside 1..8. */
  function GetIntVarBE(p: seq<byte>, size: nat): (r: nat)
    requires VarSize(size) ==> size <= |p|
    ensures !VarSize(size) ==> r == 0
    ensures VarSize(size) ==> r < Pow256(size) && BEBytes(r, size) == p[..size]
  {
    if VarSize(size) then
      PutGetUIntBE(p, size);
      GetUIntBE(p, size)
    else 0
  }

  /** GetIntVarLE: the little-endian value of `size` bytes, 0 for a size outside 1..8. */
  function GetIntVarLE(p: seq<byte>, size: nat): (r: nat)
    requires VarSize(size) ==> size <= |p|
    ensures !VarSize(size) ==> r == 0
    ensures VarSize(size) ==> r < Pow256(size) && LEBytes(r, size) == p[..size]
  {
    if VarSize(size) then
      PutGetUIntLE(p, size);
      GetUIntLE(p, size)
    else 0
  }

  /** PutIntVarBE: writes `size` big-endian bytes of v; nothing for a size outside 1..8. */
  method PutIntVarBE(a: array<byte>, off: nat, size: nat, v: int)
    requires VarSize(size) ==> off + size <= a.Length
    modifies a
    ensures VarSize(size) ==> a[..] == Spliced(old(a[..]), off, BEBytes(v, size))
    ensures !VarSize(size) ==> a[..] == old(a[..])
  {
    if VarSize(size) {
      PutUIntBE(a, off, size, v);
    }
  }

  /** PutIntVarLE: writes `size` little-endian bytes of v; nothing for a size outside 1..8. */
  method PutIntVarLE(a: array<byte>, off: nat, size: nat, v: int)
    requires VarSize(size) ==> off + size <= a.Length
    modifies a
    ensures VarSize(size) ==> a[..] == Spliced(old(a[..]), off, LEBytes(v, size))
    ensures !VarSize(size) ==> a[..] == old(a[..])
  {
    if VarSize(size) {
      PutUIntLE(a, off, size, v);
    }
  }

  /** PutIntVarBE then GetIntVarBE on the same bytes gives v modulo 2^(8 size). */
  lemma {:induction false} IntVarRoundTripBE(v: int, size: nat)
    requires VarSize(size)
    ensures GetIntVarBE(BEBytes(v, size), size) == v % Pow256(size)
  {
    GetPutUIntBE(v, size);
  }

  /** PutIntVarLE then GetIntVarLE on the same bytes gives v modulo 2^(8 size). */
  lemma {:induction false} IntVarRoundTripLE(v: int, size: nat)
    requires VarSize(size)
    ensures GetIntVarLE(LEBytes(v, size), size) == v % Pow256(size)
  {
    GetPutUIntLE(v, size);
  }
}
