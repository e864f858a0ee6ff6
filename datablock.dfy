/**
 * Length-prefixed data blocks: a byte string whose header holds a length bit
 * field giving the number of bytes after that field (section 2.6 of
 * ISO/IEC 13818-1 for descriptors). The template parameters of the class
 * (bit offset and bit size of the length field, and whether a zero length
 * means "unbounded") are a `Layout` value here.
 */
module DataBlocks {
  import opened Bytes
  import opened Wrappers
  import Memory

  /** The "no position" value of size_t, returned when there is no length. */
  const NPOS: nat := 0xFFFF_FFFF_FFFF_FFFF

  /** LEN_OFFSET and LEN_SIZE in bits, and UNBOUNDED_ALLOWED. */
  datatype Layout = Layout(lenOffset: nat, lenSize: nat, unboundedAllowed: bool)
  {
    /** LEN_SIZE <= 64 is a static assertion of the class. */
    predicate Valid() { lenSize <= 64 }

    /** AFTER_LEN_BYTE_OFFSET: offset of the first byte after the length field, 0 without one. */
    function AfterLen(): nat
    {
      if lenSize == 0 then 0 else (lenOffset + lenSize + 7) / 8
    }
  }

  lemma {:induction false} DivOne(x: nat)
    ensures x / 1 == x && x / Pow2(0) == x
  {
    DivModUnique(x, 1, x, 0);
  }

  lemma {:induction false} ModNoOp(x: nat, m: nat)
    requires x < m
    ensures x % m == x
  {
    DivModUnique(x, m, 0, x);
  }

  /**
   * The length field read the way the class reads it, in four cases
   * depending on whether the field starts and ends on byte boundaries
   * (`>>` is a division by a power of two, `& ~(~0 << n)` a remainder
   * modulo 2^n).
   */
  function RawLength(data: seq<byte>, off: nat, size: nat): nat
    requires 0 < size && (off + size + 7) / 8 <= |data|
  {
    var first, after := off / 8, (off + size + 7) / 8;
    if off % 8 == 0 && size % 8 == 0 then
      Memory.GetUIntBE(data[first..], size / 8)
    else if off % 8 == 0 then
      Shr(Memory.GetUIntBE(data[first..], (size + 7) / 8), 8 - size % 8)
    else if (off + size) % 8 == 0 then
      LowBits(Memory.GetUIntBE(data[first..], (size + 7) / 8), size)
    else
      LowBits(Shr(Memory.GetUIntBE(data[first..], after - first), 8 - (off + size) % 8), size)
  }

  /** Whatever the alignment case, the value read is the field's bits. */
  lemma {:induction false} RawLengthIsField(data: seq<byte>, off: nat, size: nat)
    requires 0 < size && (off + size + 7) / 8 <= |data|
    ensures RawLength(data, off, size) == BitsValue(data, off, size)
  {
    var first, after := off / 8, (off + size + 7) / 8;
    if off % 8 == 0 && size % 8 == 0 {
      AlignedField(data, off, size, size / 8);
    } else if off % 8 == 0 {
      MsbAlignedField(data, off, size, (size + 7) / 8, 8 - size % 8);
    } else if (off + size) % 8 == 0 {
      LsbAlignedField(data, off, size, (size + 7) / 8);
    } else {
      FieldBytes(data, off, size, after - first, 8 - (off + size) % 8);
    }
  }

  /**
   * Generic form: the k bytes holding the field read as one integer,
   * shifted right by the t bits that follow the field, masked to its size.
   */
  lemma {:induction false} FieldBytes(data: seq<byte>, off: nat, size: nat, k: nat, t: nat)
    requires (off + size + 7) / 8 <= |data|
    requires k == (off + size + 7) / 8 - off / 8 && t == 8 * ((off + size + 7) / 8) - (off + size)
    ensures LowBits(Shr(Memory.GetUIntBE(data[off / 8..], k), t), size) == BitsValue(data, off, size)
  {
    var first, after := off / 8, (off + size + 7) / 8;
    assert data[first..][..k] == data[first..after];
    BitFieldFromBytes(data, off, size);
  }

  lemma {:induction false} AlignedField(data: seq<byte>, off: nat, size: nat, k: nat)
    requires (off + size + 7) / 8 <= |data| && off % 8 == 0 && size % 8 == 0 && k == size / 8
    ensures Memory.GetUIntBE(data[off / 8..], k) == BitsValue(data, off, size)
  {
    var x := Memory.GetUIntBE(data[off / 8..], k);
    Pow256IsPow2(k);
    assert 8 * k == size;
    DivOne(x);
    ModNoOp(x, Pow2(size));
    FieldBytes(data, off, size, k, 0);
  }

  lemma {:induction false} MsbAlignedField(data: seq<byte>, off: nat, size: nat, k: nat, t: nat)
    requires (off + size + 7) / 8 <= |data| && off % 8 == 0 && size % 8 != 0
    requires k == (size + 7) / 8 && t == 8 - size % 8
    ensures Shr(Memory.GetUIntBE(data[off / 8..], k), t) == BitsValue(data, off, size)
  {
    var x := Memory.GetUIntBE(data[off / 8..], k);
    Pow256IsPow2(k);
    assert 8 * k == size + t;
    ShiftBound(x, size, t);
    ModNoOp(Shr(x, t), Pow2(size));
    FieldBytes(data, off, size, k, t);
  }

  lemma {:induction false} LsbAlignedField(data: seq<byte>, off: nat, size: nat, k: nat)
    requires (off + size + 7) / 8 <= |data| && off % 8 != 0 && (off + size) % 8 == 0
    requires k == (size + 7) / 8
    ensures LowBits(Memory.GetUIntBE(data[off / 8..], k), size) == BitsValue(data, off, size)
  {
    DivOne(Memory.GetUIntBE(data[off / 8..], k));
    FieldBytes(data, off, size, k, 0);
  }

  /**
   * GetLengthField: the value of the length field; NPOS when the layout has
   * no length field, the content is null or too short to hold it, or, when
   * unbounded lengths are allowed, the field is zero.
   */
  function GetLengthField(l: Layout, content: Option<seq<byte>>): (r: nat)
    requires l.Valid()
    ensures l.lenSize == 0 || content.None? || |content.value| < l.AfterLen() ==> r == NPOS
    ensures l.lenSize > 0 && content.Some? && |content.value| >= l.AfterLen() ==>
              var f := BitsValue(content.value, l.lenOffset, l.lenSize);
              r == if l.unboundedAllowed && f == 0 then NPOS else f
  {
    if l.lenSize == 0 then NPOS
    else if content.None? || |content.value| < l.AfterLen() then NPOS
    else
      var len := RawLength(content.value, l.lenOffset, l.lenSize);
      RawLengthIsField(content.value, l.lenOffset, l.lenSize);
      if l.unboundedAllowed && len == 0 then NPOS else len
  }

  /**
   * ValidateLengthField: the content is a block of exactly the announced
   * length, or at least that long when extra data is allowed. Without a
   * length field any non-null content is valid; with unbounded lengths a
   * zero field accepts any size.
   */
  function ValidateLengthField(l: Layout, content: Option<seq<byte>>, allowExtra: bool): (r: bool)
    requires l.Valid()
    ensures l.lenSize == 0 ==> (r <==> content.Some?)
    ensures l.lenSize > 0 ==>
              (r <==> content.Some? && |content.value| >= l.AfterLen() &&
                      var f := BitsValue(content.value, l.lenOffset, l.lenSize);
                      ((l.unboundedAllowed && (f == 0 || f == NPOS)) ||
                       l.AfterLen() + f == |content.value| ||
                       (allowExtra && l.AfterLen() + f < |content.value|)))
  {
    if l.lenSize == 0 then content.Some?
    else if content.None? || |content.value| < l.AfterLen() then false
    else
      var len := GetLengthField(l, content);
      if l.unboundedAllowed then
        len == NPOS || l.AfterLen() + len == |content.value| || (allowExtra && l.AfterLen() + len < |content.value|)
      else
        l.AfterLen() + len == |content.value| || (allowExtra && l.AfterLen() + len < |content.value|)
  }

  /** The content of a block resized to s bytes, truncated or extended with zeros. */
  function Resized(d: seq<byte>, s: nat): (r: seq<byte>)
    ensures |r| == s
    ensures s <= |d| ==> r == d[..s]
    ensures s > |d| ==> r[..|d|] == d && forall i :: |d| <= i < s ==> r[i] == 0
  {
    if s <= |d| then d[..s] else d + seq(s - |d|, _ => 0)
  }

  /** Byte i of a mask, 0xFF beyond the end of the mask. */
  function MaskAt(mask: seq<byte>, i: nat): byte
  {
    if i < |mask| then mask[i] else 0xFF
  }

  /**
   * A data block: the shared ByteBlock of the class is a value here, `None`
   * for the null pointer (an invalid block).
   */
  class DataBlock {
    const layout: Layout
    var data: Option<seq<byte>>

    /** Default constructor: an invalid block. */
    constructor Empty(l: Layout)
      requires l.Valid()
      ensures layout == l && data == None
    {
      layout := l;
      data := None;
    }

    /** Constructor from full binary content: stored only when its length field is consistent. */
    constructor FromContent(l: Layout, content: Option<seq<byte>>)
      requires l.Valid()
      ensures layout == l
      ensures data == if ValidateLengthField(l, content, false) then content else None
    {
      layout := l;
      if ValidateLengthField(l, content, false) {
        data := content;
      } else {
        data := None;
      }
    }

    predicate IsValid()
      reads this
    {
      data.Some?
    }

    /** size(): the number of bytes, 0 for an invalid block. */
    function Size(): (r: nat)
      reads this
      ensures data.Some? ==> r == |data.value|
      ensures data.None? ==> r == 0
    {
      if data.None? then 0 else |data.value|
    }

    /** reload(): replaces the content when it is consistent, otherwise invalidates the block. */
    method Reload(content: Option<seq<byte>>)
      requires layout.Valid()
      modifies this
      ensures data == if ValidateLengthField(layout, content, false) then content else None
    {
      if ValidateLengthField(layout, content, false) {
        data := content;
      } else {
        data := None;
      }
    }

    /** clear(): invalidates the block. */
    method Clear()
      modifies this
      ensures data == None
    {
      data := None;
    }

    /** operator==: two valid blocks with the same bytes; an invalid block equals nothing. */
    function Equals(other: DataBlock): (r: bool)
      reads this, other
      ensures r ==> IsValid() && other.IsValid()
      ensures IsValid() && other.IsValid() ==> (r <==> data.value == other.data.value)
    {
      data.Some? && other.data.Some? && data.value == other.data.value
    }

    /**
     * matchContent(): the first bytes of the block are equal to the
     * pattern on the bits the mask selects (all bits past the mask's end).
     */
    method MatchContent(pattern: seq<byte>, mask: seq<byte>) returns (r: bool)
      ensures r <==> data.Some? && |pattern| <= |data.value| &&
                     forall i :: 0 <= i < |pattern| ==>
                       And(data.value[i], MaskAt(mask, i)) == And(pattern[i], MaskAt(mask, i))
    {
      if data.None? || |data.value| < |pattern| {
        return false;
      }
      var d := data.value;
      var i := 0;
      while i < |pattern|
        invariant 0 <= i <= |pattern|
        invariant forall j :: 0 <= j < i ==> And(d[j], MaskAt(mask, j)) == And(pattern[j], MaskAt(mask, j))
      {
        var m := if i < |mask| then mask[i] else 0xFF;
        if And(d[i], m) != And(pattern[i], m) {
          return false;
        }
        i := i + 1;
      }
      return true;
    }

    /** rwResize(): allocates s zero bytes when invalid, otherwise truncates or zero-extends to s. */
    method RwResize(s: nat)
      modifies this
      ensures data == Some(Resized(if old(data).Some? then old(data).value else [], s))
    {
      if data.None? {
        data := Some(seq(s, _ => 0));
        assert data.value == Resized([], s);
      } else {
        data := Some(Resized(data.value, s));
      }
    }

    /** Writing one byte through rwContent(). */
    method RwSetByte(i: nat, b: byte)
      requires data.Some? && i < |data.value|
      modifies this
      ensures data == Some(old(data).value[i := b])
    {
      data := Some(data.value[i := b]);
    }

    /** rwAppend(): appends bytes, allocating the block when it is invalid. */
    method RwAppend(d: seq<byte>)
      modifies this
      ensures data == Some((if old(data).Some? then old(data).value else []) + d)
    {
      if data.None? {
        data := Some(d);
        assert [] + d == d;
      } else {
        data := Some(data.value + d);
      }
    }
  }

  /** With an empty mask, matching content is the same as starting with the pattern. */
  lemma {:induction false} MatchWithoutMask(d: seq<byte>, pattern: seq<byte>)
    requires |pattern| <= |d|
    ensures (forall i :: 0 <= i < |pattern| ==> And(d[i], MaskAt([], i)) == And(pattern[i], MaskAt([], i)))
            <==> Memory.StartsWith(d, pattern)
  {
    forall i | 0 <= i < |pattern|
      ensures And(d[i], MaskAt([], i)) == d[i] && And(pattern[i], MaskAt([], i)) == pattern[i]
    {
      AndFF(d[i]);
      AndFF(pattern[i]);
    }
    assert Memory.StartsWith(d, pattern) <==> forall i :: 0 <= i < |pattern| ==> d[i] == pattern[i];
  }

  /** A block built from its own content with a correct length field is that content. */
  lemma {:induction false} ValidLengthAccepted(l: Layout, c: seq<byte>)
    requires l.Valid() && 0 < l.lenSize && |c| >= l.AfterLen()
    requires l.AfterLen() + BitsValue(c, l.lenOffset, l.lenSize) == |c|
    ensures ValidateLengthField(l, Some(c), false)
  {
  }
}
