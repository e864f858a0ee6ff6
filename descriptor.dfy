/**
 * Descriptors (section 2.6 of ISO/IEC 13818-1): a data block of layout
 * <8, 8>, that is an 8-bit tag, an 8-bit length, then `length` payload bytes.
 */
module Descriptors {
  import opened Bytes
  import opened Wrappers
  import opened DataBlocks

  /** Descriptor tags used by the model. */
  const DID_MPEG_REGISTRATION: byte := 0x05
  const DID_MPEG_EXTENSION: byte := 0x3F
  const DID_DVB_PRIV_DATA_SPECIF: byte := 0x5F
  const DID_DVB_EXTENSION: byte := 0x7F

  /** Descriptor is DataBlock<8, 8>: an 8-bit length field at bit offset 8. */
  const DescLayout: Layout := Layout(8, 8, false)

  /** The shared content of a descriptor, `None` for an invalid descriptor. */
  type Content = Option<seq<byte>>

  /** Bytes of a descriptor: tag, length, and exactly `length` bytes of payload. */
  predicate WellFormed(d: seq<byte>)
  {
    |d| >= 2 && d[1] == |d| - 2
  }

  /** A content is acceptable for a descriptor when it is null or well formed. */
  predicate ContentOk(c: Content)
  {
    c.Some? ==> WellFormed(c.value)
  }

  /** The data block length check, specialised to descriptors. */
  lemma {:induction false} DescriptorValidation(d: seq<byte>)
    ensures ValidateLengthField(DescLayout, Some(d), false) <==> WellFormed(d)
  {
    if |d| >= 2 {
      ByteBits(d, 1);
    }
  }

  /** size(): 0 for an invalid descriptor. */
  function Size(c: Content): nat
  {
    if c.None? then 0 else |c.value|
  }

  /** The bytes of a descriptor, none for an invalid one. */
  function ContentBytes(c: Content): seq<byte>
  {
    if c.None? then [] else c.value
  }

  /** tag(): the first byte, 0 when there is none. */
  function Tag(c: Content): byte
  {
    if c.None? || |c.value| < 1 then 0 else c.value[0]
  }

  /** payloadSize(): the number of bytes after the length byte. */
  function PayloadSize(c: Content): nat
  {
    if c.None? || |c.value| < 2 then 0 else |c.value| - 2
  }

  /** payload(): the bytes after the length byte, null when the descriptor is shorter than 2 bytes. */
  function Payload(c: Content): Content
  {
    if c.None? || |c.value| < 2 then None else Some(c.value[2..])
  }

  /** Extended descriptor id: the tag, and for extension descriptors the first payload byte. */
  datatype XDID = XDID(did: byte, ext: Option<byte>)

  /** xdid(): the extension byte is present only for the two extension tags and a non-empty payload. */
  function Xdid(c: Content): (r: XDID)
    ensures r.did == Tag(c)
    ensures r.ext.Some? <==> (Tag(c) == DID_MPEG_EXTENSION || Tag(c) == DID_DVB_EXTENSION) && PayloadSize(c) > 0
    ensures r.ext.Some? ==> Payload(c).Some? && r.ext.value == Payload(c).value[0]
  {
    var did := Tag(c);
    if (did == DID_MPEG_EXTENSION || did == DID_DVB_EXTENSION) && PayloadSize(c) > 0 then
      XDID(did, Some(c.value[2]))
    else
      XDID(did, None)
  }

  /** The bytes of a descriptor made of a tag and a payload. */
  function Make(tag: byte, payload: seq<byte>): (r: seq<byte>)
    requires |payload| < 256
    ensures WellFormed(r) && Tag(Some(r)) == tag && Payload(Some(r)) == Some(payload)
  {
    [tag, |payload|] + payload
  }

  /** Every well-formed descriptor is its tag and its payload. */
  lemma {:induction false} MakeOfParts(d: seq<byte>)
    requires WellFormed(d)
    ensures |d| - 2 < 256 && d == Make(Tag(Some(d)), d[2..])
  {
    assert d == [d[0], d[1]] + d[2..];
  }

  /** A descriptor: a data block of layout DescLayout. */
  class Descriptor {
    const block: DataBlock

    /** The block has the descriptor layout and, when valid, a consistent length byte. */
    predicate Valid()
      reads this, block
    {
      block.layout == DescLayout && ContentOk(block.data)
    }

    /**
     * Constructor from a tag and a payload pointer (`None` for a null
     * pointer): valid only for a non-null payload shorter than 256 bytes.
     */
    constructor FromPayload(tag: byte, payload: Option<seq<byte>>)
      ensures fresh(block) && Valid()
      ensures block.data == if payload.Some? && |payload.value| < 256 then Some(Make(tag, payload.value)) else None
    {
      block := new DataBlock.Empty(DescLayout);
      new;
      if payload.Some? && |payload.value| < 256 {
        var ptr := [tag, |payload.value|] + payload.value;
        DescriptorValidation(ptr);
        block.Reload(Some(ptr));
      }
    }

    /** Constructor from a tag and a byte block: valid only for fewer than 256 payload bytes. */
    constructor FromByteBlock(tag: byte, payload: seq<byte>)
      ensures fresh(block) && Valid()
      ensures block.data == if |payload| < 256 then Some(Make(tag, payload)) else None
    {
      block := new DataBlock.Empty(DescLayout);
      new;
      if |payload| < 256 {
        var ptr := [tag, |payload|] + payload;
        DescriptorValidation(ptr);
        block.Reload(Some(ptr));
      }
    }

    /**
     * replacePayload(): more than 255 bytes invalidate the descriptor;
     * otherwise the tag is kept (0 for a descriptor that was invalid) and
     * the payload and length byte are replaced.
     */
    method ReplacePayload(payload: seq<byte>)
      requires Valid()
      modifies block
      ensures Valid()
      ensures |payload| > 255 ==> block.data == None
      ensures |payload| <= 255 ==> block.data == Some(Make(old(Tag(block.data)), payload))
    {
      if |payload| > 255 {
        block.Clear();
      } else {
        block.RwResize(2);
        block.RwAppend(payload);
        block.RwSetByte(1, |payload|);
        assert block.data.value == Make(old(Tag(block.data)), payload);
      }
    }

    /**
     * resizePayload(): more than 255 bytes invalidate the descriptor;
     * otherwise the payload is truncated or extended with zeros and the
     * length byte updated.
     */
    method ResizePayload(n: nat)
      requires Valid()
      modifies block
      ensures Valid()
      ensures n > 255 ==> block.data == None
      ensures n <= 255 ==> block.data == Some(Resized(ContentBytes(old(block.data)), n + 2)[1 := n])
    {
      if n > 255 {
        block.Clear();
      } else {
        block.RwResize(n + 2);
        block.RwSetByte(1, n);
      }
    }
  }

  /**
   * After resizePayload(), a valid descriptor keeps its tag and its payload
   * is the old payload truncated or extended with zeros to n bytes.
   */
  lemma {:induction false} ResizedPayload(d: seq<byte>, n: nat)
    requires WellFormed(d) && n <= 255
    ensures WellFormed(Resized(d, n + 2)[1 := n])
    ensures Tag(Some(Resized(d, n + 2)[1 := n])) == Tag(Some(d))
    ensures Payload(Some(Resized(d, n + 2)[1 := n])) == Some(Resized(d[2..], n))
  {
    var r := Resized(d, n + 2)[1 := n];
    var p := Resized(d[2..], n);
    assert |r[2..]| == |p|;
    forall i | 0 <= i < n
      ensures r[2..][i] == p[i]
    {
      if i + 2 < |d| {
        assert r[2..][i] == d[i + 2];
      }
    }
    assert r[2..] == p;
  }
}
