/**
 * PSI/SI sections (section 2.4.4 of ISO/IEC 13818-1): header fields read
 * from the binary content, sizes, and the number of TS packets needed to
 * carry a list of sections.
 */
module Sections {
  import opened Bytes
  import opened Wrappers

  const SHORT_SECTION_HEADER_SIZE: nat := 3
  const LONG_SECTION_HEADER_SIZE: nat := 8
  const SECTION_CRC32_SIZE: nat := 4
  const TID_NULL: byte := 0xFF
  /** Payload bytes in one TS packet. */
  const PKT_PAYLOAD: nat := 184

  /** The binary content of a section, `None` for an invalid section. */
  type SectionData = Option<seq<byte>>

  /** The 12-bit section_length field. */
  function SectionLength(c: seq<byte>): nat
    requires |c| >= 3
  {
    (c[1] as int % 16) * 256 + c[2] as int
  }

  /** StartLongSection(): the section_syntax_indicator bit is set. */
  predicate StartLong(c: seq<byte>)
  {
    |c| >= 3 && c[1] >= 0x80
  }

  /**
   * What a valid section's content satisfies: a complete header, a
   * section_length matching the size and, for a long section, room for the
   * long header and the CRC32.
   */
  predicate WellFormed(c: seq<byte>)
  {
    |c| >= SHORT_SECTION_HEADER_SIZE && SectionLength(c) == |c| - 3 &&
    (StartLong(c) ==> |c| >= LONG_SECTION_HEADER_SIZE + SECTION_CRC32_SIZE)
  }

  predicate SectionOk(s: SectionData)
  {
    s.Some? ==> WellFormed(s.value)
  }

  predicate IsValid(s: SectionData) { s.Some? }

  /** Header accessors */

  function TableId(s: SectionData): byte
  {
    if s.Some? && |s.value| > 0 then s.value[0] else TID_NULL
  }

  predicate IsLong(s: SectionData)
  {
    s.Some? && StartLong(s.value)
  }

  predicate IsShort(s: SectionData)
  {
    s.Some? && !StartLong(s.value)
  }

  /** The private_indicator bit, 0x40 of the second byte. */
  predicate IsPrivate(s: SectionData)
    requires SectionOk(s)
  {
    s.Some? && (s.value[1] / 0x40) % 2 == 1
  }

  function TableIdExtension(s: SectionData): nat
    requires SectionOk(s)
  {
    if IsLong(s) then s.value[3] as int * 256 + s.value[4] as int else 0
  }

  /** version_number, bits 1 to 5 of the sixth byte; 0 for a short section. */
  function Version(s: SectionData): nat
    requires SectionOk(s)
  {
    if IsLong(s) then (s.value[5] / 2) % 32 else 0
  }

  predicate IsCurrent(s: SectionData)
    requires SectionOk(s)
  {
    IsLong(s) && s.value[5] % 2 == 1
  }

  predicate IsNext(s: SectionData)
    requires SectionOk(s)
  {
    IsLong(s) && s.value[5] % 2 == 0
  }

  function SectionNumber(s: SectionData): byte
    requires SectionOk(s)
  {
    if IsLong(s) then s.value[6] else 0
  }

  function LastSectionNumber(s: SectionData): byte
    requires SectionOk(s)
  {
    if IsLong(s) then s.value[7] else 0
  }

  function Size(s: SectionData): nat
  {
    if s.Some? then |s.value| else 0
  }

  /** headerSize(): 8 for a long section, 3 for a short one, 0 for an invalid one. */
  function HeaderSize(s: SectionData): nat
  {
    if s.None? then 0 else if StartLong(s.value) then LONG_SECTION_HEADER_SIZE else SHORT_SECTION_HEADER_SIZE
  }

  /** payloadSize(): the size without the header and, for a long section, the CRC32. */
  function PayloadSize(s: SectionData): (r: nat)
    requires SectionOk(s)
    ensures s.Some? ==> HeaderSize(s) + r + (if IsLong(s) then SECTION_CRC32_SIZE else 0) == Size(s)
    ensures s.None? ==> r == 0
  {
    if s.None? then 0
    else if StartLong(s.value) then |s.value| - (LONG_SECTION_HEADER_SIZE + SECTION_CRC32_SIZE)
    else |s.value| - SHORT_SECTION_HEADER_SIZE
  }

  /** payload() with payloadSize(): the bytes after the header, before the CRC32 of a long section. */
  function Payload(s: SectionData): SectionData
    requires SectionOk(s)
  {
    if s.None? then None else Some(s.value[HeaderSize(s)..HeaderSize(s) + PayloadSize(s)])
  }

  /** The private_indicator and reserved bits of the second byte. */
  function Flags(syntax: bool, isPrivate: bool): nat
  {
    (if syntax then 0x80 else 0) + (if isPrivate then 0x40 else 0) + 0x30
  }

  lemma {:induction false} FlagsBits(syntax: bool, isPrivate: bool, hi: nat)
    requires hi < 16
    ensures (Flags(syntax, isPrivate) + hi) % 16 == hi
    ensures ((Flags(syntax, isPrivate) + hi) / 0x40) % 2 == 1 <==> isPrivate
    ensures Flags(syntax, isPrivate) + hi >= 0x80 <==> syntax
  {
  }

  /**
   * A short section as built from a table id, a private flag and a payload
   * (fields of section 2.4.4.10 of ISO/IEC 13818-1, reserved bits set).
   */
  function MakeShort(tid: byte, isPrivate: bool, payload: seq<byte>): (c: seq<byte>)
    requires |payload| <= 4093
    ensures WellFormed(c) && IsShort(Some(c))
    ensures TableId(Some(c)) == tid && (IsPrivate(Some(c)) <==> isPrivate)
    ensures HeaderSize(Some(c)) == SHORT_SECTION_HEADER_SIZE && Payload(Some(c)) == Some(payload)
    ensures TableIdExtension(Some(c)) == 0 && Version(Some(c)) == 0 && !IsCurrent(Some(c)) && !IsNext(Some(c))
    ensures SectionNumber(Some(c)) == 0 && LastSectionNumber(Some(c)) == 0
  {
    var len := |payload|;
    FlagsBits(false, isPrivate, len / 256);
    var c := [tid, Flags(false, isPrivate) + len / 256, len % 256] + payload;
    assert c[3..3 + len] == payload;
    c
  }

  /**
   * A long section built from its header fields, its payload and the 4
   * bytes of its CRC32 (section 2.4.4.11 of ISO/IEC 13818-1): every
   * accessor gives its field back.
   */
  function MakeLong(tid: byte, isPrivate: bool, ext: nat, version: nat, current: bool,
                    number: byte, last: byte, payload: seq<byte>, crc: seq<byte>): (c: seq<byte>)
    requires ext < 0x1_0000 && version < 32 && |crc| == SECTION_CRC32_SIZE && |payload| < 4085
    ensures WellFormed(c) && IsLong(Some(c))
    ensures TableId(Some(c)) == tid && (IsPrivate(Some(c)) <==> isPrivate)
    ensures TableIdExtension(Some(c)) == ext && Version(Some(c)) == version
    ensures (IsCurrent(Some(c)) <==> current) && (IsNext(Some(c)) <==> !current)
    ensures SectionNumber(Some(c)) == number && LastSectionNumber(Some(c)) == last
    ensures HeaderSize(Some(c)) == LONG_SECTION_HEADER_SIZE && Payload(Some(c)) == Some(payload)
    ensures c[|c| - 4..] == crc
  {
    var len := 5 + |payload| + 4;
    FlagsBits(true, isPrivate, len / 256);
    var v := 0xC0 + 2 * version + (if current then 1 else 0);
    assert (v / 2) % 32 == version && v % 2 == (if current then 1 else 0);
    var c := [tid, Flags(true, isPrivate) + len / 256, len % 256, ext / 256, ext % 256, v, number, last] + payload + crc;
    assert c[8..8 + |payload|] == payload;
    assert c[|c| - 4..] == crc;
    c
  }

  // ---------------------------------------------------------------------
  // Packet count
  // ---------------------------------------------------------------------

  /** SectionPacketCount(): packets for one section alone, with its pointer field. */
  function PacketCountOf(size: nat): (r: nat)
    ensures r * PKT_PAYLOAD >= size + 1 && (r == 0 || (r - 1) * PKT_PAYLOAD < size + 1)
  {
    (size + PKT_PAYLOAD) / PKT_PAYLOAD
  }

  /** Packets when each section starts in a packet of its own. */
  function UnpackedCount(l: seq<SectionData>): nat
  {
    if l == [] then 0 else (if l[0].Some? then PacketCountOf(|l[0].value|) else 0) + UnpackedCount(l[1..])
  }

  /** State of the packing simulation: bytes left in the current packet, pointer field present, packets. */
  datatype PackState = PackState(remain: nat, hasPf: bool, count: nat)

  /** Packing one section after the sections already simulated. */
  function PackStep(st: PackState, size: nat, header: nat): (r: PackState)
    requires st.remain <= PKT_PAYLOAD && size > 0
    ensures r.remain <= PKT_PAYLOAD
  {
    var pf0 := if st.hasPf then 0 else 1;
    var stuff := st.remain < pf0 + header;
    var remain := if stuff then PKT_PAYLOAD else st.remain;
    var hasPf := if stuff then false else st.hasPf;
    var pf := if stuff then 1 else pf0;
    var count := if remain == PKT_PAYLOAD then st.count + 1 else st.count;
    var total := size + pf;
    if total <= remain then PackState(remain - total, hasPf || pf > 0, count)
    else
      var over := total - remain;
      PackState(PKT_PAYLOAD - over % PKT_PAYLOAD, false, count + (over + 183) / PKT_PAYLOAD)
  }

  /** The packing simulation over the valid sections of l. */
  function Packed(st: PackState, l: seq<SectionData>): (r: PackState)
    requires st.remain <= PKT_PAYLOAD && forall i :: 0 <= i < |l| ==> SectionOk(l[i])
    ensures r.remain <= PKT_PAYLOAD
    decreases |l|
  {
    if l == [] then st
    else if l[0].Some? then assert SectionOk(l[0]); Packed(PackStep(st, |l[0].value|, HeaderSize(l[0])), l[1..])
    else Packed(st, l[1..])
  }

  /**
   * Packing never needs more packets than one packet sequence per
   * section: adding to a started packet or stuffing it costs at most what
   * the section needs alone.
   */
  lemma {:induction false} PackStepBound(st: PackState, size: nat, header: nat)
    requires st.remain <= PKT_PAYLOAD && size > 0
    requires st.remain == PKT_PAYLOAD ==> !st.hasPf
    ensures PackStep(st, size, header).count <= st.count + PacketCountOf(size)
    ensures var r := PackStep(st, size, header); r.remain == PKT_PAYLOAD ==> !r.hasPf
  {
    var pf0 := if st.hasPf then 0 else 1;
    var stuff := st.remain < pf0 + header;
    var remain := if stuff then PKT_PAYLOAD else st.remain;
    var pf := if stuff then 1 else pf0;
    var total := size + pf;
    if total > remain {
      var over := total - remain;
      if remain == PKT_PAYLOAD {
        assert pf == 1 && over + 183 == size;
      } else {
        assert remain >= pf;
        DivMono(over + 183, size + PKT_PAYLOAD);
      }
    }
  }

  /** Monotonicity of the division by 184. */
  lemma {:induction false} DivMono(a: nat, b: int)
    requires a <= b
    ensures a / PKT_PAYLOAD <= b / PKT_PAYLOAD
  {
  }

  lemma {:induction false} PackedBound(st: PackState, l: seq<SectionData>)
    requires st.remain <= PKT_PAYLOAD && (st.remain == PKT_PAYLOAD ==> !st.hasPf)
    requires forall i :: 0 <= i < |l| ==> SectionOk(l[i])
    ensures Packed(st, l).count <= st.count + UnpackedCount(l)
    decreases |l|
  {
    if l != [] {
      if l[0].Some? {
        PackStepBound(st, |l[0].value|, HeaderSize(l[0]));
        PackedBound(PackStep(st, |l[0].value|, HeaderSize(l[0])), l[1..]);
      } else {
        PackedBound(st, l[1..]);
      }
    }
  }

  /** One valid section of size s alone needs ceil((s + 1) / 184) packets in both modes. */
  lemma {:induction false} PackedSingle(s: SectionData)
    requires s.Some? && SectionOk(s)
    ensures Packed(PackState(PKT_PAYLOAD, false, 0), [s]).count == PacketCountOf(|s.value|)
    ensures UnpackedCount([s]) == PacketCountOf(|s.value|)
  {
    assert [s][1..] == [];
  }

  /** One section of the packed loop of PacketCount(): the effect of PackStep. */
  method PackSection(remain: nat, hasPf: bool, count: nat, secSize: nat, header: nat)
    returns (remain': nat, hasPf': bool, count': nat)
    requires remain <= PKT_PAYLOAD && secSize > 0
    ensures PackState(remain', hasPf', count') == PackStep(PackState(remain, hasPf, count), secSize, header)
  {
    remain', hasPf', count' := remain, hasPf, count;
    var size := secSize;
    var pfSize := if hasPf' then 0 else 1;
    if remain' < pfSize + header {
      remain' := PKT_PAYLOAD;
      hasPf' := false;
      pfSize := 1;
    }
    if remain' == PKT_PAYLOAD {
      count' := count' + 1;
    }
    size := size + pfSize;
    hasPf' := hasPf' || pfSize > 0;
    if size <= remain' {
      remain' := remain' - size;
    } else {
      size := size - remain';
      count' := count' + (size + 183) / PKT_PAYLOAD;
      hasPf' := false;
      remain' := PKT_PAYLOAD - size % PKT_PAYLOAD;
    }
  }

  /**
   * PacketCount(): the minimum number of TS packets for the sections, packed
   * one after the other or each in its own packets; null and invalid
   * sections are skipped.
   */
  method PacketCount(l: seq<SectionData>, pack: bool) returns (count: nat)
    requires forall i :: 0 <= i < |l| ==> SectionOk(l[i])
    ensures pack ==> count == Packed(PackState(PKT_PAYLOAD, false, 0), l).count
    ensures !pack ==> count == UnpackedCount(l)
    ensures count <= UnpackedCount(l)
  {
    count := 0;
    if pack {
      var remain: nat := PKT_PAYLOAD;
      var hasPf := false;
      var i := 0;
      while i < |l|
        invariant i <= |l| && remain <= PKT_PAYLOAD
        invariant Packed(PackState(PKT_PAYLOAD, false, 0), l) == Packed(PackState(remain, hasPf, count), l[i..])
      {
        assert l[i..][1..] == l[i + 1..];
        var sec := l[i];
        if sec.Some? {
          assert SectionOk(sec);
          remain, hasPf, count := PackSection(remain, hasPf, count, |sec.value|, HeaderSize(sec));
        }
        i := i + 1;
      }
      assert l[i..] == [];
      PackedBound(PackState(PKT_PAYLOAD, false, 0), l);
    } else {
      var i := 0;
      while i < |l|
        invariant i <= |l|
        invariant UnpackedCount(l) == count + UnpackedCount(l[i..])
      {
        assert l[i..][1..] == l[i + 1..];
        if l[i].Some? {
          count := count + PacketCountOf(|l[i].value|);
        }
        i := i + 1;
      }
      assert l[i..] == [];
    }
  }
}
