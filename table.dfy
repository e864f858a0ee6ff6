/**
 * The generic part of table serialization and deserialization
 * (tsAbstractTable.cpp): a table object is turned into a binary table of
 * short sections through a payload buffer, and back.
 *
 * The payload buffer (PSIBuffer), the binary table and the section
 * constructor are stand-ins: the source files defining them are not part of
 * this model. What a concrete table writes is given as a list of steps, what
 * it reads back as a function from a payload to the outcome of the read, and
 * the CRC32 as a function from bytes to a 32-bit value.
 */
module Tables {
  import opened Bytes
  import opened Wrappers
  import Memory
  import opened Sections
  import DuckContexts

  /** Largest payload of a short section: 1024- and 4096-byte sections less a 3-byte header. */
  const MAX_PSI_SHORT_SECTION_PAYLOAD_SIZE: nat := 1021
  const MAX_PRIVATE_SHORT_SECTION_PAYLOAD_SIZE: nat := 4093

  type uint32 = x: nat | x < 0x1_0000_0000

  // The payload buffer.

  /** A saved read/write state. */
  datatype Position = Position(read: nat, write: nat)

  /** A payload buffer: its bytes, read and write offsets, error flag and stack of saved states. */
  datatype Buffer = Buffer(data: seq<byte>, read: nat, write: nat, error: bool, pushed: seq<Position>)

  predicate Fits(p: Position, size: nat)
  {
    p.read <= p.write <= size
  }

  predicate Positioned(b: Buffer)
  {
    Fits(Position(b.read, b.write), |b.data|) && forall i :: 0 <= i < |b.pushed| ==> Fits(b.pushed[i], |b.data|)
  }

  /** An empty buffer of the given size. */
  function NewBuffer(size: nat): (b: Buffer)
    ensures Positioned(b) && |b.data| == size
  {
    Buffer(seq(size, _ => 0), 0, 0, false, [])
  }

  /** The bytes written and not yet read. */
  function ReadArea(b: Buffer): (r: seq<byte>)
    requires Positioned(b)
  {
    b.data[b.read..b.write]
  }

  /** Writing bytes: past the end of the buffer, or after an error, the buffer is in error. */
  function PutBytes(b: Buffer, bytes: seq<byte>): (r: Buffer)
    requires Positioned(b)
    ensures Positioned(r) && |r.data| == |b.data| && r.read == b.read && r.pushed == b.pushed
    ensures r.error <==> b.error || b.write + |bytes| > |b.data|
    ensures !r.error ==> r.write == b.write + |bytes| && ReadArea(r) == ReadArea(b) + bytes
  {
    if b.error || b.write + |bytes| > |b.data| then b.(error := true)
    else
      var r := b.(data := Memory.Spliced(b.data, b.write, bytes), write := b.write + |bytes|);
      assert ReadArea(r) == ReadArea(b) + bytes;
      r
  }

  function PushState(b: Buffer): (r: Buffer)
    requires Positioned(b)
    ensures Positioned(r) && |r.pushed| == |b.pushed| + 1 && r.error == b.error
  {
    b.(pushed := b.pushed + [Position(b.read, b.write)])
  }

  /** Restores the top saved state and drops it; without a saved state nothing changes. */
  function PopState(b: Buffer): (r: Buffer)
    requires Positioned(b)
    ensures Positioned(r) && r.error == b.error
    ensures |b.pushed| > 0 ==> |r.pushed| == |b.pushed| - 1
  {
    if |b.pushed| == 0 then b
    else
      var top := b.pushed[|b.pushed| - 1];
      b.(read := top.read, write := top.write, pushed := b.pushed[..|b.pushed| - 1])
  }

  /** Exchanges the current state with the top saved state. */
  function SwapState(b: Buffer): (r: Buffer)
    requires Positioned(b)
    ensures Positioned(r) && r.error == b.error && |r.pushed| == |b.pushed|
  {
    if |b.pushed| == 0 then b
    else
      var top := b.pushed[|b.pushed| - 1];
      b.(read := top.read, write := top.write, pushed := b.pushed[..|b.pushed| - 1] + [Position(b.read, b.write)])
  }

  /** Swapping twice gives the buffer back, which serialize relies on at lines 254-259. */
  lemma {:induction false} SwapTwice(b: Buffer)
    requires Positioned(b)
    ensures SwapState(SwapState(b)) == b
  {
    if |b.pushed| > 0 {
      var n := |b.pushed|;
      var s := SwapState(b);
      assert s.pushed[..n - 1] == b.pushed[..n - 1];
      assert s.pushed[..n - 1] + [b.pushed[n - 1]] == b.pushed;
    }
  }

  /** readSeek(0), writeSeek(0). */
  function Rewind(b: Buffer): (r: Buffer)
    requires Positioned(b)
    ensures Positioned(r) && r.error == b.error && ReadArea(r) == []
  {
    b.(read := 0, write := 0)
  }

  // The sections of a short table.

  /** What addOneSectionImpl needs of the table object. */
  datatype Shape = Shape(tableId: byte, isPrivate: bool, useCrc: bool)

  /** The last four bytes of a section: its trailing CRC32, big-endian. */
  predicate CrcOk(crc: seq<byte> -> uint32, c: seq<byte>)
  {
    |c| >= 4 && crc(c[..|c| - 4]) == Memory.GetUIntBE(c[|c| - 4..], 4)
  }

  /**
   * Lines 303-316: a short section with the buffer's remaining bytes as its
   * payload, and with a trailing CRC32 of everything before it when the
   * table uses one. A section that does not fit in 4096 bytes is invalid.
   */
  function ShortSection(shape: Shape, crc: seq<byte> -> uint32, payload: seq<byte>): (r: SectionData)
  {
    var body := if shape.useCrc then payload + [0, 0, 0, 0] else payload;
    if |body| > MAX_PRIVATE_SHORT_SECTION_PAYLOAD_SIZE then None
    else if !shape.useCrc then Some(MakeShort(shape.tableId, shape.isPrivate, body))
    else
      var c := MakeShort(shape.tableId, shape.isPrivate, body);
      Some(c[..|c| - 4] + BEBytes(crc(c[..|c| - 4]), 4))
  }

  /** Which bytes of a section deserializePayload reads, None when the trailing CRC32 is wrong. */
  function SectionBytes(useCrc: bool, crc: seq<byte> -> uint32, s: SectionData): (r: Option<seq<byte>>)
    requires s.Some? && WellFormed(s.value)
  {
    var withCrc := IsShort(s) && useCrc;
    if withCrc && !CrcOk(crc, s.value) then None
    else
      var p := Payload(s).value;
      Some(if !withCrc then p else p[..if |p| >= 4 then |p| - 4 else 0])
  }

  /** A section built by ShortSection is well formed, short, and gives its payload back. */
  lemma {:induction false} ShortSectionRoundTrip(shape: Shape, crc: seq<byte> -> uint32, payload: seq<byte>)
    requires ShortSection(shape, crc, payload).Some?
    ensures WellFormed(ShortSection(shape, crc, payload).value)
    ensures IsShort(ShortSection(shape, crc, payload))
    ensures TableId(ShortSection(shape, crc, payload)) == shape.tableId
    ensures SectionBytes(shape.useCrc, crc, ShortSection(shape, crc, payload)) == Some(payload)
  {
    if shape.useCrc {
      var c := MakeShort(shape.tableId, shape.isPrivate, payload + [0, 0, 0, 0]);
      var head := c[..|c| - 4];
      var v := crc(head);
      var tail := BEBytes(v, 4);
      var d := head + tail;
      assert ShortSection(shape, crc, payload) == Some(d);
      CrcSection(shape.tableId, shape.isPrivate, payload, v);
      CrcTail(head, tail, v);
      assert CrcOk(crc, d);
      assert d[3..3 + PayloadSize(Some(d))] == d[3..];
      assert Payload(Some(d)) == Some(payload + tail);
      assert (payload + tail)[..|payload|] == payload;
    }
  }

  /** Replacing the four zero bytes at the end of a short section by a CRC keeps its header. */
  lemma {:induction false} CrcSection(tid: byte, isPrivate: bool, payload: seq<byte>, v: uint32)
    requires |payload| + 4 <= MAX_PRIVATE_SHORT_SECTION_PAYLOAD_SIZE
    ensures var c := MakeShort(tid, isPrivate, payload + [0, 0, 0, 0]);
            var d := c[..|c| - 4] + BEBytes(v, 4);
            WellFormed(d) && !StartLong(d) && d[0] == tid && d[3..] == payload + BEBytes(v, 4)
  {
    var body := payload + [0, 0, 0, 0];
    var c := MakeShort(tid, isPrivate, body);
    var d := c[..|c| - 4] + BEBytes(v, 4);
    assert d[..3] == c[..3];
    assert SectionLength(d) == SectionLength(c);
    assert c[3..3 + |body|] == body;
    assert d[3..] == payload + BEBytes(v, 4);
  }

  /** The CRC written by ShortSection reads back as the CRC of the bytes before it. */
  lemma {:induction false} CrcTail(head: seq<byte>, tail: seq<byte>, v: uint32)
    requires tail == BEBytes(v, 4)
    ensures (head + tail)[|head + tail| - 4..] == tail
    ensures (head + tail)[..|head + tail| - 4] == head
    ensures Memory.GetUIntBE(tail, 4) == v
  {
    assert tail[..4] == tail;
    BERoundTrip(v, 4);
    assert Pow256(4) == 0x1_0000_0000 by {
      assert Pow256(1) == 256;
      assert Pow256(2) == 65536;
      assert Pow256(3) == 16777216;
    }
  }

  // Serialization.

  /** What serializePayload of a concrete table does with the payload buffer. */
  datatype Step = Put(bytes: seq<byte>) | Push | Pop | AddSection | Fail

  /** The binary table being built and the payload buffer. */
  datatype Ser = Ser(sections: seq<SectionData>, buf: Buffer)

  /** addOneSectionImpl(), lines 300-321: a short table has one section at most. */
  function AfterAddOneSectionImpl(shape: Shape, crc: seq<byte> -> uint32, s: Ser): (r: Ser)
    requires Positioned(s.buf)
    ensures Positioned(r.buf)
    ensures |s.sections| == 0 ==> r == Ser([ShortSection(shape, crc, ReadArea(s.buf))], s.buf)
    ensures |s.sections| > 0 ==> r.sections == s.sections && r.buf.error
  {
    if |s.sections| == 0 then s.(sections := [ShortSection(shape, crc, ReadArea(s.buf))])
    else s.(buf := s.buf.(error := true))
  }

  /**
   * addOneSection(), lines 278-297: after an error nothing happens; otherwise
   * the section is added and the buffer goes back to its pushed state, or to
   * its start when there is none.
   */
  function AfterAddOneSection(shape: Shape, crc: seq<byte> -> uint32, s: Ser): (r: Ser)
    requires Positioned(s.buf)
    ensures Positioned(r.buf)
    ensures s.buf.error ==> r == s
    ensures !s.buf.error && |s.buf.pushed| == 0 ==> ReadArea(r.buf) == []
    ensures !s.buf.error && |s.buf.pushed| > 0 ==> |r.buf.pushed| == |s.buf.pushed|
    ensures !s.buf.error ==> r.sections == AfterAddOneSectionImpl(shape, crc, s).sections
  {
    if s.buf.error then s
    else
      var s1 := AfterAddOneSectionImpl(shape, crc, s);
      if |s1.buf.pushed| > 0 then s1.(buf := PushState(PopState(s1.buf)))
      else s1.(buf := Rewind(s1.buf))
  }

  function ApplyStep(shape: Shape, crc: seq<byte> -> uint32, s: Ser, step: Step): (r: Ser)
    requires Positioned(s.buf)
    ensures Positioned(r.buf)
  {
    match step
    case Put(bytes) => s.(buf := PutBytes(s.buf, bytes))
    case Push => s.(buf := PushState(s.buf))
    case Pop => s.(buf := PopState(s.buf))
    case AddSection => AfterAddOneSection(shape, crc, s)
    case Fail => s.(buf := s.buf.(error := true))
  }

  /** The state after the steps of serializePayload. */
  function RunSteps(shape: Shape, crc: seq<byte> -> uint32, s: Ser, steps: seq<Step>): (r: Ser)
    requires Positioned(s.buf)
    ensures Positioned(r.buf)
    decreases |steps|
  {
    if |steps| == 0 then s
    else ApplyStep(shape, crc, RunSteps(shape, crc, s, steps[..|steps| - 1]), steps[|steps| - 1])
  }

  datatype Serialized = Serialized(ok: bool, sections: seq<SectionData>)

  /** Lines 248-260: whether a final section is added after some were. */
  function AddLast(b: Buffer): bool
    requires Positioned(b)
  {
    var add := b.write - b.read > 0;
    if add && |b.pushed| > 0 then b.write > SwapState(b).write else add
  }

  /** Lines 235-265: the binary table once serializePayload has returned. */
  function Closed(shape: Shape, crc: seq<byte> -> uint32, s: Ser): (r: Serialized)
    requires Positioned(s.buf)
  {
    if s.buf.error then Serialized(false, [])
    else if |s.sections| == 0 then Serialized(true, AfterAddOneSection(shape, crc, s).sections)
    else
      var s2 := if AddLast(s.buf) then AfterAddOneSection(shape, crc, s) else s;
      Serialized(!s2.buf.error, s2.sections)
  }

  /** serialize(), lines 216-271, for a table object that is valid or not. */
  function Serialization(valid: bool, shape: Shape, maxSize: nat, crc: seq<byte> -> uint32, steps: seq<Step>): (r: Serialized)
  {
    if !valid then Serialized(false, [])
    else Closed(shape, crc, RunSteps(shape, crc, Ser([], NewBuffer(maxSize)), steps))
  }

  /** The steps of a short table never leave more than one section. */
  lemma {:induction false} StepsAtMostOne(shape: Shape, crc: seq<byte> -> uint32, s: Ser, steps: seq<Step>)
    requires Positioned(s.buf) && |s.sections| <= 1
    ensures |RunSteps(shape, crc, s, steps).sections| <= 1
    ensures |s.sections| == 1 ==> RunSteps(shape, crc, s, steps).sections == s.sections
    decreases |steps|
  {
    if |steps| > 0 {
      StepsAtMostOne(shape, crc, s, steps[..|steps| - 1]);
    }
  }

  /**
   * A successful serialization of a short table gives exactly one section;
   * a failed one gives none, unless the steps had added the one section and
   * left more bytes behind it.
   */
  lemma {:induction false} SerializeOneSection(valid: bool, shape: Shape, maxSize: nat, crc: seq<byte> -> uint32, steps: seq<Step>)
    ensures Serialization(valid, shape, maxSize, crc, steps).ok ==> |Serialization(valid, shape, maxSize, crc, steps).sections| == 1
    ensures |Serialization(valid, shape, maxSize, crc, steps).sections| <= 1
  {
    if valid {
      StepsAtMostOne(shape, crc, Ser([], NewBuffer(maxSize)), steps);
    }
  }

  /** Lines 221-226 and 238-242: an invalid object, or an error in the buffer, gives an empty table and false. */
  lemma {:induction false} SerializeErrors(valid: bool, shape: Shape, maxSize: nat, crc: seq<byte> -> uint32, steps: seq<Step>)
    requires !valid || RunSteps(shape, crc, Ser([], NewBuffer(maxSize)), steps).buf.error
    ensures Serialization(valid, shape, maxSize, crc, steps) == Serialized(false, [])
  {
  }

  /** Lines 243-246: when the steps added no section, the remaining bytes make the one section. */
  lemma {:induction false} SerializeAddsSection(valid: bool, shape: Shape, maxSize: nat, crc: seq<byte> -> uint32, steps: seq<Step>)
    requires valid
    requires !RunSteps(shape, crc, Ser([], NewBuffer(maxSize)), steps).buf.error
    requires RunSteps(shape, crc, Ser([], NewBuffer(maxSize)), steps).sections == []
    ensures Serialization(valid, shape, maxSize, crc, steps).ok
    ensures Serialization(valid, shape, maxSize, crc, steps).sections ==
              [ShortSection(shape, crc, ReadArea(RunSteps(shape, crc, Ser([], NewBuffer(maxSize)), steps).buf))]
  {
    var s := RunSteps(shape, crc, Ser([], NewBuffer(maxSize)), steps);
    assert AfterAddOneSectionImpl(shape, crc, s).sections == [ShortSection(shape, crc, ReadArea(s.buf))];
  }

  /** Writing the payload bytes of a table with no step of its own gives them back from the section. */
  lemma {:induction false} PutRoundTrip(shape: Shape, maxSize: nat, crc: seq<byte> -> uint32, payload: seq<byte>)
    requires |payload| <= maxSize
    requires ShortSection(shape, crc, payload).Some?
    ensures Serialization(true, shape, maxSize, crc, [Put(payload)]) == Serialized(true, [ShortSection(shape, crc, payload)])
    ensures SectionBytes(shape.useCrc, crc, Serialization(true, shape, maxSize, crc, [Put(payload)]).sections[0]) == Some(payload)
  {
    var init := Ser([], NewBuffer(maxSize));
    assert [Put(payload)][..0] == [];
    assert RunSteps(shape, crc, init, []) == init;
    var s := RunSteps(shape, crc, init, [Put(payload)]);
    assert s == ApplyStep(shape, crc, init, Put(payload));
    assert ReadArea(init.buf) == [];
    assert ReadArea(s.buf) == payload;
    ShortSectionRoundTrip(shape, crc, payload);
  }

  // Deserialization.

  /** What deserializePayload reported: an error, and how many bytes it read. */
  datatype ReadOutcome = ReadOutcome(error: bool, consumed: nat)

  /** Lines 365-377: a payload is accepted when it is read without error and to its end. */
  predicate Accepted(reader: seq<byte> -> ReadOutcome, p: seq<byte>)
  {
    !reader(p).error && reader(p).consumed == |p|
  }

  predicate AllWellFormed(secs: seq<SectionData>)
  {
    forall i :: 0 <= i < |secs| ==> secs[i].Some? && WellFormed(secs[i].value)
  }

  /** The payloads read from the sections, None when one of them is rejected. */
  function ReadSections(useCrc: bool, crc: seq<byte> -> uint32, reader: seq<byte> -> ReadOutcome, secs: seq<SectionData>): (r: Option<seq<seq<byte>>>)
    requires AllWellFormed(secs)
    ensures r.Some? ==> |r.value| == |secs|
    decreases |secs|
  {
    if |secs| == 0 then Some([])
    else
      var n := |secs| - 1;
      match ReadSections(useCrc, crc, reader, secs[..n])
      case None => None
      case Some(ps) =>
        match SectionBytes(useCrc, crc, secs[n])
        case None => None
        case Some(p) => if Accepted(reader, p) then Some(ps + [p]) else None
  }

  /** Every payload kept is accepted by the reader, and each is the bytes of its section. */
  lemma {:induction false} ReadSectionsAccepted(useCrc: bool, crc: seq<byte> -> uint32, reader: seq<byte> -> ReadOutcome, secs: seq<SectionData>, i: nat)
    requires AllWellFormed(secs) && ReadSections(useCrc, crc, reader, secs).Some? && i < |secs|
    ensures SectionBytes(useCrc, crc, secs[i]) == Some(ReadSections(useCrc, crc, reader, secs).value[i])
    ensures Accepted(reader, ReadSections(useCrc, crc, reader, secs).value[i])
    decreases |secs|
  {
    var n := |secs| - 1;
    if i < n {
      assert secs[..n][i] == secs[i];
      ReadSectionsAccepted(useCrc, crc, reader, secs[..n], i);
    }
  }

  /** A table of sections whose bytes are all accepted is read back as those bytes. */
  lemma {:induction false} ReadSectionsComplete(useCrc: bool, crc: seq<byte> -> uint32, reader: seq<byte> -> ReadOutcome, secs: seq<SectionData>)
    requires AllWellFormed(secs)
    requires forall i :: 0 <= i < |secs| ==> SectionBytes(useCrc, crc, secs[i]).Some? && Accepted(reader, SectionBytes(useCrc, crc, secs[i]).value)
    ensures ReadSections(useCrc, crc, reader, secs).Some?
    decreases |secs|
  {
    if |secs| > 0 {
      var n := |secs| - 1;
      assert forall i :: 0 <= i < n ==> secs[..n][i] == secs[i];
      ReadSectionsComplete(useCrc, crc, reader, secs[..n]);
    }
  }

  /**
   * Serializing a payload and deserializing the binary table with a reader
   * that accepts that payload gives the payload back, from a valid table with
   * the object's table id.
   */
  lemma {:induction false} SerializeDeserialize(shape: Shape, maxSize: nat, crc: seq<byte> -> uint32, reader: seq<byte> -> ReadOutcome, payload: seq<byte>)
    requires |payload| <= maxSize && ShortSection(shape, crc, payload).Some? && Accepted(reader, payload)
    ensures var t := Serialization(true, shape, maxSize, crc, [Put(payload)]).sections;
            |t| == 1 && AllWellFormed(t) && TableId(t[0]) == shape.tableId &&
            ReadSections(shape.useCrc, crc, reader, t) == Some([payload])
  {
    PutRoundTrip(shape, maxSize, crc, payload);
    ShortSectionRoundTrip(shape, crc, payload);
    var t := [ShortSection(shape, crc, payload)];
    assert t[..0] == [];
    assert ReadSections(shape.useCrc, crc, reader, t[..0]) == Some([]);
    assert SectionBytes(shape.useCrc, crc, t[0]) == Some(payload);
    assert [] + [payload] == [payload];
  }

  /** The binary table stand-in: its sections and its attribute. */
  class BinaryTable {
    var sections: seq<SectionData>
    var attribute: string

    constructor ()
      ensures sections == [] && attribute == ""
    {
      sections := [];
      attribute := "";
    }

    /** A binary table is valid when it has sections and all are valid. */
    predicate IsValid()
      reads this
    {
      |sections| > 0 && AllWellFormed(sections)
    }

    function TableId(): byte
      reads this
    {
      if |sections| > 0 then Sections.TableId(sections[0]) else TID_NULL
    }

    method Clear()
      modifies this
      ensures sections == [] && attribute == ""
    {
      sections := [];
      attribute := "";
    }

    method AddSection(s: SectionData)
      modifies this
      ensures sections == old(sections) + [s] && attribute == old(attribute)
    {
      sections := sections + [s];
    }

    method SetAttribute(a: string)
      modifies this
      ensures sections == old(sections) && attribute == a
    {
      attribute := a;
    }
  }

  /** A short table object. The payloads it has read stand for the fields of a concrete table. */
  class AbstractTable {
    var tableId: byte
    var valid: bool
    var attribute: string
    var content: seq<seq<byte>>
    const isPrivate: bool
    const useTrailingCrc32: bool
    const definingStandards: DuckContexts.Standards

    constructor (tid: byte, isPrivate: bool, useTrailingCrc32: bool, standards: DuckContexts.Standards)
      ensures tableId == tid && valid && attribute == "" && content == []
      ensures this.isPrivate == isPrivate && this.useTrailingCrc32 == useTrailingCrc32 && definingStandards == standards
    {
      tableId := tid;
      valid := true;
      attribute := "";
      content := [];
      this.isPrivate := isPrivate;
      this.useTrailingCrc32 := useTrailingCrc32;
      definingStandards := standards;
    }

    function TableShape(): Shape
      reads this
    {
      Shape(tableId, isPrivate, useTrailingCrc32)
    }

    /** maxPayloadSize(), lines 105-110. */
    function MaxPayloadSize(): (r: nat)
      ensures r == if isPrivate then MAX_PRIVATE_SHORT_SECTION_PAYLOAD_SIZE else MAX_PSI_SHORT_SECTION_PAYLOAD_SIZE
    {
      if isPrivate then MAX_PRIVATE_SHORT_SECTION_PAYLOAD_SIZE else MAX_PSI_SHORT_SECTION_PAYLOAD_SIZE
    }

    /** isValidTableId(), lines 81-86. */
    predicate IsValidTableId(tid: byte)
      reads this
    {
      tid == tableId
    }

    /** clear(): an empty, valid object. */
    method Clear()
      modifies this
      ensures valid && attribute == "" && content == [] && tableId == old(tableId)
    {
      valid := true;
      attribute := "";
      content := [];
    }

    /** addOneSectionImpl(), lines 300-321. */
    method AddOneSectionImpl(table: BinaryTable, payload: Buffer, crc: seq<byte> -> uint32) returns (buf: Buffer)
      requires Positioned(payload)
      modifies table
      ensures Ser(table.sections, buf) == AfterAddOneSectionImpl(TableShape(), crc, Ser(old(table.sections), payload))
      ensures table.attribute == old(table.attribute)
    {
      buf := payload;
      if |table.sections| == 0 {
        var section := ShortSection(TableShape(), crc, ReadArea(payload));
        table.AddSection(section);
      } else {
        buf := payload.(error := true);
      }
    }

    /** addOneSection(), lines 278-297. */
    method AddOneSection(table: BinaryTable, payload: Buffer, crc: seq<byte> -> uint32) returns (buf: Buffer)
      requires Positioned(payload)
      modifies table
      ensures Ser(table.sections, buf) == AfterAddOneSection(TableShape(), crc, Ser(old(table.sections), payload))
      ensures table.attribute == old(table.attribute)
    {
      buf := payload;
      if !payload.error {
        buf := AddOneSectionImpl(table, payload, crc);
        if |buf.pushed| > 0 {
          buf := PopState(buf);
          buf := PushState(buf);
        } else {
          buf := Rewind(buf);
        }
      }
    }

    /** One step of serializePayload. */
    method SerializeStep(table: BinaryTable, payload: Buffer, step: Step, crc: seq<byte> -> uint32) returns (buf: Buffer)
      requires Positioned(payload)
      modifies table
      ensures Ser(table.sections, buf) == ApplyStep(TableShape(), crc, Ser(old(table.sections), payload), step)
      ensures table.attribute == old(table.attribute)
    {
      match step
      case Put(bytes) => buf := PutBytes(payload, bytes);
      case Push => buf := PushState(payload);
      case Pop => buf := PopState(payload);
      case AddSection => buf := AddOneSection(table, payload, crc);
      case Fail => buf := payload.(error := true);
    }

    /**
     * serialize(duck, table), lines 216-271: the binary table is what the
     * specification function gives, with this object's attribute unless the
     * object is invalid; the defining standards join the context's.
     */
    method Serialize(duck: DuckContexts.DuckContext, table: BinaryTable, steps: seq<Step>, crc: seq<byte> -> uint32) returns (ok: bool)
      modifies duck, table
      ensures Serialized(ok, table.sections) == Serialization(valid, TableShape(), MaxPayloadSize(), crc, steps)
      ensures table.attribute == if valid then attribute else ""
      ensures duck.accStandards == if valid then old(duck.accStandards) | definingStandards else old(duck.accStandards)
      ensures duck.cmdStandards == old(duck.cmdStandards) && duck.timeReference == old(duck.timeReference)
    {
      table.Clear();
      if !valid {
        return false;
      }
      duck.AddStandards(definingStandards);
      var payload := SerializePayload(table, steps, crc);
      ok := CloseSections(table, payload, crc);
      table.SetAttribute(attribute);
    }

    /** serializePayload() of the concrete table, lines 231-235, as its steps. */
    method SerializePayload(table: BinaryTable, steps: seq<Step>, crc: seq<byte> -> uint32) returns (payload: Buffer)
      requires table.sections == []
      modifies table
      ensures Positioned(payload)
      ensures Ser(table.sections, payload) == RunSteps(TableShape(), crc, Ser([], NewBuffer(MaxPayloadSize())), steps)
      ensures table.attribute == old(table.attribute)
    {
      ghost var init := Ser([], NewBuffer(MaxPayloadSize()));
      payload := NewBuffer(MaxPayloadSize());
      for k := 0 to |steps|
        invariant Positioned(payload)
        invariant Ser(table.sections, payload) == RunSteps(TableShape(), crc, init, steps[..k])
        invariant table.attribute == old(table.attribute)
      {
        assert steps[..k + 1][..k] == steps[..k];
        payload := SerializeStep(table, payload, steps[k], crc);
      }
      assert steps[..|steps|] == steps;
    }

    /** Lines 238-265: the last section, if one is needed, once the payload is serialized. */
    method CloseSections(table: BinaryTable, payload: Buffer, crc: seq<byte> -> uint32) returns (ok: bool)
      requires Positioned(payload)
      modifies table
      ensures Serialized(ok, table.sections) == Closed(TableShape(), crc, Ser(old(table.sections), payload))
    {
      ok := true;
      var buf := payload;
      if buf.error {
        table.Clear();
        ok := false;
      } else if |table.sections| == 0 {
        buf := AddOneSection(table, buf, crc);
      } else {
        var add := buf.write - buf.read > 0;
        if add && |buf.pushed| > 0 {
          var currentWrite := buf.write;
          buf := SwapState(buf);
          add := currentWrite > buf.write;
          buf := SwapState(buf);
          SwapTwice(payload);
        }
        if add {
          buf := AddOneSection(table, buf, crc);
        }
        ok := !buf.error;
      }
    }

    /**
     * deserialize(duck, table), lines 326-385: the object is valid when the
     * binary table is, has this table's id, and every section passes its
     * CRC32 check and is read exactly to its end.
     */
    method Deserialize(duck: DuckContexts.DuckContext, table: BinaryTable, reader: seq<byte> -> ReadOutcome, crc: seq<byte> -> uint32) returns (ok: bool)
      modifies this, duck
      ensures ok == valid
      ensures ok <==> table.IsValid() && table.TableId() == old(tableId) &&
                      ReadSections(useTrailingCrc32, crc, reader, table.sections).Some?
      ensures ok ==> content == ReadSections(useTrailingCrc32, crc, reader, table.sections).value &&
                     tableId == table.TableId() && attribute == table.attribute
      ensures !ok ==> attribute == "" && content == []
      ensures !(table.IsValid() && table.TableId() == old(tableId)) ==> tableId == old(tableId)
      ensures duck.accStandards == if ok then old(duck.accStandards) | definingStandards else old(duck.accStandards)
      ensures duck.cmdStandards == old(duck.cmdStandards) && duck.timeReference == old(duck.timeReference)
    {
      Clear();
      if !table.IsValid() || !IsValidTableId(table.TableId()) {
        valid := false;
        return false;
      }
      tableId := table.TableId();
      attribute := table.attribute;
      DeserializeSections(table.sections, reader, crc);
      if valid {
        duck.AddStandards(definingStandards);
      }
      return valid;
    }

    /** The loop of lines 345-378 over the sections, on an object just cleared. */
    method DeserializeSections(secs: seq<SectionData>, reader: seq<byte> -> ReadOutcome, crc: seq<byte> -> uint32)
      requires AllWellFormed(secs) && valid && content == []
      modifies this
      ensures tableId == old(tableId)
      ensures valid <==> ReadSections(useTrailingCrc32, crc, reader, secs).Some?
      ensures valid ==> content == ReadSections(useTrailingCrc32, crc, reader, secs).value && attribute == old(attribute)
      ensures !valid ==> attribute == "" && content == []
    {
      var si := 0;
      while si < |secs|
        invariant 0 <= si <= |secs|
        invariant tableId == old(tableId)
        invariant valid && ReadSections(useTrailingCrc32, crc, reader, secs[..si]) == Some(content) && attribute == old(attribute)
      {
        var read := ReadSection(secs, si, reader, crc);
        if read.None? {
          Clear();
          valid := false;
          break;
        }
        assert secs[..si + 1][..si] == secs[..si] && secs[..si + 1][si] == secs[si];
        content := content + [read.value];
        si := si + 1;
      }
      if valid {
        assert secs[..si] == secs;
      }
    }

    /**
     * Lines 347-378 for the section at index si: its payload when its CRC32
     * and the reader accept it; None, and then the table is rejected, otherwise.
     */
    method ReadSection(secs: seq<SectionData>, si: nat, reader: seq<byte> -> ReadOutcome, crc: seq<byte> -> uint32) returns (r: Option<seq<byte>>)
      requires AllWellFormed(secs) && si < |secs|
      ensures r.Some? ==> SectionBytes(useTrailingCrc32, crc, secs[si]) == r && Accepted(reader, r.value)
      ensures r.None? ==> ReadSections(useTrailingCrc32, crc, reader, secs).None?
    {
      var section := secs[si];
      var shortCrc := IsShort(section) && useTrailingCrc32;
      if shortCrc && !CrcOk(crc, section.value) {
        r := None;
      } else {
        var p := Payload(section).value;
        var bytes := if !shortCrc then p else p[..if |p| >= 4 then |p| - 4 else 0];
        var outcome := reader(bytes);
        r := if outcome.error || outcome.consumed != |bytes| then None else Some(bytes);
      }
      if r.None? {
        RejectedPrefix(useTrailingCrc32, crc, reader, secs, si);
      }
    }
  }

  /**
   * A section that is rejected after an accepted prefix rejects the whole
   * table (the loop at lines 345-378 breaks there).
   */
  lemma {:induction false} RejectedPrefix(useCrc: bool, crc: seq<byte> -> uint32, reader: seq<byte> -> ReadOutcome, secs: seq<SectionData>, si: nat)
    requires AllWellFormed(secs) && si < |secs|
    requires SectionBytes(useCrc, crc, secs[si]).None? || !Accepted(reader, SectionBytes(useCrc, crc, secs[si]).value)
    ensures ReadSections(useCrc, crc, reader, secs).None?
    decreases |secs|
  {
    var n := |secs| - 1;
    if si < n {
      assert secs[..n][si] == secs[si];
      RejectedPrefix(useCrc, crc, reader, secs[..n], si);
    }
  }
}
