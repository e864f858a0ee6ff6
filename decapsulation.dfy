/**
 * TS-in-TS decapsulation (tsPacketDecapsulation.cpp): inner transport packets
 * carried in the payload of an outer PID, either directly ("plain"
 * encapsulation, where PUSI and a pointer field mark the start of an inner
 * packet) or inside a PES envelope holding a KLV item whose key ends with the
 * start mark. The decapsulator collects the inner bytes behind a sync byte and
 * hands back one inner packet each time 187 bytes have been gathered.
 *
 * The outer packet header is read as ISO/IEC 13818-1, section 2.4.3.2, lays
 * it out; the TSPacket class that does so is not part of this model.
 */
module Decapsulation {
  import opened Bytes
  import opened Wrappers
  import Memory

  const PKT_SIZE: nat := 188
  const PID_NULL: nat := 0x1FFF

  /** The first byte of every transport packet. */
  const SYNC_BYTE: byte := 0x47
  /** The null packet that replaces a packet from which nothing was extracted. */
  const NULL_PACKET: seq<byte> := [0x47, 0x1F, 0xFF, 0x10] + Stuffing(184)

  /** n stuffing bytes 0xFF. */
  function Stuffing(n: nat): (r: seq<byte>)
    ensures |r| == n && forall i :: 0 <= i < n ==> r[i] == 0xFF
  {
    seq(n, _ => 0xFF)
  }

  const ERR_INCORRECT := "incorrect packet"
  const ERR_TYPE := "invalid PES packet, type differs"
  const ERR_SIZE := "invalid PES packet, size incompatible"
  const ERR_WRONG_SIZE := "invalid PES packet, wrong size"
  const ERR_FLAGS := "invalid PES packet, incorrect flags"
  const ERR_AU_HEADER := "invalid PES packet, SYNC Metadata Header incorrect"
  const ERR_AU_SIZE := "invalid PES packet, SYNC AU cell data size incompatible"
  const ERR_DATA := "invalid PES packet, data unknown"
  const ERR_UL := "invalid PES packet, incorrect UL Signature"
  const ERR_KLVA_SIZE := "invalid PES packet, incorrect KLVA size"
  const ERR_KLVA_PAYLOAD := "invalid PES packet, KLVA payload doesn't match"
  const ERR_POINTER := "invalid packet, adaptation field or pointer field out of range"
  const ERR_DISCONTINUITY := "input PID discontinuity"

  /** The first 15 bytes of the KLV universal label; the 16th is 0x0F or 0x1F. */
  const UL_KEY: seq<byte> := [0x06, 0x0E, 0x2B, 0x34, 0x01, 0x01, 0x01, 0x01, 0x0F, 0x01, 0x08, 0x00, 0x0F, 0x0F, 0x0F]

  function Min(a: nat, b: nat): nat { if a <= b then a else b }

  // Outer packet header fields.

  function Pid(b: seq<byte>): nat
    requires |b| == PKT_SIZE
  {
    (b[1] as int % 32) * 256 + b[2] as int
  }

  predicate Tei(b: seq<byte>)
    requires |b| == PKT_SIZE
  {
    b[1] >= 128
  }

  predicate Pusi(b: seq<byte>)
    requires |b| == PKT_SIZE
  {
    (b[1] / 64) % 2 == 1
  }

  predicate IsClear(b: seq<byte>)
    requires |b| == PKT_SIZE
  {
    b[3] / 64 == 0
  }

  predicate HasAdaptationField(b: seq<byte>)
    requires |b| == PKT_SIZE
  {
    (b[3] / 32) % 2 == 1
  }

  predicate HasPayload(b: seq<byte>)
    requires |b| == PKT_SIZE
  {
    (b[3] / 16) % 2 == 1
  }

  function Cc(b: seq<byte>): nat
    requires |b| == PKT_SIZE
  {
    b[3] % 16
  }

  /** Header plus adaptation field, never beyond the packet. */
  function HeaderSize(b: seq<byte>): (r: nat)
    requires |b| == PKT_SIZE
    ensures 4 <= r <= PKT_SIZE
  {
    var h: nat := if HasAdaptationField(b) then 5 + b[4] as nat else 4;
    if h < PKT_SIZE then h else PKT_SIZE
  }

  // The envelope around the inner data.

  /** Where the inner data starts, whether it holds a start mark, and the pointer field. */
  datatype Env = Rejected(error: string) | Payload(index: nat, startMark: bool, pointer: nat)

  /** The fixed PES header, up to the end of its optional part. */
  datatype PesHead = PesRejected(error: string) | PesHead(index: nat, pesSync: bool, fragment: nat)

  /** The 5-byte metadata AU header of SYNC mode. */
  datatype AuHead = AuRejected(error: string) | AuHead(index: nat)

  /** The payload starts with a PES start code that lies inside the packet. */
  predicate PesStart(b: seq<byte>)
    requires |b| == PKT_SIZE
  {
    var h := HeaderSize(b);
    Pusi(b) && h < PKT_SIZE - 9 && b[h] == 0x00 && b[h + 1] == 0x00 && b[h + 2] == 0x01
  }

  function PesHeader(b: seq<byte>, h: nat): (r: PesHead)
    requires |b| == PKT_SIZE && h < PKT_SIZE - 9
    ensures r.PesHead? ==> r.index == h + 9 + r.fragment && r.fragment < 256
    ensures r.PesHead? ==> r.pesSync == (b[h + 3] == 0xFC)
  {
    var i := h + 3;
    if b[i] != 0xBD && b[i] != 0xFC then PesRejected(ERR_TYPE)
    else if b[i + 1] != 0x00 then PesRejected(ERR_SIZE)
    else if b[i + 2] > 255 || b[i + 2] < 18 then PesRejected(ERR_WRONG_SIZE)
    else if (b[i + 3] != 0x80 && b[i + 3] != 0x84) || (b[i + 4] != 0x80 && b[i + 4] != 0x00) then PesRejected(ERR_FLAGS)
    else PesHead(i + 6 + b[i + 5], b[i] == 0xFC, b[i + 5])
  }

  /**
   * The AU header check as the code reads it: byte by byte, with no bound on
   * the index, which may lie past the packet. None stands for a read outside
   * the packet.
   */
  function AuHeaderAsWritten(b: seq<byte>, i: nat): (r: Option<AuHead>)
    requires |b| == PKT_SIZE
    ensures r.Some? ==> r.value == AuHeader(b, i)
    ensures r.None? ==> i + 4 >= PKT_SIZE
  {
    if i >= PKT_SIZE then None
    else if b[i] != 0x00 then Some(AuRejected(ERR_AU_HEADER))
    else if i + 2 >= PKT_SIZE then None
    else if b[i + 2] != 0xDF then Some(AuRejected(ERR_AU_HEADER))
    else if i + 3 >= PKT_SIZE then None
    else if b[i + 3] != 0x00 then Some(AuRejected(ERR_AU_SIZE))
    else if i + 4 >= PKT_SIZE then None
    else if b[i + 4] > 206 then Some(AuRejected(ERR_AU_SIZE))
    else Some(AuHead(i + 5))
  }

  /** The AU header check with a byte outside the packet failing the comparison it is read for. */
  function AuHeader(b: seq<byte>, i: nat): (r: AuHead)
    requires |b| == PKT_SIZE
    ensures r.AuHead? <==> i + 5 <= PKT_SIZE && b[i] == 0x00 && b[i + 2] == 0xDF && b[i + 3] == 0x00 && b[i + 4] <= 206
    ensures r.AuHead? ==> r.index == i + 5
  {
    if !(i < PKT_SIZE && b[i] == 0x00 && i + 2 < PKT_SIZE && b[i + 2] == 0xDF) then AuRejected(ERR_AU_HEADER)
    else if !(i + 3 < PKT_SIZE && b[i + 3] == 0x00 && i + 4 < PKT_SIZE && b[i + 4] <= 206) then AuRejected(ERR_AU_SIZE)
    else AuHead(i + 5)
  }

  /** The pointer field, present after a start mark when the packet has room for it. */
  function PointerField(b: seq<byte>, i: nat, startMark: bool, fragment: nat): (r: Env)
    requires |b| == PKT_SIZE && i <= PKT_SIZE
    ensures r.Payload? ==> i <= r.index <= PKT_SIZE && r.startMark == startMark
    ensures r.Payload? && startMark ==> r.index + r.pointer <= PKT_SIZE + fragment
    ensures r.Payload? && !startMark ==> r.index == i && r.pointer == 0
    ensures !startMark ==> r.Payload?
  {
    var present := startMark && i < PKT_SIZE;
    var pointer := if present then b[i] else 0;
    var j := if present then i + 1 else i;
    if startMark && j + pointer > PKT_SIZE + fragment then Rejected(ERR_POINTER)
    else Payload(j, startMark, pointer)
  }

  /** The KLV key and length; the start mark is bit 0x10 of the last key byte. */
  function Klv(b: seq<byte>, i: nat, fragment: nat): (r: Env)
    requires |b| == PKT_SIZE
    ensures r.Payload? ==> i + 17 <= r.index <= PKT_SIZE
    ensures r.Payload? ==> r.startMark == (b[i + 15] == 0x1F)
    ensures r.Payload? && r.startMark ==> r.index + r.pointer <= PKT_SIZE + fragment
  {
    if i > PKT_SIZE - 18 then Rejected(ERR_DATA)
    else if b[i..i + 15] != UL_KEY || (b[i + 15] != 0x0F && b[i + 15] != 0x1F) then Rejected(ERR_UL)
    else
      var startMark := (b[i + 15] / 16) % 2 == 1;
      var length := b[i + 16];
      if length > 127 && length != 0x81 then Rejected(ERR_KLVA_SIZE)
      else
        var j := if length > 127 then i + 18 else i + 17;
        var value := if length > 127 then b[i + 17] else length;
        if value > 188 then Rejected(ERR_KLVA_PAYLOAD)
        else PointerField(b, j, startMark, fragment)
  }

  function PesEnvelope(b: seq<byte>, head: PesHead): (r: Env)
    requires |b| == PKT_SIZE
    ensures r.Payload? ==> head.PesHead? && head.index + 17 <= r.index <= PKT_SIZE
    ensures r.Payload? && r.startMark ==> r.index + r.pointer <= PKT_SIZE + head.fragment
  {
    match head
    case PesRejected(e) => Rejected(e)
    case PesHead(i, pesSync, fragment) =>
      if !pesSync then Klv(b, i, fragment)
      else match AuHeader(b, i)
        case AuRejected(e) => Rejected(e)
        case AuHead(j) => Klv(b, j, fragment)
  }

  /** Lines 67-209: the checks on the outer packet and where its inner data starts. */
  function OpenEnvelope(b: seq<byte>): (r: Env)
    requires |b| == PKT_SIZE
    ensures r.Payload? ==> !Tei(b) && IsClear(b) && HasPayload(b)
    ensures (Tei(b) || !IsClear(b) || !HasPayload(b)) ==> r == Rejected(ERR_INCORRECT)
    ensures r.Payload? ==> HeaderSize(b) <= r.index <= PKT_SIZE
    ensures r.Payload? && !PesStart(b) ==> r.startMark == Pusi(b)
    ensures r.Payload? && !PesStart(b) && r.startMark ==> r.index + r.pointer <= PKT_SIZE
    ensures r.Payload? && !r.startMark ==> r.pointer == 0
  {
    if Tei(b) || !IsClear(b) || !HasPayload(b) then Rejected(ERR_INCORRECT)
    else if PesStart(b) then PesEnvelope(b, PesHeader(b, HeaderSize(b)))
    else PointerField(b, HeaderSize(b), Pusi(b), 0)
  }

  /** OpenEnvelope as the code reads the packet; None stands for a read outside the packet. */
  function OpenEnvelopeAsWritten(b: seq<byte>): (r: Option<Env>)
    requires |b| == PKT_SIZE
    ensures r.Some? ==> r.value == OpenEnvelope(b)
  {
    if Tei(b) || !IsClear(b) || !HasPayload(b) then Some(Rejected(ERR_INCORRECT))
    else if !PesStart(b) then Some(PointerField(b, HeaderSize(b), Pusi(b), 0))
    else match PesHeader(b, HeaderSize(b))
      case PesRejected(e) => Some(Rejected(e))
      case PesHead(i, pesSync, fragment) =>
        if !pesSync then Some(Klv(b, i, fragment))
        else match AuHeaderAsWritten(b, i)
          case None => None
          case Some(AuRejected(e)) => Some(Rejected(e))
          case Some(AuHead(j)) => Some(Klv(b, j, fragment))
  }

  // The decapsulator state machine.

  datatype State = State(pidInput: nat, synchronized: bool, ccInput: nat, nextIndex: nat, nextPacket: seq<byte>, lastError: string)

  /** The state invariant: the next inner packet has its sync byte and at most 186 bytes after it. */
  predicate Good(st: State)
  {
    && |st.nextPacket| == PKT_SIZE && st.nextPacket[0] == SYNC_BYTE && 1 <= st.nextIndex < PKT_SIZE && st.ccInput < 16
    && (!st.synchronized ==> st.nextIndex == 1)
  }

  /** The inner bytes gathered so far, after the sync byte of the next inner packet. */
  function Collected(st: State): seq<byte>
    requires Good(st)
  {
    st.nextPacket[1..st.nextIndex]
  }

  /** Whether the call succeeded, the packet handed back and the new state. */
  datatype Outcome = Outcome(ok: bool, packet: seq<byte>, state: State)

  /** lostSync(error), lines 40-46. */
  function Desynchronized(st: State, error: string): (r: State)
    ensures !r.synchronized && r.nextIndex == 1 && r.lastError == error
    ensures r.pidInput == st.pidInput && r.ccInput == st.ccInput && r.nextPacket == st.nextPacket
  {
    st.(synchronized := false, nextIndex := 1, lastError := error)
  }

  /** lostSync(pkt, error), lines 48-52. */
  function Lose(st: State, error: string): Outcome
  {
    Outcome(false, NULL_PACKET, Desynchronized(st, error))
  }

  /** Lines 212-217: a gap in the continuity counter loses the synchronization. */
  function CheckCc(st: State, b: seq<byte>): (r: State)
    requires |b| == PKT_SIZE
    ensures r.ccInput == Cc(b) && r.pidInput == st.pidInput && r.nextPacket == st.nextPacket
    ensures st.synchronized && Cc(b) == (st.ccInput + 1) % 16 ==> r == st.(ccInput := Cc(b))
    ensures st.synchronized && Cc(b) != (st.ccInput + 1) % 16 ==> r == Desynchronized(st, ERR_DISCONTINUITY).(ccInput := Cc(b))
    ensures !st.synchronized ==> r == st.(ccInput := Cc(b))
  {
    var st1 := if st.synchronized && Cc(b) != (st.ccInput + 1) % 16 then Desynchronized(st, ERR_DISCONTINUITY) else st;
    st1.(ccInput := Cc(b))
  }

  /** Lines 234-256: append the inner bytes from index, handing back the inner packet once full. */
  function Copy(st: State, b: seq<byte>, index: nat): (r: Outcome)
    requires Good(st) && st.synchronized && |b| == PKT_SIZE && 1 <= index <= PKT_SIZE
    ensures Good(r.state) && r.ok && |r.packet| == PKT_SIZE
    ensures r.state.pidInput == st.pidInput && r.state.synchronized == st.synchronized
    ensures r.state.ccInput == st.ccInput && r.state.lastError == st.lastError
  {
    var size := Min(PKT_SIZE - index, PKT_SIZE - st.nextIndex);
    var filled := Memory.Spliced(st.nextPacket, st.nextIndex, b[index..index + size]);
    if st.nextIndex + size == PKT_SIZE then
      var rest := b[index + size..];
      Outcome(true, filled, st.(nextPacket := Memory.Spliced(filled, 1, rest), nextIndex := 1 + |rest|))
    else
      Outcome(true, NULL_PACKET, st.(nextPacket := filled, nextIndex := st.nextIndex + size))
  }

  /** Lines 211-256, once the envelope is accepted. */
  function Continue(st: State, b: seq<byte>, index: nat, startMark: bool, pointer: nat): (r: Outcome)
    requires Good(st) && |b| == PKT_SIZE && 4 <= index <= PKT_SIZE
    ensures Good(r.state) && |r.packet| == PKT_SIZE && r.state.pidInput == st.pidInput
    ensures !r.ok ==> r == Lose(CheckCc(st, b), ERR_POINTER)
  {
    var st1 := CheckCc(st, b);
    if st1.synchronized then Copy(st1, b, index)
    else if !startMark then Outcome(true, NULL_PACKET, st1)
    else if index + pointer > PKT_SIZE then Lose(st1, ERR_POINTER)
    else Copy(st1.(synchronized := true), b, index + pointer)
  }

  /** processPacket, lines 59-259. */
  function Process(st: State, b: seq<byte>): (r: Outcome)
    requires Good(st) && |b| == PKT_SIZE
    ensures Good(r.state) && |r.packet| == PKT_SIZE && r.state.pidInput == st.pidInput
    ensures st.pidInput == PID_NULL || Pid(b) != st.pidInput ==> r == Outcome(true, b, st)
    ensures st.pidInput != PID_NULL && Pid(b) == st.pidInput && (Tei(b) || !IsClear(b) || !HasPayload(b)) ==>
              r == Lose(st, ERR_INCORRECT)
    ensures !r.ok ==> r.packet == NULL_PACKET && !r.state.synchronized && r.state.nextIndex == 1
  {
    if st.pidInput == PID_NULL || Pid(b) != st.pidInput then Outcome(true, b, st)
    else match OpenEnvelope(b)
      case Rejected(e) => Lose(st, e)
      case Payload(index, startMark, pointer) => Continue(st, b, index, startMark, pointer)
  }

  /**
   * processPacket as written: None stands for a packet on which the code reads
   * outside the packet, in the AU header check or in the copy after a resync
   * whose pointer field leads past the end of the packet.
   */
  function ProcessAsWritten(st: State, b: seq<byte>): (r: Option<Outcome>)
    requires Good(st) && |b| == PKT_SIZE
    ensures r.Some? ==> r.value == Process(st, b)
  {
    if st.pidInput == PID_NULL || Pid(b) != st.pidInput then Some(Outcome(true, b, st))
    else match OpenEnvelopeAsWritten(b)
      case None => None
      case Some(Rejected(e)) => Some(Lose(st, e))
      case Some(Payload(index, startMark, pointer)) =>
        if !CheckCc(st, b).synchronized && startMark && index + pointer > PKT_SIZE then None
        else Some(Continue(st, b, index, startMark, pointer))
  }

  // Properties of the state machine.

  /** Below a full inner packet, the bytes are only gathered. */
  lemma {:induction false} CopyGathers(st: State, b: seq<byte>, index: nat)
    requires Good(st) && st.synchronized && |b| == PKT_SIZE && 1 <= index <= PKT_SIZE
    requires |Collected(st)| + (PKT_SIZE - index) < PKT_SIZE - 1
    ensures Copy(st, b, index).packet == NULL_PACKET
    ensures Collected(Copy(st, b, index).state) == Collected(st) + b[index..]
  {
    var size := PKT_SIZE - index;
    var w := b[index..index + size];
    assert w == b[index..];
    var filled := Memory.Spliced(st.nextPacket, st.nextIndex, w);
    assert filled[1..st.nextIndex + size] == st.nextPacket[1..st.nextIndex] + w;
  }

  /**
   * Once 187 bytes are gathered, the inner packet is handed back: the sync byte
   * followed by the first 187 bytes, and the rest starts the next inner packet.
   */
  lemma {:induction false} CopyEmits(st: State, b: seq<byte>, index: nat)
    requires Good(st) && st.synchronized && |b| == PKT_SIZE && 1 <= index <= PKT_SIZE
    requires |Collected(st)| + (PKT_SIZE - index) >= PKT_SIZE - 1
    ensures Copy(st, b, index).packet == [SYNC_BYTE] + (Collected(st) + b[index..])[..PKT_SIZE - 1]
    ensures Collected(Copy(st, b, index).state) == (Collected(st) + b[index..])[PKT_SIZE - 1..]
  {
    var all := Collected(st) + b[index..];
    var size := PKT_SIZE - st.nextIndex;
    var w := b[index..index + size];
    var filled := Memory.Spliced(st.nextPacket, st.nextIndex, w);
    assert all[..PKT_SIZE - 1] == Collected(st) + w;
    assert filled == [st.nextPacket[0]] + (Collected(st) + w);
    var rest := b[index + size..];
    assert rest == all[PKT_SIZE - 1..];
    var next := Memory.Spliced(filled, 1, rest);
    assert next[1..1 + |rest|] == rest;
  }

  /** Lines 212-217: a packet after a gap is handled as if the decapsulator had lost sync just before it. */
  lemma DiscontinuityLosesSync(st: State, b: seq<byte>)
    requires Good(st) && |b| == PKT_SIZE && st.pidInput != PID_NULL && Pid(b) == st.pidInput
    requires st.synchronized && Cc(b) != (st.ccInput + 1) % 16
    requires OpenEnvelope(b).Payload?
    ensures Process(st, b) == Process(Desynchronized(st, ERR_DISCONTINUITY), b)
  {
  }

  /** Lines 220-231: out of sync and with no start mark, nothing is extracted and the call succeeds. */
  lemma {:induction false} NoStartMarkGivesNull(st: State, b: seq<byte>)
    requires Good(st) && |b| == PKT_SIZE && st.pidInput != PID_NULL && Pid(b) == st.pidInput
    requires !CheckCc(st, b).synchronized
    requires OpenEnvelope(b).Payload? && !OpenEnvelope(b).startMark
    ensures Process(st, b) == Outcome(true, NULL_PACKET, CheckCc(st, b))
  {
  }

  /** Lines 220-225: a start mark resynchronizes, and the inner data resumes after the pointer field. */
  lemma {:induction false} StartMarkResyncs(st: State, b: seq<byte>)
    requires Good(st) && |b| == PKT_SIZE && st.pidInput != PID_NULL && Pid(b) == st.pidInput
    requires !CheckCc(st, b).synchronized
    requires OpenEnvelope(b).Payload? && OpenEnvelope(b).startMark
    requires OpenEnvelope(b).index + OpenEnvelope(b).pointer <= PKT_SIZE
    ensures Process(st, b).state.synchronized
    ensures Collected(CheckCc(st, b).(synchronized := true)) == []
    ensures Process(st, b) == Copy(CheckCc(st, b).(synchronized := true), b, OpenEnvelope(b).index + OpenEnvelope(b).pointer)
  {
  }

  /** While in sync with no gap, the whole inner data after the envelope is appended. */
  lemma {:induction false} InSyncAppends(st: State, b: seq<byte>)
    requires Good(st) && |b| == PKT_SIZE && st.pidInput != PID_NULL && Pid(b) == st.pidInput
    requires st.synchronized && Cc(b) == (st.ccInput + 1) % 16
    requires OpenEnvelope(b).Payload?
    ensures Process(st, b) == Copy(st.(ccInput := Cc(b)), b, OpenEnvelope(b).index)
    ensures Process(st, b).state.synchronized
  {
  }

  // The two places where the code reads outside the packet.

  /** A packet whose SYNC PES envelope puts the AU header at the last byte of the packet. */
  const AU_OUTSIDE: seq<byte> :=
    [0x47, 0x41, 0x00, 0x30, 173] + Stuffing(173) + [0x00, 0x00, 0x01, 0xFC, 0x00, 18, 0x80, 0x80, 0x00, 0x00]

  /** The AU header check at lines 134-142 reads byte 189 of AU_OUTSIDE. */
  lemma AuHeaderReadsOutside()
    ensures |AU_OUTSIDE| == PKT_SIZE
    ensures OpenEnvelopeAsWritten(AU_OUTSIDE) == None
    ensures OpenEnvelope(AU_OUTSIDE) == Rejected(ERR_AU_HEADER)
  {
    var b := AU_OUTSIDE;
    assert b[3] == 0x30 && b[4] == 173;
    assert HeaderSize(b) == 178;
    assert b[178] == 0 && b[179] == 0 && b[180] == 1 && b[181] == 0xFC;
    assert b[182] == 0 && b[183] == 18 && b[184] == 0x80 && b[185] == 0x80 && b[186] == 0 && b[187] == 0;
    assert PesHeader(b, 178) == PesHead(187, true, 0);
  }

  /** A plain-start ASYNC PES envelope, one optional header byte, and a pointer field of 157. */
  const POINTER_OUTSIDE: seq<byte> :=
    [0x47, 0x41, 0x00, 0x10, 0x00, 0x00, 0x01, 0xBD, 0x00, 18, 0x80, 0x80, 1, 0x00]
    + UL_KEY + [0x1F, 0x00, 157] + Stuffing(156)

  /** The decapsulator just created for PID 0x100. */
  const FRESH_STATE: State := State(0x100, false, 0, 1, NULL_PACKET, "")

  /** The resync at lines 222-223 moves to byte 189, so the copy at line 237 reads outside the packet. */
  lemma PointerLeadsOutside()
    ensures |POINTER_OUTSIDE| == PKT_SIZE && Good(FRESH_STATE)
    ensures ProcessAsWritten(FRESH_STATE, POINTER_OUTSIDE) == None
    ensures Process(FRESH_STATE, POINTER_OUTSIDE) == Lose(FRESH_STATE.(ccInput := 0), ERR_POINTER)
  {
    var b := POINTER_OUTSIDE;
    assert b[1] == 0x41 && b[2] == 0 && b[3] == 0x10;
    assert HeaderSize(b) == 4 && PesStart(b);
    assert b[7] == 0xBD && b[8] == 0 && b[9] == 18 && b[10] == 0x80 && b[11] == 0x80 && b[12] == 1;
    assert PesHeader(b, 4) == PesHead(14, false, 1);
    assert b[14..29] == UL_KEY && b[29] == 0x1F && b[30] == 0 && b[31] == 157;
    assert Klv(b, 14, 1) == Payload(32, true, 157);
  }

  /** Replaces the content of a packet buffer. */
  method SetPacket(pkt: array<byte>, content: seq<byte>)
    requires pkt.Length == |content|
    modifies pkt
    ensures pkt[..] == content
  {
    forall i | 0 <= i < pkt.Length {
      pkt[i] := content[i];
    }
  }

  class PacketDecapsulation {
    var pidInput: nat
    var synchronized: bool
    var ccInput: nat
    var nextIndex: nat
    const nextPacket: array<byte>
    var lastError: string

    function Current(): State
      reads this, nextPacket
    {
      State(pidInput, synchronized, ccInput, nextIndex, nextPacket[..], lastError)
    }

    predicate Valid()
      reads this, nextPacket
    {
      nextPacket.Length == PKT_SIZE && Good(Current())
    }

    /** A decapsulator for pid, out of sync, with an empty next inner packet. */
    constructor (pid: nat)
      ensures Valid() && fresh(nextPacket)
      ensures Current() == State(pid, false, 0, 1, NULL_PACKET, "")
    {
      pidInput := pid;
      synchronized := false;
      ccInput := 0;
      nextIndex := 1;
      lastError := "";
      nextPacket := new byte[PKT_SIZE];
      new;
      SetPacket(nextPacket, NULL_PACKET);
    }

    /** reset(pid), lines 27-33. */
    method Reset(pid: nat)
      requires Valid()
      modifies this
      ensures Valid()
      ensures Current() == old(Current()).(pidInput := pid, synchronized := false, nextIndex := 1, lastError := "")
    {
      pidInput := pid;
      synchronized := false;
      nextIndex := 1;
      lastError := "";
    }

    /** lostSync(error), lines 40-46. */
    method LostSync(error: string) returns (r: bool)
      requires Valid()
      modifies this
      ensures Valid() && !r
      ensures Current() == Desynchronized(old(Current()), error)
    {
      synchronized := false;
      nextIndex := 1;
      lastError := error;
      return false;
    }

    /** lostSync(pkt, error), lines 48-52. */
    method LostSyncPacket(pkt: array<byte>, error: string) returns (r: bool)
      requires Valid() && pkt.Length == PKT_SIZE && pkt != nextPacket
      modifies this, pkt
      ensures Valid()
      ensures Outcome(r, pkt[..], Current()) == Lose(old(Current()), error)
    {
      SetPacket(pkt, NULL_PACKET);
      r := LostSync(error);
    }

    /** Lines 243-249: the full next packet is handed back and rest starts the one after it. */
    method EmitNext(pkt: array<byte>, rest: seq<byte>)
      requires nextPacket.Length == PKT_SIZE && pkt.Length == PKT_SIZE && pkt != nextPacket
      requires 1 + |rest| <= PKT_SIZE
      modifies this`nextIndex, nextPacket, pkt
      ensures pkt[..] == old(nextPacket[..])
      ensures nextPacket[..] == Memory.Spliced(old(nextPacket[..]), 1, rest)
      ensures nextIndex == 1 + |rest|
    {
      SetPacket(pkt, nextPacket[..]);
      Memory.MemCopy(nextPacket, 1, rest);
      nextIndex := 1 + |rest|;
    }

    /** Lines 234-256. */
    method CopyData(pkt: array<byte>, b: seq<byte>, index: nat) returns (ok: bool)
      requires Valid() && pkt.Length == PKT_SIZE && pkt != nextPacket
      requires synchronized && |b| == PKT_SIZE && 1 <= index <= PKT_SIZE
      modifies this, nextPacket, pkt
      ensures Valid()
      ensures Outcome(ok, pkt[..], Current()) == Copy(old(Current()), b, index)
    {
      ghost var st := Current();
      var size := Min(PKT_SIZE - index, PKT_SIZE - nextIndex);
      Memory.MemCopy(nextPacket, nextIndex, b[index..index + size]);
      ghost var filled := nextPacket[..];
      var i := index + size;
      nextIndex := nextIndex + size;
      if nextIndex == PKT_SIZE {
        size := PKT_SIZE - i;
        var rest := b[i..i + size];
        assert rest == b[index + (PKT_SIZE - st.nextIndex)..];
        EmitNext(pkt, rest);
        assert Current() == st.(nextPacket := Memory.Spliced(filled, 1, rest), nextIndex := 1 + |rest|);
        assert Copy(st, b, index) == Outcome(true, filled, Current());
      } else {
        SetPacket(pkt, NULL_PACKET);
        assert Current() == st.(nextPacket := filled, nextIndex := nextIndex);
        assert Copy(st, b, index) == Outcome(true, NULL_PACKET, Current());
      }
      ok := true;
    }

    /** Lines 211-256, once the envelope is accepted. */
    method ContinueData(pkt: array<byte>, b: seq<byte>, index: nat, startMark: bool, pointer: nat) returns (ok: bool)
      requires Valid() && pkt.Length == PKT_SIZE && pkt != nextPacket
      requires |b| == PKT_SIZE && 4 <= index <= PKT_SIZE
      modifies this, nextPacket, pkt
      ensures Valid()
      ensures Outcome(ok, pkt[..], Current()) == Continue(old(Current()), b, index, startMark, pointer)
    {
      var cc := Cc(b);
      if synchronized && cc != (ccInput + 1) % 16 {
        var dropped := LostSync(ERR_DISCONTINUITY);
      }
      ccInput := cc;
      assert Current() == CheckCc(old(Current()), b);
      if synchronized {
        ok := CopyData(pkt, b, index);
      } else if !startMark {
        SetPacket(pkt, NULL_PACKET);
        ok := true;
      } else if index + pointer > PKT_SIZE {
        ok := LostSyncPacket(pkt, ERR_POINTER);
      } else {
        synchronized := true;
        ok := CopyData(pkt, b, index + pointer);
      }
    }

    /** processPacket(pkt), lines 59-259: pkt is rewritten in place. */
    method ProcessPacket(pkt: array<byte>) returns (ok: bool)
      requires Valid() && pkt.Length == PKT_SIZE && pkt != nextPacket
      modifies this, nextPacket, pkt
      ensures Valid()
      ensures Outcome(ok, pkt[..], Current()) == Process(old(Current()), old(pkt[..]))
    {
      var b := pkt[..];
      if pidInput == PID_NULL || Pid(b) != pidInput {
        return true;
      }
      var env := OpenEnvelope(b);
      if env.Rejected? {
        ok := LostSyncPacket(pkt, env.error);
      } else {
        ok := ContinueData(pkt, b, env.index, env.startMark, env.pointer);
      }
    }
  }
}
