/**
 * DVB dates (Annex C of ETSI EN 300 468): a 16-bit Modified Julian Date,
 * followed in the full format by hours, minutes and seconds in BCD.
 * Times are integer milliseconds since the Time epoch; the distance from
 * that epoch to the MJD origin (17 Nov 1858) and the value of the Unix epoch
 * are parameters.
 */
module MJD {
  import opened Bytes
  import opened Wrappers
  import Memory

  const MJD_FULL: int := 5
  const MJD_DATE: int := 2

  /** Time::JulianEpochOffset (MJD origin minus Time epoch) and Time::UnixEpoch, in milliseconds. */
  datatype Epochs = Epochs(julianEpochOffset: int, unixEpoch: int)

  /** MJDSize(): the size of the encoded form, the format value modulo 10. */
  function MJDSize(fmt: int): nat
  {
    fmt % 10
  }

  predicate KnownFormat(fmt: int)
  {
    fmt == MJD_DATE || fmt == MJD_FULL
  }

  /** Binary-coded decimal of one byte. */
  predicate IsValidBCD(b: byte)
  {
    b / 16 <= 9 && b % 16 <= 9
  }

  function DecodeBCD(b: byte): nat
  {
    10 * (b / 16) + b % 16
  }

  function EncodeBCD(v: nat): (r: byte)
    requires v < 100
    ensures IsValidBCD(r) && DecodeBCD(r) == v
  {
    (v / 10) * 16 + v % 10
  }

  lemma {:induction false} BCDRoundTrip(b: byte)
    requires IsValidBCD(b)
    ensures DecodeBCD(b) < 100 && EncodeBCD(DecodeBCD(b)) == b
  {
    var h, l := b as int / 16, b as int % 16;
    DivModUnique(DecodeBCD(b), 10, h, l);
  }

  /** Division of a by a positive b truncated toward zero, as std::chrono::duration_cast does. */
  function TruncDiv(a: int, b: nat): (r: int)
    requires b > 0
    ensures a >= 0 ==> r * b <= a < r * b + b
    ensures a < 0 ==> r * b - b < a <= r * b
  {
    if a >= 0 then a / b else -((-a) / b)
  }

  /** The day count coded by 16 bits: values below 0x8000 are days after 0xFFFF. */
  function DayOf(raw: nat): (day: nat)
    requires raw < 0x1_0000
    ensures 0x8000 <= day <= 0x1_7FFF && day % 0x1_0000 == raw
  {
    if raw < 0x8000 then raw + 0x1_0000 else raw
  }

  /** Result of DecodeMJD(): the returned flag and the time output parameter. */
  datatype Decoded = Decoded(ok: bool, time: int)

  /** Milliseconds from the MJD origin coded by valid bytes. */
  function MjdMillis(mjd: seq<byte>, fmt: int): nat
    requires KnownFormat(fmt) && MJDSize(fmt) <= |mjd|
  {
    var ms := DayOf(Memory.GetUIntBE(mjd, 2)) * 86_400_000;
    if fmt == MJD_FULL then ms + DecodeBCD(mjd[2]) * 3_600_000 + DecodeBCD(mjd[3]) * 60_000 + DecodeBCD(mjd[4]) * 1000
    else ms
  }

  /** DecodeMJD(). */
  function DecodeMJD(mjd: seq<byte>, fmt: int, e: Epochs): (r: Decoded)
    requires KnownFormat(fmt) ==> MJDSize(fmt) <= |mjd|
    ensures !KnownFormat(fmt) ==> r == Decoded(false, e.unixEpoch)
    ensures fmt == MJD_FULL && !(IsValidBCD(mjd[2]) && IsValidBCD(mjd[3]) && IsValidBCD(mjd[4])) ==>
              r == Decoded(false, e.unixEpoch)
    ensures r.ok ==> r.time >= 0
  {
    if !KnownFormat(fmt) then Decoded(false, e.unixEpoch)
    else if fmt == MJD_FULL && !(IsValidBCD(mjd[2]) && IsValidBCD(mjd[3]) && IsValidBCD(mjd[4])) then
      Decoded(false, e.unixEpoch)
    else
      var ms := MjdMillis(mjd, fmt);
      if e.julianEpochOffset >= 0 || ms >= -e.julianEpochOffset then Decoded(true, ms + e.julianEpochOffset)
      else Decoded(true, 0)
  }

  /** GetUInt16() on the first two bytes. */
  lemma {:induction false} GetUInt16Bytes(p: seq<byte>)
    requires |p| >= 2
    ensures Memory.GetUIntBE(p, 2) == p[0] as int * 256 + p[1] as int
  {
    var q := p[..2];
    assert q[..1] == [p[0]] && q[..1][..0] == [];
    assert BE(q[..1]) == p[0];
  }

  /** Seconds from the Time epoch, truncated like duration_cast<seconds>. */
  function TimeSeconds(time: int): int
  {
    TruncDiv(time, 1000)
  }

  /**
   * Seconds from the MJD origin that EncodeMJD() encodes, `None` when it
   * fails: before the MJD origin, or a day count outside 0x8000..0x17FFF.
   */
  function EncodedSeconds(time: int, e: Epochs): (r: Option<nat>)
    ensures r.Some? ==> 0x8000 <= r.value / 86400 <= 0x1_7FFF
  {
    var timeSec := TimeSeconds(time);
    if timeSec * 1000 < e.julianEpochOffset then None
    else
      var secs := (timeSec * 1000 - e.julianEpochOffset) / 1000;
      var days := secs / 86400;
      if days < 0x8000 || days > 0x1_7FFF then None else Some(secs)
  }

  /** The bytes of a second count: 16 low bits of the days, then hours, minutes and seconds in BCD. */
  function SecondsBytes(secs: nat, fmt: int): (r: seq<byte>)
    requires KnownFormat(fmt)
    ensures |r| == MJDSize(fmt)
  {
    var raw := (secs / 86400) % 0x1_0000;
    var date := [raw / 256, raw % 256];
    if fmt == MJD_FULL then date + [EncodeBCD((secs / 3600) % 24), EncodeBCD((secs / 60) % 60), EncodeBCD(secs % 60)]
    else date
  }

  /** The bytes EncodeMJD() writes when it succeeds. */
  function Encoding(time: int, fmt: int, e: Epochs): (r: Option<seq<byte>>)
    requires KnownFormat(fmt)
    ensures r.Some? ==> |r.value| == MJDSize(fmt)
  {
    var secs := EncodedSeconds(time, e);
    if secs.None? then None else Some(SecondsBytes(secs.value, fmt))
  }

  /** EncodeMJD(): writes the encoding, or zeros when the time cannot be encoded. */
  method EncodeMJD(time: int, mjd: array<byte>, fmt: int, e: Epochs) returns (ok: bool)
    requires KnownFormat(fmt) ==> MJDSize(fmt) <= mjd.Length
    modifies mjd
    ensures !KnownFormat(fmt) ==> !ok && mjd[..] == old(mjd[..])
    ensures KnownFormat(fmt) ==> ok == Encoding(time, fmt, e).Some?
    ensures KnownFormat(fmt) ==>
              mjd[..] == (if ok then Encoding(time, fmt, e).value else seq(MJDSize(fmt), _ => 0)) + old(mjd[MJDSize(fmt)..])
  {
    if !KnownFormat(fmt) {
      return false;
    }
    var timeSec := TruncDiv(time, 1000);
    if timeSec * 1000 < e.julianEpochOffset {
      Memory.MemZero(mjd, 0, MJDSize(fmt));
      return false;
    }
    var secs := (timeSec * 1000 - e.julianEpochOffset) / 1000;
    var days := secs / 86400;
    if days < 0x8000 || days > 0x1_7FFF {
      Memory.MemZero(mjd, 0, MJDSize(fmt));
      return false;
    }
    assert EncodedSeconds(time, e) == Some(secs);
    WriteSeconds(mjd, secs, fmt);
    return true;
  }

  /** The writes of EncodeMJD() once the second count is known. */
  method WriteSeconds(mjd: array<byte>, secs: nat, fmt: int)
    requires KnownFormat(fmt) && MJDSize(fmt) <= mjd.Length
    modifies mjd
    ensures mjd[..] == SecondsBytes(secs, fmt) + old(mjd[MJDSize(fmt)..])
  {
    ghost var bytes := SecondsBytes(secs, fmt);
    var raw := (secs / 86400) % 0x1_0000;
    mjd[0] := raw / 256;
    mjd[1] := raw % 256;
    if fmt == MJD_FULL {
      mjd[2] := EncodeBCD((secs / 3600) % 24);
      mjd[3] := EncodeBCD((secs / 60) % 60);
      mjd[4] := EncodeBCD(secs % 60);
    }
    forall i | 0 <= i < mjd.Length
      ensures mjd[i] == (bytes + old(mjd[MJDSize(fmt)..]))[i]
    {
    }
  }

  /** The day count coded by the bytes of a second count. */
  lemma {:induction false} SecondsBytesDay(secs: nat, fmt: int)
    requires KnownFormat(fmt) && 0x8000 <= secs / 86400 <= 0x1_7FFF
    ensures DayOf(Memory.GetUIntBE(SecondsBytes(secs, fmt), 2)) == secs / 86400
  {
    var b := SecondsBytes(secs, fmt);
    var d := secs / 86400;
    var raw := d % 0x1_0000;
    GetUInt16Bytes(b);
    DivModUnique(raw, 256, raw / 256, raw % 256);
    assert Memory.GetUIntBE(b, 2) == raw;
    if d >= 0x1_0000 {
      DivModUnique(d, 0x1_0000, 1, d - 0x1_0000);
    } else {
      DivModUnique(d, 0x1_0000, 0, d);
    }
  }

  /** The milliseconds coded by the bytes of a second count: all of it, or its whole days. */
  lemma {:induction false} SecondsBytesMillis(secs: nat, fmt: int)
    requires KnownFormat(fmt) && 0x8000 <= secs / 86400 <= 0x1_7FFF
    ensures MjdMillis(SecondsBytes(secs, fmt), fmt) == if fmt == MJD_FULL then secs * 1000 else secs / 86400 * 86_400_000
  {
    var b := SecondsBytes(secs, fmt);
    SecondsBytesDay(secs, fmt);
    if fmt == MJD_FULL {
      assert DecodeBCD(b[2]) == (secs / 3600) % 24 && DecodeBCD(b[3]) == (secs / 60) % 60 && DecodeBCD(b[4]) == secs % 60;
      ClockSplit(secs);
      Millis(secs, secs / 86400, (secs / 3600) % 24, (secs / 60) % 60, secs % 60);
    }
  }

  lemma {:induction false} Millis(secs: nat, days: nat, h: nat, m: nat, s: nat)
    requires secs == days * 86400 + h * 3600 + m * 60 + s
    ensures days * 86_400_000 + h * 3_600_000 + m * 60_000 + s * 1000 == secs * 1000
  {
  }

  /**
   * Decoding an encoded time, with an epoch offset in whole days and a time
   * not before the Time epoch, gives the time truncated to seconds (full
   * format) or to whole days from the MJD origin (date only).
   */
  lemma {:induction false} EncodeDecode(time: int, fmt: int, e: Epochs)
    requires KnownFormat(fmt) && time >= 0 && e.julianEpochOffset % 86_400_000 == 0
    requires Encoding(time, fmt, e).Some?
    ensures var secs := time / 1000 - e.julianEpochOffset / 1000;
            DecodeMJD(Encoding(time, fmt, e).value, fmt, e) ==
              Decoded(true, if fmt == MJD_FULL then time / 1000 * 1000
                            else secs / 86400 * 86_400_000 + e.julianEpochOffset)
  {
    WholeDays(e.julianEpochOffset);
    var secs := EncodedSecondsOf(time, e);
    DecodeSecondsBytes(secs, fmt, e);
    if fmt == MJD_FULL {
      WholeSeconds(time, e.julianEpochOffset, secs);
    }
  }

  lemma {:induction false} WholeDays(jeo: int)
    requires jeo % 86_400_000 == 0
    ensures jeo % 1000 == 0
  {
    var d := jeo / 86_400_000;
    assert jeo == (d * 86400) * 1000;
  }

  lemma {:induction false} WholeSeconds(time: int, jeo: int, secs: int)
    requires jeo % 1000 == 0 && secs == time / 1000 - jeo / 1000
    ensures secs * 1000 + jeo == time / 1000 * 1000
  {
    assert jeo == jeo / 1000 * 1000;
  }

  /** The second count EncodeMJD() encodes, for a time not before the Time epoch. */
  lemma {:induction false} EncodedSecondsOf(time: int, e: Epochs) returns (secs: nat)
    requires time >= 0 && e.julianEpochOffset % 1000 == 0 && EncodedSeconds(time, e).Some?
    ensures EncodedSeconds(time, e) == Some(secs)
    ensures secs == time / 1000 - e.julianEpochOffset / 1000 && secs >= -(e.julianEpochOffset / 1000)
  {
    var jeo := e.julianEpochOffset;
    var timeSec := time / 1000;
    var jsec := jeo / 1000;
    assert jeo == jsec * 1000;
    assert timeSec * 1000 - jeo == (timeSec - jsec) * 1000;
    secs := (timeSec * 1000 - jeo) / 1000;
  }

  /** Decoding the bytes of a second count not before the Time epoch. */
  lemma {:induction false} DecodeSecondsBytes(secs: nat, fmt: int, e: Epochs)
    requires KnownFormat(fmt) && 0x8000 <= secs / 86400 <= 0x1_7FFF
    requires e.julianEpochOffset % 86_400_000 == 0 && secs >= -(e.julianEpochOffset / 1000)
    ensures DecodeMJD(SecondsBytes(secs, fmt), fmt, e) ==
              Decoded(true, (if fmt == MJD_FULL then secs * 1000 else secs / 86400 * 86_400_000) + e.julianEpochOffset)
  {
    var b := SecondsBytes(secs, fmt);
    SecondsBytesMillis(secs, fmt);
    NotBeforeEpoch(secs, e.julianEpochOffset, fmt);
    if fmt == MJD_FULL {
      assert IsValidBCD(b[2]) && IsValidBCD(b[3]) && IsValidBCD(b[4]);
    }
  }

  /** A second count not before the Time epoch stays so when truncated to whole days. */
  lemma {:induction false} NotBeforeEpoch(secs: nat, jeo: int, fmt: int)
    requires jeo % 86_400_000 == 0 && secs >= -(jeo / 1000)
    ensures (if fmt == MJD_FULL then secs * 1000 else secs / 86400 * 86_400_000) + jeo >= 0
  {
    var d := jeo / 86_400_000;
    assert jeo == d * 86_400_000;
    assert jeo / 1000 == d * 86400;
    DivFloor(secs, -d);
  }

  lemma {:induction false} DivFloor(secs: int, d: int)
    requires secs >= d * 86400
    ensures secs / 86400 >= d
  {
  }

  /** A second count is its days, hours, minutes and seconds. */
  lemma {:induction false} ClockSplit(secs: nat)
    ensures secs == (secs / 86400) * 86400 + ((secs / 3600) % 24) * 3600 + ((secs / 60) % 60) * 60 + secs % 60
  {
    var a, sec := secs / 60, secs % 60;
    var b, min := a / 60, a % 60;
    var c, hour := b / 24, b % 24;
    DivModUnique(secs, 3600, b, 60 * min + sec);
    DivModUnique(secs, 86400, c, 3600 * hour + 60 * min + sec);
  }

  /**
   * Encoding a decoded full date whose fields are in range, when the
   * result is not before the Time epoch and the epoch offset is in whole
   * seconds, gives the same bytes back.
   */
  lemma {:induction false} DecodeEncode(mjd: seq<byte>, e: Epochs)
    requires |mjd| == 5 && IsValidBCD(mjd[2]) && IsValidBCD(mjd[3]) && IsValidBCD(mjd[4])
    requires DecodeBCD(mjd[2]) < 24 && DecodeBCD(mjd[3]) < 60 && DecodeBCD(mjd[4]) < 60
    requires e.julianEpochOffset % 1000 == 0
    requires MjdMillis(mjd, MJD_FULL) + e.julianEpochOffset >= 0
    ensures DecodeMJD(mjd, MJD_FULL, e).ok
    ensures Encoding(DecodeMJD(mjd, MJD_FULL, e).time, MJD_FULL, e) == Some(mjd)
  {
    var jeo := e.julianEpochOffset;
    var jsec := jeo / 1000;
    assert jeo == jsec * 1000;
    GetUInt16Bytes(mjd);
    var raw := mjd[0] as int * 256 + mjd[1] as int;
    var day := DayOf(raw);
    var h, m, s := DecodeBCD(mjd[2]), DecodeBCD(mjd[3]), DecodeBCD(mjd[4]);
    var secs := day * 86400 + h * 3600 + m * 60 + s;
    assert MjdMillis(mjd, MJD_FULL) == secs * 1000;
    var t := DecodeMJD(mjd, MJD_FULL, e).time;
    assert t == (secs + jsec) * 1000;
    assert TimeSeconds(t) == secs + jsec;
    assert (TimeSeconds(t) * 1000 - jeo) / 1000 == secs;
    ClockFields(day, h, m, s);
    assert EncodedSeconds(t, e) == Some(secs);
    FieldsBytes(mjd, raw, secs);
  }

  /** Bytes whose fields are those of a second count are the bytes of that count. */
  lemma {:induction false} FieldsBytes(mjd: seq<byte>, raw: nat, secs: nat)
    requires |mjd| == 5 && IsValidBCD(mjd[2]) && IsValidBCD(mjd[3]) && IsValidBCD(mjd[4])
    requires raw == mjd[0] as int * 256 + mjd[1] as int && (secs / 86400) % 0x1_0000 == raw
    requires (secs / 3600) % 24 == DecodeBCD(mjd[2]) && (secs / 60) % 60 == DecodeBCD(mjd[3]) && secs % 60 == DecodeBCD(mjd[4])
    ensures SecondsBytes(secs, MJD_FULL) == mjd
  {
    BCDRoundTrip(mjd[2]);
    BCDRoundTrip(mjd[3]);
    BCDRoundTrip(mjd[4]);
    DivModUnique(raw, 256, mjd[0] as int, mjd[1] as int);
    var b := SecondsBytes(secs, MJD_FULL);
    assert b[0] == mjd[0] && b[1] == mjd[1] && b[2] == mjd[2] && b[3] == mjd[3] && b[4] == mjd[4];
  }

  /** Days, hours, minutes and seconds in range are read back from their second count. */
  lemma {:induction false} ClockFields(day: nat, h: nat, m: nat, s: nat)
    requires h < 24 && m < 60 && s < 60
    ensures var secs := day * 86400 + h * 3600 + m * 60 + s;
            secs / 86400 == day && (secs / 3600) % 24 == h && (secs / 60) % 60 == m && secs % 60 == s
  {
    var secs := day * 86400 + h * 3600 + m * 60 + s;
    DivModUnique(secs, 60, day * 1440 + h * 60 + m, s);
    DivModUnique(day * 1440 + h * 60 + m, 60, day * 24 + h, m);
    DivModUnique(secs, 3600, day * 24 + h, m * 60 + s);
    DivModUnique(day * 24 + h, 24, day, h);
    DivModUnique(secs, 86400, day, h * 3600 + m * 60 + s);
  }
}
