/**
 * The TSDuck execution context (tsDuckContext.cpp): the standards seen so
 * far, the default private data specifier, and the non-standard time
 * reference, an offset from UTC in milliseconds used to interpret local
 * times (UTC, JST = UTC+9, or UTC+h:mm / UTC-h:mm).
 */
module DuckContexts {
  import opened Wrappers
  import Bytes

  /** The Standards enumeration is a bit mask. */
  type Standards = bv16
  const NONE: Standards := 0

  type uint32 = x: nat | x < 0x1_0000_0000
  const PDS_NULL: uint32 := 0xFFFF_FFFF
  const CASID_NULL: nat := 0xFFFF

  const MS_PER_MINUTE: int := 60_000
  /** Japan Standard Time is UTC+9. */
  const JST_OFFSET: int := 9 * 60 * MS_PER_MINUTE
  /** The largest offset setTimeReference() accepts: 12 hours 59 minutes. */
  const MAX_OFFSET_MINUTES: nat := 12 * 60 + 59

  /** A PDS that designates an actual specifier: neither 0 nor PDS_NULL. */
  predicate GoodPds(p: uint32) { p != 0 && p != PDS_NULL }

  // ---------------------------------------------------------------------
  // Characters and decimal numbers
  // ---------------------------------------------------------------------

  const NUL: char := 0 as char

  predicate IsLower(c: char) { 'a' <= c <= 'z' }

  function UpperChar(c: char): (r: char)
    ensures !IsLower(r)
    ensures !IsLower(c) ==> r == c
  {
    if IsLower(c) then (c as int - 'a' as int + 'A' as int) as char else c
  }

  /** convertToUpper() followed by remove(SPACE). */
  function Normalize(name: string): (r: string)
    ensures forall i :: 0 <= i < |r| ==> r[i] != ' ' && !IsLower(r[i])
  {
    if name == [] then []
    else if name[0] == ' ' then Normalize(name[1..])
    else [UpperChar(name[0])] + Normalize(name[1..])
  }

  /** Normalising works character by character: a space is dropped, any other character upper-cased. */
  lemma {:induction false} NormalizeAppend(x: string, y: string)
    ensures Normalize(x + y) == Normalize(x) + Normalize(y)
    ensures |x| == 1 ==> Normalize(x) == if x[0] == ' ' then [] else [UpperChar(x[0])]
  {
    if x != [] {
      assert (x + y)[1..] == x[1..] + y;
      NormalizeAppend(x[1..], y);
      if |x| == 1 {
        assert x[1..] == [];
      }
    } else {
      assert x + y == y;
    }
  }

  /** The blanks that UString::similar() ignores: space, tab, line feed, vertical tab, form feed, carriage return. */
  predicate IsBlank(c: char) { c == ' ' || 9 <= c as int <= 13 }

  /** The comparison form of similar(): every blank dropped, the other characters upper-cased. */
  function Fold(s: string): (r: string)
    ensures forall i :: 0 <= i < |r| ==> !IsBlank(r[i]) && !IsLower(r[i])
  {
    if s == [] then []
    else if IsBlank(s[0]) then Fold(s[1..])
    else [UpperChar(s[0])] + Fold(s[1..])
  }

  /** UString::similar(): equal when compared without blanks and ignoring case. */
  predicate Similar(a: string, b: string) { Fold(a) == Fold(b) }

  lemma {:induction false} FoldAppend(x: string, y: string)
    ensures Fold(x + y) == Fold(x) + Fold(y)
  {
    if x != [] {
      assert (x + y)[1..] == x[1..] + y;
      FoldAppend(x[1..], y);
    } else {
      assert x + y == y;
    }
  }

  /** A string without blanks or lower-case letters is its own comparison form. */
  lemma {:induction false} FoldClean(s: string)
    requires forall i :: 0 <= i < |s| ==> !IsBlank(s[i]) && !IsLower(s[i])
    ensures Fold(s) == s
  {
    if s != [] {
      FoldClean(s[1..]);
      assert s == [s[0]] + s[1..];
    }
  }

  /** Removing the spaces and upper-casing first does not change what similar() compares. */
  lemma {:induction false} FoldNormalize(s: string)
    ensures Fold(Normalize(s)) == Fold(s)
  {
    if s != [] {
      FoldNormalize(s[1..]);
      if s[0] != ' ' {
        var u := UpperChar(s[0]);
        assert IsBlank(u) <==> IsBlank(s[0]);
        assert UpperChar(u) == u;
        assert ([u] + Normalize(s[1..]))[1..] == Normalize(s[1..]);
      }
    }
  }

  /** A string without spaces or lower-case letters is already normalised. */
  lemma {:induction false} NormalizeClean(s: string)
    requires forall i :: 0 <= i < |s| ==> s[i] != ' ' && !IsLower(s[i])
    ensures Normalize(s) == s
  {
    if s != [] {
      NormalizeClean(s[1..]);
      assert s == [s[0]] + s[1..];
    }
  }

  predicate IsDigit(c: char) { '0' <= c <= '9' }

  predicate AllDigits(s: string) { forall i :: 0 <= i < |s| ==> IsDigit(s[i]) }

  function DigitChar(d: nat): (c: char)
    requires d < 10
    ensures IsDigit(c) && c as int - '0' as int == d
  {
    ('0' as int + d) as char
  }

  /** The number of leading decimal digits of s. */
  function DigitRun(s: string): (n: nat)
    ensures n <= |s| && AllDigits(s[..n])
    ensures n < |s| ==> !IsDigit(s[n])
  {
    if s != [] && IsDigit(s[0]) then
      var n := 1 + DigitRun(s[1..]);
      assert s[..n] == [s[0]] + s[1..][..n - 1];
      n
    else 0
  }

  /** The value of a string of decimal digits. */
  function DecimalValue(s: string): nat
    requires AllDigits(s)
  {
    if s == [] then 0 else 10 * DecimalValue(s[..|s| - 1]) + (s[|s| - 1] as int - '0' as int)
  }

  /** The %d format of a non-negative number. */
  function Decimal(n: nat): (r: string)
    ensures |r| >= 1 && AllDigits(r)
  {
    if n < 10 then [DigitChar(n)] else Decimal(n / 10) + [DigitChar(n % 10)]
  }

  /** The %02d format of a non-negative number. */
  function Decimal2(n: nat): (r: string)
    ensures |r| >= 1 && AllDigits(r)
  {
    if n < 10 then ['0', DigitChar(n)] else Decimal(n)
  }

  /** Scanning a formatted number gives the number back. */
  lemma {:induction false} DecimalRoundTrip(n: nat)
    ensures DecimalValue(Decimal(n)) == n
  {
    if n >= 10 {
      DecimalRoundTrip(n / 10);
      var s := Decimal(n);
      assert s[..|s| - 1] == Decimal(n / 10);
    }
  }

  lemma {:induction false} Decimal2RoundTrip(n: nat)
    ensures DecimalValue(Decimal2(n)) == n
  {
    if n < 10 {
      var s := Decimal2(n);
      assert s[..1] == ['0'];
      assert DecimalValue(['0']) == 10 * DecimalValue([]) + 0;
    } else {
      DecimalRoundTrip(n);
    }
  }

  /** The digit run of a digit string followed by a non-digit is the digit string. */
  lemma {:induction false} DigitRunOf(d: string, rest: string)
    requires AllDigits(d)
    requires rest == [] || !IsDigit(rest[0])
    ensures DigitRun(d + rest) == |d|
  {
    if d != [] {
      assert (d + rest)[1..] == d[1..] + rest;
      DigitRunOf(d[1..], rest);
    }
  }

  // ---------------------------------------------------------------------
  // setTimeReference() and timeReferenceName()
  // ---------------------------------------------------------------------

  /**
   * The outcome of scanning "UTC%c%d:%d": the number of fields converted,
   * the index after the last character consumed, and the three fields.
   */
  datatype Scan = Scan(count: nat, last: nat, sign: char, hours: nat, minutes: nat)

  /**
   * The scan of a normalised string: the literal "UTC", one character,
   * a run of digits, the literal ':' and a second run of digits; the scan
   * stops at the first part that does not match.
   */
  function ScanOffset(s: string): (r: Scan)
  {
    if |s| < 3 || s[..3] != "UTC" then Scan(0, 0, NUL, 0, 0)
    else if |s| == 3 then Scan(0, 3, NUL, 0, 0)
    else ScanHoursField(s)
  }

  /** The scan after "UTC" and the sign character at index 3. */
  function ScanHoursField(s: string): (r: Scan)
    requires |s| >= 4
  {
    var k := DigitRun(s[4..]);
    if k == 0 then Scan(1, 4, s[3], 0, 0)
    else
      assert s[4..][..k] == s[4..4 + k];
      ScanMinutesField(s, 4 + k, DecimalValue(s[4..4 + k]))
  }

  /** The scan after the hours field, which ends at index e. */
  function ScanMinutesField(s: string, e: nat, h: nat): (r: Scan)
    requires 4 <= e <= |s|
  {
    if e == |s| || s[e] != ':' then Scan(2, e, s[3], h, 0)
    else
      var k := DigitRun(s[e + 1..]);
      if k == 0 then Scan(2, e + 1, s[3], h, 0)
      else
        assert s[e + 1..][..k] == s[e + 1..e + 1 + k];
        Scan(3, e + 1 + k, s[3], h, DecimalValue(s[e + 1..e + 1 + k]))
  }

  /** The offset denoted by a normalised name, `None` for an incorrect name. */
  function ParseOffset(str: string): Option<int>
  {
    if Similar(str, "UTC") then Some(0)
    else if Similar(str, "JST") then Some(JST_OFFSET)
    else
      var sc := ScanOffset(str);
      if (sc.count == 2 || sc.count == 3) && sc.last == |str| &&
         (sc.sign == '+' || sc.sign == '-') && sc.hours <= 12 && sc.minutes <= 59
      then Some((if sc.sign == '+' then 1 else -1) * (sc.hours * 60 + sc.minutes) * MS_PER_MINUTE)
      else None
  }

  /** setTimeReference(): the name is upper-cased and its spaces removed before it is recognised. */
  function ParseTimeReference(name: string): Option<int>
  {
    ParseOffset(Normalize(name))
  }

  /** A name similar to "UTC" or "JST", whatever its blanks and case, is accepted before any scan. */
  lemma {:induction false} ParseSimilar(name: string)
    ensures Similar(name, "UTC") ==> ParseTimeReference(name) == Some(0)
    ensures Similar(name, "JST") ==> ParseTimeReference(name) == Some(JST_OFFSET)
  {
    FoldNormalize(name);
    FoldClean("UTC");
    FoldClean("JST");
  }

  /** Blanks other than spaces survive remove(SPACE) and are then ignored by similar(). */
  lemma {:induction false} OtherBlanksIgnored()
    ensures ParseTimeReference("UTC\t") == Some(0)
    ensures ParseTimeReference("j s t\n") == Some(JST_OFFSET)
  {
    FoldClean("UTC");
    FoldClean("JST");
    assert Fold("UTC\t") == "UTC";
    assert Fold("j s t\n") == "JST";
    ParseSimilar("UTC\t");
    ParseSimilar("j s t\n");
  }

  /** "UTC", any character, then a digit is similar neither to "UTC" nor to "JST". */
  lemma {:induction false} ScanNameNotSimilar(sign: char, rest: string)
    requires rest != [] && IsDigit(rest[0])
    ensures !Similar("UTC" + [sign] + rest, "UTC") && !Similar("UTC" + [sign] + rest, "JST")
  {
    FoldClean("UTC");
    FoldClean("JST");
    FoldAppend("UTC" + [sign], rest);
    assert rest == [rest[0]] + rest[1..];
    assert |Fold(rest)| >= 1;
  }

  /** An offset setTimeReference() can produce: whole minutes, at most 12:59 either way. */
  predicate IsOffset(r: int)
  {
    r % MS_PER_MINUTE == 0 && -(MAX_OFFSET_MINUTES * MS_PER_MINUTE) <= r <= MAX_OFFSET_MINUTES * MS_PER_MINUTE
  }

  /** Every accepted name denotes an offset of that range. */
  lemma {:induction false} ParseRange(name: string)
    ensures ParseTimeReference(name).Some? ==> IsOffset(ParseTimeReference(name).value)
  {
    var str := Normalize(name);
    if !Similar(str, "UTC") && !Similar(str, "JST") {
      var sc := ScanOffset(str);
      if ParseOffset(str).Some? {
        var m := sc.hours * 60 + sc.minutes;
        assert 0 <= m <= MAX_OFFSET_MINUTES;
        var s: int := if sc.sign == '+' then 1 else -1;
        assert ParseOffset(str).value == (s * m) * MS_PER_MINUTE;
      }
    }
  }

  lemma {:induction false} ScanHours(sign: char, hs: string)
    requires hs != [] && AllDigits(hs)
    ensures var s := "UTC" + [sign] + hs;
            ScanOffset(s) == Scan(2, |s|, sign, DecimalValue(hs), 0)
  {
    var s := "UTC" + [sign] + hs;
    ScanPrefix(s, sign, hs);
    ScanHoursPart(s, hs, []);
  }

  lemma {:induction false} ScanHoursMinutes(sign: char, hs: string, ms: string)
    requires hs != [] && AllDigits(hs) && ms != [] && AllDigits(ms)
    ensures var s := "UTC" + [sign] + hs + ":" + ms;
            ScanOffset(s) == Scan(3, |s|, sign, DecimalValue(hs), DecimalValue(ms))
  {
    var s := "UTC" + [sign] + hs + ":" + ms;
    var rest := ":" + ms;
    ScanPrefix(s, sign, hs + rest);
    ScanHoursPart(s, hs, rest);
    var e := 4 + |hs|;
    assert s[e] == ':' && s[e + 1..] == ms;
    ScanMinutes(s, e, DecimalValue(hs), ms);
  }

  /** The hours field is the run of digits after the sign character. */
  lemma {:induction false} ScanHoursPart(s: string, hs: string, rest: string)
    requires |s| >= 4 && s[4..] == hs + rest && hs != [] && AllDigits(hs)
    requires rest == [] || !IsDigit(rest[0])
    ensures 4 + |hs| <= |s| && ScanHoursField(s) == ScanMinutesField(s, 4 + |hs|, DecimalValue(hs))
  {
    DigitRunOf(hs, rest);
    assert s[4..4 + |hs|] == hs;
  }

  /** "UTC" and a sign character, then the rest. */
  lemma {:induction false} ScanPrefix(s: string, sign: char, rest: string)
    requires s == "UTC" + [sign] + rest
    ensures |s| >= 4 && ScanOffset(s) == ScanHoursField(s) && s[3] == sign && s[4..] == rest
  {
    assert s[..3] == "UTC";
    assert |s| != 3;
  }

  lemma {:induction false} ScanMinutes(s: string, e: nat, h: nat, ms: string)
    requires 4 <= e && e < |s| && s[e] == ':' && s[e + 1..] == ms && ms != [] && AllDigits(ms)
    ensures ScanMinutesField(s, e, h) == Scan(3, |s|, s[3], h, DecimalValue(ms))
  {
    assert ms + [] == ms;
    DigitRunOf(ms, []);
    assert s[e + 1..e + 1 + |ms|] == ms;
  }

  /** "UTC", a character and digits: accepted iff the character is a sign and the hours at most 12. */
  lemma {:induction false} ParseHours(sign: char, hs: string)
    requires hs != [] && AllDigits(hs)
    ensures var h := DecimalValue(hs);
            ParseOffset("UTC" + [sign] + hs) ==
              if (sign == '+' || sign == '-') && h <= 12
              then Some((if sign == '+' then 1 else -1) * (h * 60) * MS_PER_MINUTE)
              else None
  {
    ScanHours(sign, hs);
    ScanNameNotSimilar(sign, hs);
    var s := "UTC" + [sign] + hs;
    assert |s| > 3;
  }

  /** The same followed by ':' and minute digits: accepted iff also the minutes are at most 59. */
  lemma {:induction false} ParseHoursMinutes(sign: char, hs: string, ms: string)
    requires hs != [] && AllDigits(hs) && ms != [] && AllDigits(ms)
    ensures var h, m := DecimalValue(hs), DecimalValue(ms);
            ParseOffset("UTC" + [sign] + hs + ":" + ms) ==
              if (sign == '+' || sign == '-') && h <= 12 && m <= 59
              then Some((if sign == '+' then 1 else -1) * (h * 60 + m) * MS_PER_MINUTE)
              else None
  {
    ScanHoursMinutes(sign, hs, ms);
    var s := "UTC" + [sign] + hs + ":" + ms;
    assert s == "UTC" + [sign] + (hs + ":" + ms);
    ScanNameNotSimilar(sign, hs + ":" + ms);
    assert |s| > 3;
  }

  /**
   * "UTC" and a lone ':' after the hours: the scan consumes the literal
   * ':' before it fails on the missing minutes, so the end index reaches
   * the end of the string and the name is read as whole hours.
   */
  lemma {:induction false} ParseHoursColon(sign: char, hs: string)
    requires hs != [] && AllDigits(hs)
    ensures var h := DecimalValue(hs);
            ParseOffset("UTC" + [sign] + hs + ":") ==
              if (sign == '+' || sign == '-') && h <= 12
              then Some((if sign == '+' then 1 else -1) * (h * 60) * MS_PER_MINUTE)
              else None
  {
    var s := "UTC" + [sign] + hs + ":";
    ScanPrefix(s, sign, hs + ":");
    ScanHoursPart(s, hs, ":");
    var e := 4 + |hs|;
    assert s[e] == ':' && s[e + 1..] == [];
    assert s == "UTC" + [sign] + (hs + ":");
    ScanNameNotSimilar(sign, hs + ":");
  }

  /**
   * The shape of a name the scan branch accepts: "UTC", a sign, between
   * one and any number of hour digits, then nothing, a lone ':' or ':'
   * and minute digits.
   */
  predicate OffsetShape(str: string)
  {
    |str| >= 5 && str[..3] == "UTC" && (str[3] == '+' || str[3] == '-') &&
    var k := DigitRun(str[4..]);
    k >= 1 && (4 + k == |str| || (str[4 + k] == ':' && AllDigits(str[5 + k..])))
  }

  /** Every accepted normalised name is similar to "UTC" or "JST", or has the offset shape. */
  lemma {:induction false} AcceptedShape(str: string)
    requires ParseOffset(str).Some?
    ensures Similar(str, "UTC") || Similar(str, "JST") || OffsetShape(str)
  {
    if !Similar(str, "UTC") && !Similar(str, "JST") {
      var sc := ScanOffset(str);
      assert |str| >= 4 && str[..3] == "UTC";
      var k := DigitRun(str[4..]);
      assert k >= 1;
      var e := 4 + k;
      assert str[4..][..k] == str[4..e];
      var f := ScanMinutesField(str, e, DecimalValue(str[4..e]));
      assert sc == f;
      if e < |str| && str[e] == ':' {
        var k2 := DigitRun(str[e + 1..]);
        assert e + 1 + k2 == |str|;
        assert str[e + 1..][..k2] == str[e + 1..];
      }
    }
  }

  /**
   * setTimeReference() accepts exactly these: names similar to "UTC" or
   * "JST", and names whose normalised form has the offset shape with at
   * most 12 hours and 59 minutes.
   */
  lemma {:induction false} AcceptedNames(name: string)
    ensures ParseTimeReference(name).Some? ==>
              Similar(name, "UTC") || Similar(name, "JST") || OffsetShape(Normalize(name))
  {
    FoldNormalize(name);
    if ParseTimeReference(name).Some? {
      AcceptedShape(Normalize(name));
    }
  }

  /**
   * timeReferenceName(): "UTC" for no offset, "JST" for the JST offset,
   * otherwise "UTC", the sign and the hours, then ":" and two minute
   * digits when the offset is not whole hours. The offset is truncated
   * toward zero to whole minutes.
   */
  function TimeReferenceName(r: int): (s: string)
    ensures r == 0 ==> s == "UTC"
    ensures r == JST_OFFSET ==> s == "JST"
  {
    if r == 0 then "UTC"
    else if r == JST_OFFSET then "JST"
    else
      var sign := if r < 0 then '-' else '+';
      var minutes := (if r < 0 then -r else r) / MS_PER_MINUTE;
      if minutes % 60 == 0 then "UTC" + [sign] + Decimal(minutes / 60)
      else "UTC" + [sign] + Decimal(minutes / 60) + ":" + Decimal2(minutes % 60)
  }

  lemma {:induction false} CleanName(sign: char, hs: string, rest: string)
    requires sign == '+' || sign == '-'
    requires AllDigits(hs) && (forall i :: 0 <= i < |rest| ==> rest[i] == ':' || IsDigit(rest[i]))
    ensures Normalize("UTC" + [sign] + hs + rest) == "UTC" + [sign] + hs + rest
  {
    var s := "UTC" + [sign] + hs + rest;
    forall i | 0 <= i < |s|
      ensures s[i] != ' ' && !IsLower(s[i])
    {
      if i >= 4 + |hs| {
        assert s[i] == rest[i - 4 - |hs|];
      } else if i >= 4 {
        assert s[i] == hs[i - 4];
      }
    }
    NormalizeClean(s);
  }

  /** The name of any offset setTimeReference() can produce is accepted back as that offset. */
  lemma {:induction false} NameRoundTrip(r: int)
    requires IsOffset(r)
    ensures ParseTimeReference(TimeReferenceName(r)) == Some(r)
  {
    if r == 0 {
      NormalizeClean("UTC");
      FoldClean("UTC");
    } else if r == JST_OFFSET {
      NormalizeClean("JST");
      FoldClean("UTC");
      FoldClean("JST");
    } else {
      var sign := if r < 0 then '-' else '+';
      var sg: int := if r < 0 then -1 else 1;
      var minutes := WholeMinutes(r);
      var h, m := minutes / 60, minutes % 60;
      assert minutes == 60 * h + m && h <= 12;
      assert r == sg * (h * 60 + m) * MS_PER_MINUTE;
      if m == 0 {
        assert TimeReferenceName(r) == "UTC" + [sign] + Decimal(h);
        NamedHours(sign, h);
      } else {
        assert TimeReferenceName(r) == "UTC" + [sign] + Decimal(h) + ":" + Decimal2(m);
        NamedHoursMinutes(sign, h, m);
      }
    }
  }

  /** An offset of whole minutes is sign times its absolute number of minutes. */
  lemma {:induction false} WholeMinutes(r: int) returns (minutes: nat)
    requires IsOffset(r)
    ensures minutes == (if r < 0 then -r else r) / MS_PER_MINUTE && minutes <= MAX_OFFSET_MINUTES
    ensures r == (if r < 0 then -1 else 1) * minutes * MS_PER_MINUTE
  {
    var q := r / MS_PER_MINUTE;
    assert r == MS_PER_MINUTE * q;
    var a := if r < 0 then -r else r;
    var aq := if r < 0 then -q else q;
    assert a == MS_PER_MINUTE * aq && aq >= 0;
    Bytes.DivModUnique(a, MS_PER_MINUTE, aq, 0);
    minutes := aq;
  }

  lemma {:induction false} NamedHours(sign: char, h: nat)
    requires (sign == '+' || sign == '-') && h <= 12
    ensures ParseTimeReference("UTC" + [sign] + Decimal(h)) == Some((if sign == '+' then 1 else -1) * (h * 60) * MS_PER_MINUTE)
  {
    var hs := Decimal(h);
    DecimalRoundTrip(h);
    var s := "UTC" + [sign] + hs;
    assert "UTC" + [sign] + hs + [] == s;
    CleanName(sign, hs, []);
    assert ParseTimeReference(s) == ParseOffset(s);
    ParseHours(sign, hs);
  }

  lemma {:induction false} NamedHoursMinutes(sign: char, h: nat, m: nat)
    requires (sign == '+' || sign == '-') && h <= 12 && m <= 59
    ensures ParseTimeReference("UTC" + [sign] + Decimal(h) + ":" + Decimal2(m)) ==
              Some((if sign == '+' then 1 else -1) * (h * 60 + m) * MS_PER_MINUTE)
  {
    var hs, ms := Decimal(h), Decimal2(m);
    DecimalRoundTrip(h);
    Decimal2RoundTrip(m);
    var rest := ":" + ms;
    forall i | 0 <= i < |rest|
      ensures rest[i] == ':' || IsDigit(rest[i])
    {
      if i > 0 {
        assert rest[i] == ms[i - 1];
      }
    }
    var s := "UTC" + [sign] + hs + ":" + ms;
    assert "UTC" + [sign] + hs + rest == s;
    CleanName(sign, hs, rest);
    assert ParseTimeReference(s) == ParseOffset(s);
    HoursMinutesOffset(sign, hs, ms, h, m);
  }

  lemma {:induction false} HoursMinutesOffset(sign: char, hs: string, ms: string, h: nat, m: nat)
    requires (sign == '+' || sign == '-') && h <= 12 && m <= 59
    requires hs != [] && AllDigits(hs) && ms != [] && AllDigits(ms) && DecimalValue(hs) == h && DecimalValue(ms) == m
    ensures ParseOffset("UTC" + [sign] + hs + ":" + ms) == Some((if sign == '+' then 1 else -1) * (h * 60 + m) * MS_PER_MINUTE)
  {
    ParseHoursMinutes(sign, hs, ms);
  }

  // ---------------------------------------------------------------------
  // The context
  // ---------------------------------------------------------------------

  /**
   * The fields of the context that the model keeps; report, output
   * streams, character sets and configuration file are not modelled.
   */
  class DuckContext {
    var casId: nat
    var fixPds: bool
    var defaultPds: uint32
    var defaultRegids: seq<uint32>
    var cmdStandards: Standards
    var accStandards: Standards
    var hfDefaultRegion: string
    var timeReference: int

    /** The state that reset() establishes. */
    predicate IsInitial()
      reads this
    {
      casId == CASID_NULL && !fixPds && defaultPds == 0 && defaultRegids == [] &&
      cmdStandards == NONE && accStandards == NONE && hfDefaultRegion == [] && timeReference == 0
    }

    /** A context in its initial configuration (the configuration file is not read). */
    constructor ()
      ensures IsInitial()
    {
      casId := CASID_NULL;
      fixPds := false;
      defaultPds := 0;
      defaultRegids := [];
      cmdStandards := NONE;
      accStandards := NONE;
      hfDefaultRegion := [];
      timeReference := 0;
    }

    /** reset(): back to the initial configuration. */
    method Reset()
      modifies this
      ensures IsInitial()
    {
      casId := CASID_NULL;
      fixPds := false;
      defaultPds := 0;
      defaultRegids := [];
      cmdStandards := NONE;
      accStandards := NONE;
      hfDefaultRegion := [];
      timeReference := 0;
    }

    /** addStandards(): the mask is added to the accumulated standards, which never lose a bit. */
    method AddStandards(mask: Standards)
      modifies this
      ensures accStandards == old(accStandards) | mask
      ensures casId == old(casId) && fixPds == old(fixPds) && defaultPds == old(defaultPds)
      ensures defaultRegids == old(defaultRegids) && cmdStandards == old(cmdStandards)
      ensures hfDefaultRegion == old(hfDefaultRegion) && timeReference == old(timeReference)
    {
      accStandards := accStandards | mask;
    }

    /** resetStandards(): the accumulated standards restart from the command-line ones plus the mask. */
    method ResetStandards(mask: Standards)
      modifies this
      ensures accStandards == cmdStandards | mask
      ensures casId == old(casId) && fixPds == old(fixPds) && defaultPds == old(defaultPds)
      ensures defaultRegids == old(defaultRegids) && cmdStandards == old(cmdStandards)
      ensures hfDefaultRegion == old(hfDefaultRegion) && timeReference == old(timeReference)
    {
      accStandards := cmdStandards | mask;
    }

    /**
     * actualPDS(): an explicit PDS that designates a specifier wins, then
     * the default PDS, and 0 when neither does; never PDS_NULL.
     */
    function ActualPDS(pds: uint32): (r: uint32)
      reads this
      ensures r == 0 || GoodPds(r)
      ensures GoodPds(pds) ==> r == pds
      ensures !GoodPds(pds) && GoodPds(defaultPds) ==> r == defaultPds
      ensures r == 0 <==> !GoodPds(pds) && !GoodPds(defaultPds)
    {
      if pds != 0 && pds != PDS_NULL then pds
      else if defaultPds != 0 && defaultPds != PDS_NULL then defaultPds
      else 0
    }

    /**
     * setTimeReference(): an accepted name sets the time reference and
     * returns true; an incorrect one returns false and changes nothing.
     */
    method SetTimeReference(name: string) returns (ok: bool)
      modifies this
      ensures ok <==> ParseTimeReference(name).Some?
      ensures ok ==> timeReference == ParseTimeReference(name).value && IsOffset(timeReference)
      ensures !ok ==> timeReference == old(timeReference)
      ensures casId == old(casId) && fixPds == old(fixPds) && defaultPds == old(defaultPds)
      ensures defaultRegids == old(defaultRegids) && cmdStandards == old(cmdStandards)
      ensures accStandards == old(accStandards) && hfDefaultRegion == old(hfDefaultRegion)
    {
      ParseRange(name);
      var r := ParseTimeReference(name);
      if r.Some? {
        timeReference := r.value;
        ok := true;
      } else {
        ok := false;
      }
    }

    /** timeReferenceName() of the current time reference. */
    function Name(): (s: string)
      reads this
      ensures IsOffset(timeReference) ==> ParseTimeReference(s) == Some(timeReference)
    {
      if IsOffset(timeReference) then
        NameRoundTrip(timeReference);
        TimeReferenceName(timeReference)
      else
        TimeReferenceName(timeReference)
    }
  }

  /** Or-ing a mask in keeps every bit already set and sets every bit of the mask. */
  lemma {:induction false} AddKeepsStandards(acc: Standards, mask: Standards)
    ensures (acc | mask) & acc == acc && (acc | mask) & mask == mask
    ensures (acc | mask) | mask == acc | mask
  {
  }

  /** actualPDS() of its own result gives the same result. */
  lemma {:induction false} ActualPDSIdempotent(ctx: DuckContext, pds: uint32)
    ensures ctx.ActualPDS(ctx.ActualPDS(pds)) == ctx.ActualPDS(pds)
  {
  }
}
