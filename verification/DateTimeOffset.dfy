/** `handle_datetimeoffset` (src/utils/utils_db.py, repeated in
    src/coordinator/utils.py): the 20-byte SQL Server `DATETIMEOFFSET` value the
    ODBC driver hands back is unpacked as `struct.unpack("<6hI2h", ...)` and
    rendered as `YYYY-MM-DD HH:MM:SS.FFFFFFF +HH:MM`, the fraction of a second
    (given in nanoseconds) cut down to 100-nanosecond units. */
module DateTimeOffset {

  import opened Wrappers
  import opened Text
  import opened Decimal

  type Byte = b: int | 0 <= b < 256

  /** The nine fields in unpacking order. */
  datatype Dto = Dto(
    year: int, month: int, day: int,
    hour: int, minute: int, second: int,
    fraction: int,
    offsetHour: int, offsetMinute: int)

  const Size: nat := 20

  // ---------------------------------------------------------------------------
  // Little-endian fields, no padding
  // ---------------------------------------------------------------------------

  predicate IsInt16(v: int) {
    -0x8000 <= v < 0x8000
  }

  predicate IsUInt32(v: int) {
    0 <= v < 0x1_0000_0000
  }

  /** The value ranges of the `h` and `I` fields. */
  predicate Representable(d: Dto) {
    IsInt16(d.year) && IsInt16(d.month) && IsInt16(d.day)
    && IsInt16(d.hour) && IsInt16(d.minute) && IsInt16(d.second)
    && IsUInt32(d.fraction)
    && IsInt16(d.offsetHour) && IsInt16(d.offsetMinute)
  }

  /** `h`: two bytes, low first, two's complement. */
  function Int16At(b: seq<Byte>, i: nat): (v: int)
    requires i + 2 <= |b|
    ensures IsInt16(v)
  {
    var u := b[i] as int + 0x100 * b[i + 1] as int;
    if u >= 0x8000 then u - 0x1_0000 else u
  }

  /** `I`: four bytes, low first. */
  function UInt32At(b: seq<Byte>, i: nat): (v: int)
    requires i + 4 <= |b|
    ensures IsUInt32(v)
  {
    b[i] as int + 0x100 * (b[i + 1] as int + 0x100 * (b[i + 2] as int + 0x100 * b[i + 3] as int))
  }

  /** `struct.unpack("<6hI2h", b)`; any length other than 20 raises `struct.error`. */
  function Unpack(b: seq<Byte>): (r: Result<Dto>)
    ensures r.Ok? <==> |b| == Size
    ensures r.Ok? ==> Representable(r.value)
  {
    if |b| != Size then Err("struct.error: unpack requires a buffer of 20 bytes")
    else Ok(Dto(Int16At(b, 0), Int16At(b, 2), Int16At(b, 4),
                Int16At(b, 6), Int16At(b, 8), Int16At(b, 10),
                UInt32At(b, 12),
                Int16At(b, 16), Int16At(b, 18)))
  }

  /** `struct.pack("<h", v)`. */
  function Int16Bytes(v: int): (r: seq<Byte>)
    requires IsInt16(v)
    ensures |r| == 2
  {
    var u := if v < 0 then v + 0x1_0000 else v;
    [u % 0x100, u / 0x100]
  }

  /** `struct.pack("<I", v)`. */
  function UInt32Bytes(v: int): (r: seq<Byte>)
    requires IsUInt32(v)
    ensures |r| == 4
  {
    var q1 := v / 0x100;
    var q2 := q1 / 0x100;
    [v % 0x100, q1 % 0x100, q2 % 0x100, q2 / 0x100]
  }

  /** `struct.pack("<6hI2h", ...)`, the inverse of `Unpack`. */
  function Pack(d: Dto): (r: seq<Byte>)
    requires Representable(d)
    ensures |r| == Size
  {
    Int16Bytes(d.year) + Int16Bytes(d.month) + Int16Bytes(d.day)
    + Int16Bytes(d.hour) + Int16Bytes(d.minute) + Int16Bytes(d.second)
    + UInt32Bytes(d.fraction)
    + Int16Bytes(d.offsetHour) + Int16Bytes(d.offsetMinute)
  }

  lemma Int16RoundTrip(v: int, b: seq<Byte>, i: nat)
    requires IsInt16(v) && i + 2 <= |b| && b[i..i + 2] == Int16Bytes(v)
    ensures Int16At(b, i) == v
  {
    assert b[i] == Int16Bytes(v)[0] && b[i + 1] == Int16Bytes(v)[1];
  }

  lemma UInt32RoundTrip(v: int, b: seq<Byte>, i: nat)
    requires IsUInt32(v) && i + 4 <= |b| && b[i..i + 4] == UInt32Bytes(v)
    ensures UInt32At(b, i) == v
  {
    assert b[i] == UInt32Bytes(v)[0] && b[i + 1] == UInt32Bytes(v)[1];
    assert b[i + 2] == UInt32Bytes(v)[2] && b[i + 3] == UInt32Bytes(v)[3];
  }

  /** Packing and then unpacking gives the fields back. */
  lemma UnpackPack(d: Dto)
    requires Representable(d)
    ensures Unpack(Pack(d)) == Ok(d)
  {
    var b := Pack(d);
    Int16RoundTrip(d.year, b, 0);
    Int16RoundTrip(d.month, b, 2);
    Int16RoundTrip(d.day, b, 4);
    Int16RoundTrip(d.hour, b, 6);
    Int16RoundTrip(d.minute, b, 8);
    Int16RoundTrip(d.second, b, 10);
    UInt32RoundTrip(d.fraction, b, 12);
    Int16RoundTrip(d.offsetHour, b, 16);
    Int16RoundTrip(d.offsetMinute, b, 18);
  }

  lemma Int16BytesAt(b: seq<Byte>, i: nat)
    requires i + 2 <= |b|
    ensures Int16Bytes(Int16At(b, i)) == b[i..i + 2]
  {
  }

  /** Splitting `lo + 256 * hi` into its low byte and the rest. */
  lemma LowByte(lo: int, hi: int)
    requires 0 <= lo < 0x100
    ensures (lo + 0x100 * hi) % 0x100 == lo && (lo + 0x100 * hi) / 0x100 == hi
  {
  }

  lemma UInt32BytesAt(b: seq<Byte>, i: nat)
    requires i + 4 <= |b|
    ensures UInt32Bytes(UInt32At(b, i)) == b[i..i + 4]
  {
    var r2 := b[i + 2] as int + 0x100 * b[i + 3] as int;
    var r1 := b[i + 1] as int + 0x100 * r2;
    LowByte(b[i], r1);
    LowByte(b[i + 1], r2);
    LowByte(b[i + 2], b[i + 3]);
  }

  /** Unpacking and then packing gives the bytes back: no two byte strings
      decode alike. */
  lemma PackUnpack(b: seq<Byte>)
    requires |b| == Size
    ensures Pack(Unpack(b).value) == b
  {
    Int16BytesAt(b, 0);
    Int16BytesAt(b, 2);
    Int16BytesAt(b, 4);
    Int16BytesAt(b, 6);
    Int16BytesAt(b, 8);
    Int16BytesAt(b, 10);
    UInt32BytesAt(b, 12);
    Int16BytesAt(b, 16);
    Int16BytesAt(b, 18);
    assert Pack(Unpack(b).value)
        == b[0..2] + b[2..4] + b[4..6] + b[6..8] + b[8..10] + b[10..12] + b[12..16] + b[16..18] + b[18..20];
    AdjacentSlices(b, 0, 2, 4);
    AdjacentSlices(b, 0, 4, 6);
    AdjacentSlices(b, 0, 6, 8);
    AdjacentSlices(b, 0, 8, 10);
    AdjacentSlices(b, 0, 10, 12);
    AdjacentSlices(b, 0, 12, 16);
    AdjacentSlices(b, 0, 16, 18);
    AdjacentSlices(b, 0, 18, 20);
    assert b[0..20] == b;
  }

  lemma AdjacentSlices(b: seq<Byte>, i: nat, j: nat, k: nat)
    requires i <= j <= k <= |b|
    ensures b[i..j] + b[j..k] == b[i..k]
  {
  }

  // ---------------------------------------------------------------------------
  // Rendering
  // ---------------------------------------------------------------------------

  /** The list comprehension: the 7th field floor-divided by 100, the others kept.
      The field is unsigned, so Python's `//` and Dafny's `/` agree. */
  function Tweak(d: Dto): Dto {
    d.(fraction := d.fraction / 100)
  }

  /** `"{:04d}-{:02d}-{:02d} {:02d}:{:02d}:{:02d}.{:07d} {:+03d}:{:02d}".format(...)`,
      assembled from its date, time, fraction and offset parts. */
  function Render(d: Dto): string {
    DatePart(d) + " " + TimePart(d) + "." + FormatInt(d.fraction, 7, false) + OffsetPart(d)
  }

  function DatePart(d: Dto): string {
    FormatInt(d.year, 4, false) + "-" + FormatInt(d.month, 2, false) + "-" + FormatInt(d.day, 2, false)
  }

  function TimePart(d: Dto): string {
    FormatInt(d.hour, 2, false) + ":" + FormatInt(d.minute, 2, false) + ":" + FormatInt(d.second, 2, false)
  }

  function OffsetPart(d: Dto): string {
    " " + FormatInt(d.offsetHour, 3, true) + ":" + FormatInt(d.offsetMinute, 2, false)
  }

  /** `handle_datetimeoffset`. */
  function HandleDateTimeOffset(b: seq<Byte>): (r: Result<string>)
    ensures r.Err? <==> |b| != Size
  {
    var d :- Unpack(b);
    Ok(Render(Tweak(d)))
  }

  /** Field values that fit their padded widths: a four-digit year, two-digit
      date and time parts and offset minutes, a seven-digit fraction and an
      offset hour of at most two digits. */
  predicate Fits(d: Dto) {
    0 <= d.year < 10000 && 0 <= d.month < 100 && 0 <= d.day < 100
    && 0 <= d.hour < 100 && 0 <= d.minute < 100 && 0 <= d.second < 100
    && 0 <= d.fraction < 10_000_000
    && -99 <= d.offsetHour <= 99 && 0 <= d.offsetMinute < 100
  }

  /** The fixed layout: 34 characters with the separators in place and a sign
      in front of the offset hour. */
  predicate Layout(s: string) {
    |s| == 34
    && s[4] == '-' && s[7] == '-' && s[10] == ' ' && s[13] == ':' && s[16] == ':'
    && s[19] == '.' && s[27] == ' ' && s[31] == ':'
    && (s[28] == '+' || s[28] == '-')
  }

  /** Reads the nine fields back from their fixed positions. */
  function ParseRendered(s: string): Option<Dto>
    requires |s| == 34
  {
    var fs := [ParseInt(s[0..4]), ParseInt(s[5..7]), ParseInt(s[8..10]),
               ParseInt(s[11..13]), ParseInt(s[14..16]), ParseInt(s[17..19]),
               ParseInt(s[20..27]), ParseInt(s[28..31]), ParseInt(s[32..34])];
    if fs[0].Some? && fs[1].Some? && fs[2].Some? && fs[3].Some? && fs[4].Some?
       && fs[5].Some? && fs[6].Some? && fs[7].Some? && fs[8].Some?
    then Some(Dto(fs[0].value, fs[1].value, fs[2].value, fs[3].value, fs[4].value,
                  fs[5].value, fs[6].value, fs[7].value, fs[8].value))
    else None
  }

  /** A value below `10^w` fills exactly `w` digits. */
  lemma PaddedWidth(v: int, w: nat)
    requires 1 <= w && 0 <= v < Pow10(w)
    ensures |FormatInt(v, w, false)| == w
  {
    NatToDecimalLength(v, w);
    FormatIntWidth(v, w, false);
  }

  /** A signed offset hour of at most two digits takes three characters, the
      first of them its sign. */
  lemma OffsetHourWidth(h: int)
    requires -99 <= h <= 99
    ensures |FormatInt(h, 3, true)| == 3
    ensures FormatInt(h, 3, true)[0] == (if h < 0 then '-' else '+')
  {
    assert Pow10(2) == 100;
    NatToDecimalLength(if h < 0 then -h else h, 2);
    FormatIntWidth(h, 3, true);
  }

  /** Where the five pieces of `a + b + c + e + g` sit. */
  lemma Pieces5(a: string, b: string, c: string, e: string, g: string)
    ensures var s := a + b + c + e + g;
      var i1, i2, i3, i4 := |a|, |a| + |b|, |a| + |b| + |c|, |a| + |b| + |c| + |e|;
      && |s| == i4 + |g|
      && s[..i1] == a && s[i1..i2] == b && s[i2..i3] == c && s[i3..i4] == e && s[i4..i4 + |g|] == g
  {
  }

  /** Where the four pieces of `a + b + c + e` sit. */
  lemma Pieces4(a: string, b: string, c: string, e: string)
    ensures var s := a + b + c + e;
      var i1, i2, i3 := |a|, |a| + |b|, |a| + |b| + |c|;
      && |s| == i3 + |e|
      && s[..i1] == a && s[i1..i2] == b && s[i2..i3] == c && s[i3..i3 + |e|] == e
  {
  }

  lemma DatePartSpec(d: Dto)
    requires Fits(d)
    ensures var p := DatePart(d);
      && |p| == 10 && p[4] == '-' && p[7] == '-'
      && ParseInt(p[0..4]) == Some(d.year) && ParseInt(p[5..7]) == Some(d.month)
      && ParseInt(p[8..10]) == Some(d.day)
  {
    assert Pow10(2) == 100 && Pow10(4) == 10000;
    PaddedWidth(d.year, 4);
    PaddedWidth(d.month, 2);
    PaddedWidth(d.day, 2);
    FormatIntRoundTrip(d.year, 4, false);
    FormatIntRoundTrip(d.month, 2, false);
    FormatIntRoundTrip(d.day, 2, false);
    Pieces5(FormatInt(d.year, 4, false), "-", FormatInt(d.month, 2, false), "-", FormatInt(d.day, 2, false));
  }

  lemma TimePartSpec(d: Dto)
    requires Fits(d)
    ensures var p := TimePart(d);
      && |p| == 8 && p[2] == ':' && p[5] == ':'
      && ParseInt(p[0..2]) == Some(d.hour) && ParseInt(p[3..5]) == Some(d.minute)
      && ParseInt(p[6..8]) == Some(d.second)
  {
    assert Pow10(2) == 100;
    PaddedWidth(d.hour, 2);
    PaddedWidth(d.minute, 2);
    PaddedWidth(d.second, 2);
    FormatIntRoundTrip(d.hour, 2, false);
    FormatIntRoundTrip(d.minute, 2, false);
    FormatIntRoundTrip(d.second, 2, false);
    Pieces5(FormatInt(d.hour, 2, false), ":", FormatInt(d.minute, 2, false), ":", FormatInt(d.second, 2, false));
  }

  lemma OffsetPartSpec(d: Dto)
    requires Fits(d)
    ensures var p := OffsetPart(d);
      && |p| == 7 && p[0] == ' ' && p[4] == ':' && (p[1] == '+' || p[1] == '-')
      && ParseInt(p[1..4]) == Some(d.offsetHour) && ParseInt(p[5..7]) == Some(d.offsetMinute)
  {
    assert Pow10(2) == 100;
    OffsetHourWidth(d.offsetHour);
    PaddedWidth(d.offsetMinute, 2);
    FormatIntRoundTrip(d.offsetHour, 3, true);
    FormatIntRoundTrip(d.offsetMinute, 2, false);
    Pieces4(" ", FormatInt(d.offsetHour, 3, true), ":", FormatInt(d.offsetMinute, 2, false));
  }

  /** Where the fields of the four parts land in the whole rendering. */
  lemma AssembleSlices(date: string, time: string, f: string, off: string)
    requires |date| == 10 && |time| == 8 && |f| == 7 && |off| == 7
    ensures var s := date + " " + time + "." + f + off;
      && |s| == 34
      && s[0..4] == date[0..4] && s[5..7] == date[5..7] && s[8..10] == date[8..10]
      && s[11..13] == time[0..2] && s[14..16] == time[3..5] && s[17..19] == time[6..8]
      && s[20..27] == f && s[28..31] == off[1..4] && s[32..34] == off[5..7]
      && s[4] == date[4] && s[7] == date[7] && s[10] == ' ' && s[13] == time[2] && s[16] == time[5]
      && s[19] == '.' && s[27] == off[0] && s[28] == off[1] && s[31] == off[4]
  {
    var s := date + " " + time + "." + f + off;
    Pieces5(date + " ", time, ".", f, off);
    assert s[..11] == date + " ";
  }

  /** Four parts that read back as the fields of `d` assemble into a rendering
      in the fixed layout that reads back as `d`. */
  lemma Assemble(date: string, time: string, f: string, off: string, d: Dto)
    requires |date| == 10 && date[4] == '-' && date[7] == '-'
    requires ParseInt(date[0..4]) == Some(d.year) && ParseInt(date[5..7]) == Some(d.month)
    requires ParseInt(date[8..10]) == Some(d.day)
    requires |time| == 8 && time[2] == ':' && time[5] == ':'
    requires ParseInt(time[0..2]) == Some(d.hour) && ParseInt(time[3..5]) == Some(d.minute)
    requires ParseInt(time[6..8]) == Some(d.second)
    requires |f| == 7 && ParseInt(f) == Some(d.fraction)
    requires |off| == 7 && off[0] == ' ' && off[4] == ':' && (off[1] == '+' || off[1] == '-')
    requires ParseInt(off[1..4]) == Some(d.offsetHour) && ParseInt(off[5..7]) == Some(d.offsetMinute)
    ensures var s := date + " " + time + "." + f + off;
      Layout(s) && ParseRendered(s) == Some(d)
  {
    AssembleSlices(date, time, f, off);
  }

  /** Rendered fields that fit keep the fixed layout and read back as the fields. */
  lemma RenderSpec(d: Dto)
    requires Fits(d)
    ensures Layout(Render(d))
    ensures ParseRendered(Render(d)) == Some(d)
  {
    assert Pow10(7) == 10_000_000 by {
      assert Pow10(2) == 100 && Pow10(4) == 10000;
    }
    DatePartSpec(d);
    TimePartSpec(d);
    OffsetPartSpec(d);
    PaddedWidth(d.fraction, 7);
    FormatIntRoundTrip(d.fraction, 7, false);
    Assemble(DatePart(d), TimePart(d), FormatInt(d.fraction, 7, false), OffsetPart(d), d);
  }

  /** A 20-byte value whose fields fit renders in the fixed layout, and every field
      reads back unchanged except the fraction, which reads back divided by 100. */
  lemma HandleDateTimeOffsetSpec(b: seq<Byte>)
    requires |b| == Size && Fits(Tweak(Unpack(b).value))
    ensures var s := HandleDateTimeOffset(b).value;
      var d := Unpack(b).value;
      && Layout(s)
      && ParseRendered(s) == Some(Dto(d.year, d.month, d.day, d.hour, d.minute, d.second,
                                      d.fraction / 100, d.offsetHour, d.offsetMinute))
  {
    RenderSpec(Tweak(Unpack(b).value));
  }

  /** The value the source's comment shows, a negative offset included. */
  lemma CommentExample()
    ensures Render(Dto(2017, 3, 16, 10, 35, 18, 0, -6, 0)) == "2017-03-16 10:35:18.0000000 -06:00"
  {
    var d := Dto(2017, 3, 16, 10, 35, 18, 0, -6, 0);
    ExampleDate();
    ExampleTime();
    ExampleRest();
    assert DatePart(d) == "2017-03-16";
    assert TimePart(d) == "10:35:18";
  }

  lemma ExampleDate()
    ensures FormatInt(2017, 4, false) == "2017"
    ensures FormatInt(3, 2, false) == "03" && FormatInt(16, 2, false) == "16"
  {
    assert NatToDecimal(20) == "20";
    assert NatToDecimal(201) == "201";
    assert NatToDecimal(2017) == "2017";
  }

  lemma ExampleTime()
    ensures FormatInt(10, 2, false) == "10" && FormatInt(35, 2, false) == "35"
    ensures FormatInt(18, 2, false) == "18"
  {
  }

  lemma ExampleRest()
    ensures FormatInt(0, 7, false) == "0000000"
    ensures OffsetPart(Dto(2017, 3, 16, 10, 35, 18, 0, -6, 0)) == " -06:00"
  {
    assert Repeat('0', 6) == "000000";
    assert FormatInt(-6, 3, true) == "-06";
    assert FormatInt(0, 2, false) == "00";
  }
}
