/** The DCF77 minute frame: `generateMinute` turns the civil-time fields of
    one minute into a 60-character string, one character per second, and a
    receiver-side decoder reads such a string back. */
module Frame {
  import opened Bits

  datatype Option<T> = None | Some(value: T)

  /** The fields `generateMinute` reads from its Date: UTC shifted by one
      hour (CET all year; no extra hour is added under daylight saving).
      The daylight-saving flag is taken as given. */
  datatype CivilTime = CivilTime(
    minute: nat,   // getMinutes()
    hour: nat,     // getHours()
    day: nat,      // getDate()
    weekday: nat,  // getDay(): 0 is Sunday
    month: nat,    // getMonth() + 1
    year: nat,     // getFullYear()
    dst: bool)     // isDST(d)

  /** The field ranges a Date produces, with the year inside 2000..2099 so
      that `getFullYear() - 2000` is a two-digit year. */
  predicate Valid(t: CivilTime)
  {
    t.minute < 60 && t.hour < 24 && 1 <= t.day <= 31 && t.weekday < 7 &&
    1 <= t.month <= 12 && 2000 <= t.year < 2100
  }

  /** `getFullYear() - 2000`, the year as the frame carries it. */
  function YearInCentury(t: CivilTime): nat
    requires Valid(t)
  {
    t.year - 2000
  }

  /** The 17 leading bits the encoder always sends. */
  const Preamble: string := "00011101111101000"
  /** Bits 19 and 20: bit 20 marks the start of the time information. */
  const TimeStart: string := "01"
  /** `SPECIAL_BIT`, sent in the last second of the minute. */
  const EndMarker: char := '-'

  /** `+b` appended to a string: "1" for true, "0" for false. */
  function Flag(b: bool): (c: char)
    ensures IsBit(c) && (c == '1' <==> b)
  {
    if b then '1' else '0'
  }

  /** Minute and hour of a valid time fit their 7 and 6 BCD bits. */
  lemma TimeFieldsFit(t: CivilTime)
    requires Valid(t)
    ensures BcdFits(t.minute, 7) && BcdDefined(t.minute, 7) && |Bcd(t.minute, 7)| == 7
    ensures BcdFits(t.hour, 6) && BcdDefined(t.hour, 6) && |Bcd(t.hour, 6)| == 6
  {
    assert Pow2(2) == 4 && Pow2(3) == 8;
    BcdRoundTrip(t.minute, 7);
    BcdRoundTrip(t.hour, 6);
  }

  /** Day, weekday, month and year of a valid time fit their 6, 3, 5 and 8
      BCD bits. */
  lemma DateFieldsFit(t: CivilTime)
    requires Valid(t)
    ensures BcdFits(t.day, 6) && BcdDefined(t.day, 6) && |Bcd(t.day, 6)| == 6
    ensures BcdFits(t.weekday, 3) && BcdDefined(t.weekday, 3) && |Bcd(t.weekday, 3)| == 3
    ensures BcdFits(t.month, 5) && BcdDefined(t.month, 5) && |Bcd(t.month, 5)| == 5
    ensures BcdFits(YearInCentury(t), 8) && BcdDefined(YearInCentury(t), 8)
    ensures |Bcd(YearInCentury(t), 8)| == 8
  {
    assert Pow2(1) == 2 && Pow2(2) == 4 && Pow2(3) == 8 && Pow2(4) == 16;
    BcdRoundTrip(t.day, 6);
    BcdRoundTrip(t.weekday, 3);
    BcdRoundTrip(t.month, 5);
    BcdRoundTrip(YearInCentury(t), 8);
  }

  /** Bits 0..20: preamble, daylight-saving flag and its complement, and
      the time-start marker. */
  function Header(dst: bool): (h: string)
    ensures |h| == 21
  {
    Preamble + [Flag(dst), Flag(!dst)] + TimeStart
  }

  /** Bits 36..57: day, weekday, month and year, the block the date parity
      covers. */
  function DateBlock(t: CivilTime): (date: string)
    requires Valid(t)
    ensures |date| == 22
  {
    DateFieldsFit(t);
    Bcd(t.day, 6) + Bcd(t.weekday, 3) + Bcd(t.month, 5) + Bcd(YearInCentury(t), 8)
  }

  lemma HeaderBits(dst: bool)
    ensures IsBits(Header(dst))
    ensures Header(dst)[..17] == Preamble
    ensures Header(dst)[17] == Flag(dst) && Header(dst)[18] == Flag(!dst)
    ensures Header(dst)[19..21] == TimeStart
  {
    var h := Header(dst);
    forall i | 0 <= i < 21 ensures IsBit(h[i]) {
      if i < 17 {
        assert h[i] == Preamble[i];
      } else if i >= 19 {
        assert h[i] == TimeStart[i - 19];
      }
    }
  }

  lemma DateIsBits(t: CivilTime)
    requires Valid(t)
    ensures IsBits(DateBlock(t))
  {
    DateFieldsFit(t);
    var day, weekday, month, year := Bcd(t.day, 6), Bcd(t.weekday, 3), Bcd(t.month, 5), Bcd(YearInCentury(t), 8);
    BcdBits(t.day, 6);
    BcdBits(t.weekday, 3);
    BcdBits(t.month, 5);
    BcdBits(YearInCentury(t), 8);
    BitsConcat(day, weekday);
    BitsConcat(day + weekday, month);
    BitsConcat(day + weekday + month, year);
  }

  /** The order in which `generateMinute` appends its parts: each of the
      minute, hour and date fields is followed by its even parity bit, and
      the end marker closes the minute. */
  function Layout(header: string, minute: string, hour: string, date: string): (frame: string)
    ensures |frame| == |header| + |minute| + |hour| + |date| + 4
    ensures frame[|frame| - 1] == EndMarker
  {
    header + minute + [EvenParity(minute)] + hour + [EvenParity(hour)]
      + date + [EvenParity(date)] + [EndMarker]
  }

  /** Where each part of a layout lands, for parts of the frame's widths. */
  lemma LayoutSlices(header: string, minute: string, hour: string, date: string)
    requires |header| == 21 && |minute| == 7 && |hour| == 6 && |date| == 22
    ensures |Layout(header, minute, hour, date)| == 60
    ensures Layout(header, minute, hour, date)[..21] == header
    ensures Layout(header, minute, hour, date)[21..28] == minute
    ensures Layout(header, minute, hour, date)[28] == EvenParity(minute)
    ensures Layout(header, minute, hour, date)[29..35] == hour
    ensures Layout(header, minute, hour, date)[35] == EvenParity(hour)
    ensures Layout(header, minute, hour, date)[36..58] == date
    ensures Layout(header, minute, hour, date)[58] == EvenParity(date)
    ensures Layout(header, minute, hour, date)[59] == EndMarker
  {
    var f := Layout(header, minute, hour, date);
    var a := header + minute + [EvenParity(minute)];
    var b := a + hour + [EvenParity(hour)];
    var c := b + date + [EvenParity(date)];
    assert f == c + [EndMarker];
    assert a[..21] == header && a[21..28] == minute;
    assert b[..29] == a && b[29..35] == hour;
    assert c[..36] == b && c[36..58] == date;
    assert f[..59] == c;
  }

  /** Any 60-character string whose parity positions hold the parity of
      the field before them and whose last character is the end marker is
      the layout of its own parts. */
  lemma LayoutOfParts(f: string)
    requires |f| == 60 && f[59] == EndMarker
    requires f[28] == EvenParity(f[21..28]) && f[35] == EvenParity(f[29..35])
    requires f[58] == EvenParity(f[36..58])
    ensures f == Layout(f[..21], f[21..28], f[29..35], f[36..58])
  {
    var g := Layout(f[..21], f[21..28], f[29..35], f[36..58]);
    LayoutSlices(f[..21], f[21..28], f[29..35], f[36..58]);
    forall i | 0 <= i < 60 ensures f[i] == g[i] {
      if i < 21 {
        assert f[i] == f[..21][i] && g[i] == g[..21][i];
      } else if 21 <= i < 28 {
        assert f[i] == f[21..28][i - 21] && g[i] == g[21..28][i - 21];
      } else if 29 <= i < 35 {
        assert f[i] == f[29..35][i - 29] && g[i] == g[29..35][i - 29];
      } else if 36 <= i < 58 {
        assert f[i] == f[36..58][i - 36] && g[i] == g[36..58][i - 36];
      }
    }
  }

  /** In any layout of parts of the frame's widths, each field is followed
      by the parity bit that makes its count of ones even. */
  lemma LayoutParity(header: string, minute: string, hour: string, date: string)
    requires |header| == 21 && |minute| == 7 && |hour| == 6 && |date| == 22
    ensures Layout(header, minute, hour, date)[21..29] == minute + [EvenParity(minute)]
    ensures Layout(header, minute, hour, date)[29..36] == hour + [EvenParity(hour)]
    ensures Layout(header, minute, hour, date)[36..59] == date + [EvenParity(date)]
  {
    var f := Layout(header, minute, hour, date);
    LayoutSlices(header, minute, hour, date);
    assert f[21..29] == f[21..28] + [f[28]];
    assert f[29..36] == f[29..35] + [f[35]];
    assert f[36..59] == f[36..58] + [f[58]];
  }

  /** A layout of bit-string parts is bits up to its last character, which
      is the only end marker. */
  lemma LayoutAlphabet(header: string, minute: string, hour: string, date: string)
    requires |header| == 21 && |minute| == 7 && |hour| == 6 && |date| == 22
    requires IsBits(header) && IsBits(minute) && IsBits(hour) && IsBits(date)
    ensures IsBits(Layout(header, minute, hour, date)[..59])
    ensures forall i :: 0 <= i < 60 ==>
      (Layout(header, minute, hour, date)[i] == EndMarker <==> i == 59)
  {
    var f := Layout(header, minute, hour, date);
    LayoutSlices(header, minute, hour, date);
    forall i | 0 <= i < 59 ensures IsBit(f[i]) {
      if i < 21 {
        assert f[..21][i] == f[i];
      } else if 21 <= i < 28 {
        assert f[21..28][i - 21] == f[i];
      } else if 29 <= i < 35 {
        assert f[29..35][i - 29] == f[i];
      } else if 36 <= i < 58 {
        assert f[36..58][i - 36] == f[i];
      }
    }
  }

  /** `generateMinute(d)`: a 60-character frame whose first 59 characters
      are bits and whose only end marker is the last character. */
  function GenerateMinute(t: CivilTime): (frame: string)
    requires Valid(t)
    ensures |frame| == 60
    ensures IsBits(frame[..59])
    ensures forall i :: 0 <= i < 60 ==> (frame[i] == EndMarker <==> i == 59)
  {
    TimeFieldsFit(t);
    var header, minute, hour, date := Header(t.dst), Bcd(t.minute, 7), Bcd(t.hour, 6), DateBlock(t);
    HeaderBits(t.dst);
    BcdBits(t.minute, 7);
    BcdBits(t.hour, 6);
    DateIsBits(t);
    LayoutSlices(header, minute, hour, date);
    LayoutAlphabet(header, minute, hour, date);
    Layout(header, minute, hour, date)
  }

  /** The frame of t is the layout of its header and fields. */
  lemma FrameIsLayout(t: CivilTime)
    requires Valid(t)
    ensures BcdDefined(t.minute, 7) && BcdDefined(t.hour, 6)
    ensures |Bcd(t.minute, 7)| == 7 && |Bcd(t.hour, 6)| == 6
    ensures GenerateMinute(t) == Layout(Header(t.dst), Bcd(t.minute, 7), Bcd(t.hour, 6), DateBlock(t))
  {
    TimeFieldsFit(t);
  }

  /** Positions 0..20 of the frame: the fixed preamble, bit 17 set exactly
      when daylight saving is on, bit 18 its complement (so exactly one of
      the two is '1'), and "01" at 19..20. */
  lemma FrameHeader(t: CivilTime)
    requires Valid(t)
    ensures GenerateMinute(t)[..21] == Header(t.dst)
    ensures GenerateMinute(t)[..17] == Preamble
    ensures GenerateMinute(t)[17] == '1' <==> t.dst
    ensures GenerateMinute(t)[18] == '1' <==> !t.dst
    ensures GenerateMinute(t)[17] != GenerateMinute(t)[18]
    ensures GenerateMinute(t)[19..21] == TimeStart
  {
    FrameIsLayout(t);
    LayoutSlices(Header(t.dst), Bcd(t.minute, 7), Bcd(t.hour, 6), DateBlock(t));
    HeaderSlices(GenerateMinute(t), t.dst);
  }

  /** What a frame starting with the header of dst holds at the header
      positions. */
  lemma HeaderSlices(f: string, dst: bool)
    requires |f| == 60 && f[..21] == Header(dst)
    ensures f[..17] == Preamble && f[19..21] == TimeStart
    ensures f[17] == Flag(dst) && f[18] == Flag(!dst)
  {
    HeaderBits(dst);
    assert f[..17] == f[..21][..17];
    assert f[19..21] == f[..21][19..21];
    assert f[17] == f[..21][17] && f[18] == f[..21][18];
  }

  /** Positions 21..35: minute and hour in BCD, each followed by its even
      parity bit; each field with its parity bit holds an even number of
      ones and reads back as the minute or hour. */
  lemma FrameTime(t: CivilTime)
    requires Valid(t)
    ensures BcdDefined(t.minute, 7) && BcdDefined(t.hour, 6)
    ensures GenerateMinute(t)[21..28] == Bcd(t.minute, 7)
    ensures GenerateMinute(t)[28] == EvenParity(Bcd(t.minute, 7))
    ensures CountOnes(GenerateMinute(t)[21..29]) % 2 == 0
    ensures BcdValue(GenerateMinute(t)[21..28]) == t.minute
    ensures GenerateMinute(t)[29..35] == Bcd(t.hour, 6)
    ensures GenerateMinute(t)[35] == EvenParity(Bcd(t.hour, 6))
    ensures CountOnes(GenerateMinute(t)[29..36]) % 2 == 0
    ensures BcdValue(GenerateMinute(t)[29..35]) == t.hour
  {
    FrameIsLayout(t);
    var header, minute, hour, date := Header(t.dst), Bcd(t.minute, 7), Bcd(t.hour, 6), DateBlock(t);
    LayoutSlices(header, minute, hour, date);
    LayoutParity(header, minute, hour, date);
    TimeFieldsFit(t);
    BcdRoundTrip(t.minute, 7);
    BcdRoundTrip(t.hour, 6);
  }

  /** Positions 36..58: the date block followed by the even parity of
      exactly those 22 bits. */
  lemma FrameDateBlock(t: CivilTime)
    requires Valid(t)
    ensures GenerateMinute(t)[36..58] == DateBlock(t)
    ensures GenerateMinute(t)[58] == EvenParity(DateBlock(t))
    ensures CountOnes(GenerateMinute(t)[36..59]) % 2 == 0
  {
    FrameIsLayout(t);
    var header, minute, hour, date := Header(t.dst), Bcd(t.minute, 7), Bcd(t.hour, 6), DateBlock(t);
    LayoutSlices(header, minute, hour, date);
    LayoutParity(header, minute, hour, date);
  }

  /** Where the four sub-fields of a date block lie. */
  lemma DateSlices(day: string, weekday: string, month: string, year: string)
    requires |day| == 6 && |weekday| == 3 && |month| == 5 && |year| == 8
    ensures (day + weekday + month + year)[..6] == day
    ensures (day + weekday + month + year)[6..9] == weekday
    ensures (day + weekday + month + year)[9..14] == month
    ensures (day + weekday + month + year)[14..] == year
  {
  }

  /** Where the four date sub-fields lie in a frame whose date block is
      their concatenation. */
  lemma DateFieldSlices(f: string, day: string, weekday: string, month: string, year: string)
    requires |day| == 6 && |weekday| == 3 && |month| == 5 && |year| == 8
    requires |f| == 60 && f[36..58] == day + weekday + month + year
    ensures f[36..42] == day && f[42..45] == weekday
    ensures f[45..50] == month && f[50..58] == year
  {
    var block := f[36..58];
    DateSlices(day, weekday, month, year);
    assert f[36..42] == block[..6];
    assert f[42..45] == block[6..9];
    assert f[45..50] == block[9..14];
    assert f[50..58] == block[14..];
  }

  /** Positions 36..57 hold day, weekday, month and two-digit year in
      BCD, in that order. */
  lemma FrameDate(t: CivilTime)
    requires Valid(t)
    ensures BcdDefined(t.day, 6) && BcdDefined(t.weekday, 3)
    ensures BcdDefined(t.month, 5) && BcdDefined(YearInCentury(t), 8)
    ensures GenerateMinute(t)[36..42] == Bcd(t.day, 6)
    ensures GenerateMinute(t)[42..45] == Bcd(t.weekday, 3)
    ensures GenerateMinute(t)[45..50] == Bcd(t.month, 5)
    ensures GenerateMinute(t)[50..58] == Bcd(YearInCentury(t), 8)
  {
    DateFieldsFit(t);
    FrameDateBlock(t);
    DateFieldSlices(GenerateMinute(t), Bcd(t.day, 6), Bcd(t.weekday, 3), Bcd(t.month, 5), Bcd(YearInCentury(t), 8));
  }

  /** Each sub-field of the date block reads back as the day, weekday,
      month and two-digit year it was built from. */
  lemma FrameDateValues(t: CivilTime)
    requires Valid(t)
    ensures BcdValue(GenerateMinute(t)[36..42]) == t.day
    ensures BcdValue(GenerateMinute(t)[42..45]) == t.weekday
    ensures BcdValue(GenerateMinute(t)[45..50]) == t.month
    ensures BcdValue(GenerateMinute(t)[50..58]) == YearInCentury(t)
  {
    FrameDate(t);
    DateFieldsFit(t);
    BcdRoundTrip(t.day, 6);
    BcdRoundTrip(t.weekday, 3);
    BcdRoundTrip(t.month, 5);
    BcdRoundTrip(YearInCentury(t), 8);
  }

  // ---------------------------------------------------------------------
  // A receiver's view of a frame, the partner of the encoder.

  /** Sixty characters, bits up to the end marker in the last second. */
  predicate FrameShape(f: string)
  {
    |f| == 60 && IsBits(f[..59]) && f[59] == EndMarker
  }

  /** The fixed bits as sent, and the two daylight-saving flags differ. */
  predicate HeaderOk(f: string)
    requires |f| == 60
  {
    f[..17] == Preamble && f[17] != f[18] && f[19..21] == TimeStart
  }

  /** Minute, hour and date each hold an even number of ones together with
      their parity bit. */
  predicate ParityOk(f: string)
    requires |f| == 60
  {
    CountOnes(f[21..29]) % 2 == 0 && CountOnes(f[29..36]) % 2 == 0 &&
    CountOnes(f[36..59]) % 2 == 0
  }

  /** Every ones digit of the wide BCD fields is a decimal digit. */
  predicate DigitsOk(f: string)
    requires |f| == 60
  {
    BcdCanonical(f[21..28]) && BcdCanonical(f[29..35]) && BcdCanonical(f[36..42]) &&
    BcdCanonical(f[45..50]) && BcdCanonical(f[50..58])
  }

  /** The time fields a receiver reads from the frame positions. */
  function FieldsOf(f: string): CivilTime
    requires |f| == 60
  {
    CivilTime(
      BcdValue(f[21..28]), BcdValue(f[29..35]), BcdValue(f[36..42]),
      BcdValue(f[42..45]), BcdValue(f[45..50]), 2000 + BcdValue(f[50..58]),
      f[17] == '1')
  }

  /** A receiver's reading of a frame: None unless the frame is well formed
      and its fields are in range. */
  function DecodeFrame(f: string): (r: Option<CivilTime>)
    ensures r.Some? ==> Valid(r.value) && FrameShape(f)
  {
    if FrameShape(f) && HeaderOk(f) && ParityOk(f) && DigitsOk(f) && Valid(FieldsOf(f))
    then Some(FieldsOf(f))
    else None
  }

  lemma GeneratedShape(t: CivilTime)
    requires Valid(t)
    ensures FrameShape(GenerateMinute(t))
  {
    assert GenerateMinute(t)[59] == EndMarker;
  }

  lemma GeneratedParityOk(t: CivilTime)
    requires Valid(t)
    ensures ParityOk(GenerateMinute(t))
  {
    FrameTime(t);
    FrameDateBlock(t);
  }

  lemma GeneratedDigitsOk(t: CivilTime)
    requires Valid(t)
    ensures DigitsOk(GenerateMinute(t))
  {
    FrameTime(t);
    FrameDate(t);
    TimeFieldsFit(t);
    DateFieldsFit(t);
    BcdRoundTrip(t.minute, 7);
    BcdRoundTrip(t.hour, 6);
    BcdRoundTrip(t.day, 6);
    BcdRoundTrip(t.month, 5);
    BcdRoundTrip(YearInCentury(t), 8);
  }

  lemma GeneratedFields(t: CivilTime)
    requires Valid(t)
    ensures FieldsOf(GenerateMinute(t)) == t
  {
    FrameHeader(t);
    FrameTime(t);
    FrameDateValues(t);
  }

  /** A receiver recovers every field of the time the frame was built
      from, including the daylight-saving flag. */
  lemma DecodeGenerate(t: CivilTime)
    requires Valid(t)
    ensures DecodeFrame(GenerateMinute(t)) == Some(t)
  {
    var g := GenerateMinute(t);
    GeneratedShape(t);
    FrameHeader(t);
    assert HeaderOk(g);
    GeneratedParityOk(t);
    GeneratedDigitsOk(t);
    GeneratedFields(t);
  }

  lemma ShapeBits(f: string, i: nat, j: nat)
    requires FrameShape(f) && i <= j <= 59
    ensures IsBits(f[i..j])
  {
    forall k | 0 <= k < j - i ensures IsBit(f[i..j][k]) {
      assert f[i..j][k] == f[..59][i + k];
    }
  }

  lemma DecodedHeader(f: string)
    requires FrameShape(f) && HeaderOk(f)
    ensures f[..21] == Header(FieldsOf(f).dst)
  {
    var h := Header(FieldsOf(f).dst);
    HeaderBits(FieldsOf(f).dst);
    assert IsBit(f[17]) && IsBit(f[18]) by {
      assert f[17] == f[..59][17] && f[18] == f[..59][18];
    }
    forall i | 0 <= i < 21 ensures f[i] == h[i] {
      if i < 17 {
        assert f[i] == f[..17][i] && h[i] == h[..17][i];
      } else if i >= 19 {
        assert f[i] == f[19..21][i - 19] && h[i] == h[19..21][i - 19];
      }
    }
  }

  lemma DecodedParity(f: string)
    requires FrameShape(f) && ParityOk(f)
    ensures f[28] == EvenParity(f[21..28])
    ensures f[35] == EvenParity(f[29..35])
    ensures f[58] == EvenParity(f[36..58])
  {
    assert IsBit(f[28]) && IsBit(f[35]) && IsBit(f[58]) by {
      assert f[28] == f[..59][28] && f[35] == f[..59][35] && f[58] == f[..59][58];
    }
    assert f[21..29] == f[21..28] + [f[28]];
    assert f[29..36] == f[29..35] + [f[35]];
    assert f[36..59] == f[36..58] + [f[58]];
    ParityUnique(f[21..28], f[28]);
    ParityUnique(f[29..35], f[35]);
    ParityUnique(f[36..58], f[58]);
  }

  lemma DecodedTime(f: string)
    requires FrameShape(f) && DigitsOk(f) && Valid(FieldsOf(f))
    ensures BcdDefined(FieldsOf(f).minute, 7) && BcdDefined(FieldsOf(f).hour, 6)
    ensures f[21..28] == Bcd(FieldsOf(f).minute, 7)
    ensures f[29..35] == Bcd(FieldsOf(f).hour, 6)
  {
    ShapeBits(f, 21, 28);
    ShapeBits(f, 29, 35);
    BcdUnique(f[21..28]);
    BcdUnique(f[29..35]);
  }

  /** Each date sub-field of a well-formed frame is the BCD encoding of
      the value read from it. */
  lemma DecodedDateFields(f: string)
    requires FrameShape(f) && DigitsOk(f) && Valid(FieldsOf(f))
    ensures BcdDefined(FieldsOf(f).day, 6) && BcdDefined(FieldsOf(f).weekday, 3)
    ensures BcdDefined(FieldsOf(f).month, 5) && BcdDefined(YearInCentury(FieldsOf(f)), 8)
    ensures f[36..42] == Bcd(FieldsOf(f).day, 6)
    ensures f[42..45] == Bcd(FieldsOf(f).weekday, 3)
    ensures f[45..50] == Bcd(FieldsOf(f).month, 5)
    ensures f[50..58] == Bcd(YearInCentury(FieldsOf(f)), 8)
  {
    ShapeBits(f, 36, 42);
    ShapeBits(f, 42, 45);
    ShapeBits(f, 45, 50);
    ShapeBits(f, 50, 58);
    BcdUnique(f[36..42]);
    BcdUnique(f[42..45]);
    BcdUnique(f[45..50]);
    BcdUnique(f[50..58]);
  }

  lemma DecodedDate(f: string)
    requires FrameShape(f) && DigitsOk(f) && Valid(FieldsOf(f))
    ensures f[36..58] == DateBlock(FieldsOf(f))
  {
    DecodedDateFields(f);
    DateJoin(f);
  }

  /** The date block of a frame is its four sub-fields in order. */
  lemma DateJoin(f: string)
    requires |f| == 60
    ensures f[36..58] == f[36..42] + f[42..45] + f[45..50] + f[50..58]
  {
  }

  /** Conversely, the only frame a receiver accepts as time t is the one
      `generateMinute` builds for t. */
  lemma GenerateDecode(f: string, t: CivilTime)
    requires DecodeFrame(f) == Some(t)
    ensures GenerateMinute(t) == f
  {
    assert FrameShape(f) && HeaderOk(f) && ParityOk(f) && DigitsOk(f) && FieldsOf(f) == t;
    DecodedParity(f);
    LayoutOfParts(f);
    DecodedHeader(f);
    DecodedTime(f);
    DecodedDate(f);
    FrameIsLayout(t);
  }
}
