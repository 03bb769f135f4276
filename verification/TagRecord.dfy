/** The texts a reader answers with, and the records they are parsed into. */
module TagRecord {
  import opened Results
  import opened Text
  import opened Framing

  datatype Time = Time(year: int, month: int, day: int, hour: int, min: int, sec: int, ms: int)

  /** RfidParseEPC when it matches: protocol word, EPC, checksum. */
  datatype Epc = Epc(proto: string, epc: string, crc: string)

  datatype Bank = NoBank | EpcBank | TidBank | UserBank

  /** RfidParseUR when it matches. `epc` is None when the constructor leaves it without a match. */
  datatype UR = UR(time: Time, antenna: string, data: string, epc: Option<Epc>,
                   tid: string, user: string, err: string)
  {
    predicate HasData() {
      data != ""
    }
  }

  // ----- RfidParseEPC: four hexadecimal digits, any number of them, four of them -----

  function ParseEpc(response: string): Option<Epc> {
    var n := |response|;
    if n >= 8 && AllHex(response) then Some(Epc(response[..4], response[4..n - 4], response[n - 4..]))
    else None
  }

  /** Exactly the hexadecimal strings of eight or more digits are accepted, and the parts are the
      only ones that fit: four digits, the EPC, four digits. */
  lemma EpcIffParts(response: string, e: Epc)
    ensures ParseEpc(response) == Some(e) <==>
            |e.proto| == 4 && |e.crc| == 4 && AllHex(e.proto) && AllHex(e.epc) && AllHex(e.crc)
            && response == e.proto + e.epc + e.crc
  {
    var n := |response|;
    var parts := e.proto + e.epc + e.crc;
    if ParseEpc(response) == Some(e) {
      assert response == parts;
    }
    if |e.proto| == 4 && |e.crc| == 4 && response == parts {
      assert response[..4] == e.proto && response[4..n - 4] == e.epc && response[n - 4..] == e.crc;
      if AllHex(e.proto) && AllHex(e.epc) && AllHex(e.crc) {
        assert AllHex(response);
      }
    }
  }

  // ----- numbers of fixed width -----

  function Pow10(w: nat): nat {
    if w == 0 then 1 else 10 * Pow10(w - 1)
  }

  /** `n` with exactly `w` decimal digits, zeros in front. */
  function Pad(n: nat, w: nat): string {
    if w == 0 then "" else Pad(n / 10, w - 1) + [DigitChar(n % 10)]
  }

  lemma {:induction false} PadIsNumber(n: nat, w: nat)
    requires n < Pow10(w)
    ensures |Pad(n, w)| == w && AllDigits(Pad(n, w)) && DecimalValue(Pad(n, w)) == n
  {
    if w > 0 {
      PadIsNumber(n / 10, w - 1);
      var s := Pad(n, w);
      assert s[..|s| - 1] == Pad(n / 10, w - 1);
    }
  }

  lemma {:induction false} NumberIsPad(s: string)
    requires AllDigits(s)
    ensures DecimalValue(s) < Pow10(|s|) && Pad(DecimalValue(s), |s|) == s
  {
    if s != "" {
      var front, last := s[..|s| - 1], s[|s| - 1];
      NumberIsPad(front);
      assert s == front + [last];
      LastDigit(DecimalValue(front), DigitValue(last));
    }
  }

  // ----- dddd/dd/dd dd:dd:dd.ddd -----

  predicate IsTimeText(s: string) {
    && |s| == 23
    && AllDigits(s[..4]) && s[4] == '/' && AllDigits(s[5..7]) && s[7] == '/' && AllDigits(s[8..10])
    && s[10] == ' ' && AllDigits(s[11..13]) && s[13] == ':' && AllDigits(s[14..16]) && s[16] == ':'
    && AllDigits(s[17..19]) && s[19] == '.' && AllDigits(s[20..23])
  }

  /** RfidTime. */
  function ParseTime(s: string): Option<Time> {
    if IsTimeText(s) then
      Some(Time(DecimalValue(s[..4]), DecimalValue(s[5..7]), DecimalValue(s[8..10]), DecimalValue(s[11..13]),
                DecimalValue(s[14..16]), DecimalValue(s[17..19]), DecimalValue(s[20..23])))
    else None
  }

  predicate FitsTimeText(t: Time) {
    && 0 <= t.year < Pow10(4) && 0 <= t.month < Pow10(2) && 0 <= t.day < Pow10(2) && 0 <= t.hour < Pow10(2)
    && 0 <= t.min < Pow10(2) && 0 <= t.sec < Pow10(2) && 0 <= t.ms < Pow10(3)
  }

  /** Three fields with two marks between them. */
  function Three(a: string, x: char, b: string, y: char, c: string): string {
    a + [x] + b + [y] + c
  }

  lemma ThreeParts(a: string, x: char, b: string, y: char, c: string)
    ensures var s, i, j := Three(a, x, b, y, c), |a|, |a| + 1 + |b|;
            && |s| == j + 1 + |c| && s[..i] == a && s[i] == x && s[i + 1..j] == b && s[j] == y && s[j + 1..] == c
  {
  }

  function TimeText(t: Time): string
    requires FitsTimeText(t)
  {
    Three(Pad(t.year, 4), '/', Pad(t.month, 2), '/', Pad(t.day, 2)) + " "
    + (Three(Pad(t.hour, 2), ':', Pad(t.min, 2), ':', Pad(t.sec, 2)) + "." + Pad(t.ms, 3))
  }

  /** The parts of a text of known lengths with marks between them. */
  lemma Fields(a: string, b: string, c: string, d: string, e: string, f: string, g: string)
    requires |a| == 4 && |b| == |c| == |d| == |e| == |f| == 2 && |g| == 3
    ensures var s := Three(a, '/', b, '/', c) + " " + (Three(d, ':', e, ':', f) + "." + g);
            && |s| == 23 && s[4] == '/' && s[7] == '/' && s[10] == ' ' && s[13] == ':' && s[16] == ':' && s[19] == '.'
            && s[..4] == a && s[5..7] == b && s[8..10] == c && s[11..13] == d && s[14..16] == e
            && s[17..19] == f && s[20..23] == g
  {
    hide Three;
    var date, clock := Three(a, '/', b, '/', c), Three(d, ':', e, ':', f);
    ThreeParts(a, '/', b, '/', c);
    ThreeParts(d, ':', e, ':', f);
    var s := date + " " + (clock + "." + g);
    assert s[..10] == date && s[10] == ' ' && s[11..19] == clock && s[19] == '.' && s[20..] == g;
    assert s[..4] == date[..4] && s[4] == date[4] && s[5..7] == date[5..7] && s[7] == date[7] && s[8..10] == date[8..];
    assert s[11..13] == clock[..2] && s[13] == clock[2] && s[14..16] == clock[3..5] && s[16] == clock[5];
    assert s[17..19] == clock[6..];
  }

  lemma TimeRoundTrip(t: Time)
    requires FitsTimeText(t)
    ensures IsTimeText(TimeText(t)) && ParseTime(TimeText(t)) == Some(t)
  {
    hide Pad, DecimalValue, Pow10;
    PadIsNumber(t.year, 4);
    PadIsNumber(t.month, 2);
    PadIsNumber(t.day, 2);
    PadIsNumber(t.hour, 2);
    PadIsNumber(t.min, 2);
    PadIsNumber(t.sec, 2);
    PadIsNumber(t.ms, 3);
    Fields(Pad(t.year, 4), Pad(t.month, 2), Pad(t.day, 2), Pad(t.hour, 2), Pad(t.min, 2), Pad(t.sec, 2), Pad(t.ms, 3));
  }

  /** Each accepted time text is the one its time is printed as. */
  lemma TimeTextRoundTrip(s: string)
    requires IsTimeText(s)
    ensures FitsTimeText(ParseTime(s).value) && TimeText(ParseTime(s).value) == s
  {
    hide Pad, DecimalValue, Pow10;
    NumberIsPad(s[..4]);
    NumberIsPad(s[5..7]);
    NumberIsPad(s[8..10]);
    NumberIsPad(s[11..13]);
    NumberIsPad(s[14..16]);
    NumberIsPad(s[17..19]);
    NumberIsPad(s[20..23]);
    SplitFields(s);
  }

  lemma SplitFields(s: string)
    requires |s| == 23 && s[4] == '/' && s[7] == '/' && s[10] == ' ' && s[13] == ':' && s[16] == ':' && s[19] == '.'
    ensures s == Three(s[..4], '/', s[5..7], '/', s[8..10]) + " "
                 + (Three(s[11..13], ':', s[14..16], ':', s[17..19]) + "." + s[20..23])
  {
    var date, clock := s[..10], s[11..19];
    assert date == Three(s[..4], '/', s[5..7], '/', s[8..10]);
    assert clock == Three(s[11..13], ':', s[14..16], ':', s[17..19]);
    assert s == date + " " + (clock + "." + s[20..23]);
  }

  // ----- the frame of a record: @? time -Antenna digits -U rest -----

  /** How many leading characters are decimal digits. */
  function DigitRun(s: string): nat {
    if s == "" || !IsDigit(s[0]) then 0 else 1 + DigitRun(s[1..])
  }

  lemma {:induction false} DigitRunIs(s: string, n: nat)
    requires n <= |s| && (forall i | 0 <= i < n :: IsDigit(s[i])) && (n < |s| ==> !IsDigit(s[n]))
    ensures DigitRun(s) == n
  {
    if n > 0 {
      DigitRunIs(s[1..], n - 1);
    }
  }

  lemma {:induction false} DigitRunLaws(s: string)
    ensures DigitRun(s) <= |s| && AllDigits(s[..DigitRun(s)])
  {
    if s != "" && IsDigit(s[0]) {
      DigitRunLaws(s[1..]);
      var n := DigitRun(s[1..]);
      assert s[..n + 1] == [s[0]] + s[1..][..n];
    }
  }

  datatype Frame = Frame(at: bool, time: Time, antenna: string, data: string)

  const ANTENNA := "-Antenna"

  function FrameText(f: Frame): string
    requires FitsTimeText(f.time)
  {
    (if f.at then "@" else "") + (TimeText(f.time) + (ANTENNA + (f.antenna + ("-U" + f.data))))
  }

  predicate FrameFits(f: Frame) {
    FitsTimeText(f.time) && f.antenna != "" && AllDigits(f.antenna) && OneLine(f.data)
  }

  /** The antenna and the data, from the text after the word -Antenna. */
  function ParseRest(t: string): Option<(string, string)> {
    var n := DigitRun(t);
    if 0 < n && n + 2 <= |t| && t[n] == '-' && t[n + 1] == 'U' && OneLine(t[n + 2..])
    then Some((t[..n], t[n + 2..])) else None
  }

  lemma RestIffPrinted(t: string, antenna: string, data: string)
    ensures ParseRest(t) == Some((antenna, data)) <==>
            antenna != "" && AllDigits(antenna) && OneLine(data) && t == antenna + ("-U" + data)
  {
    DigitRunLaws(t);
    var n := DigitRun(t);
    if ParseRest(t) == Some((antenna, data)) {
      assert t == t[..n] + ("-U" + t[n + 2..]);
    }
    if antenna != "" && AllDigits(antenna) && OneLine(data) && t == antenna + ("-U" + data) {
      var k := |antenna|;
      assert t[k] == '-' && t[k + 1] == 'U' && t[..k] == antenna && t[k + 2..] == data;
      DigitRunIs(t, k);
    }
  }

  function ParseFrame(response: string): Option<Frame> {
    var at := response != "" && response[0] == '@';
    var s := if at then response[1..] else response;
    if |s| < 31 || !IsTimeText(s[..23]) || s[23..31] != ANTENNA then None else
      var rest := ParseRest(s[31..]);
      if rest.None? then None
      else Some(Frame(at, ParseTime(s[..23]).value, rest.value.0, rest.value.1))
  }

  /** The accepted texts are exactly the printed frames, one text for each frame. */
  lemma FrameIffPrinted(response: string, f: Frame)
    ensures ParseFrame(response) == Some(f) <==> FrameFits(f) && response == FrameText(f)
  {
    if FrameFits(f) && response == FrameText(f) {
      PrintedFrame(f);
    }
    if ParseFrame(response) == Some(f) {
      AcceptedFrame(response);
    }
  }

  lemma PrintedFrame(f: Frame)
    requires FrameFits(f)
    ensures ParseFrame(FrameText(f)) == Some(f)
  {
    hide TimeText, IsTimeText, ParseTime, ParseRest, Pow10;
    TimeRoundTrip(f.time);
    var time, t := TimeText(f.time), f.antenna + ("-U" + f.data);
    TimeTextLength(time);
    RestIffPrinted(t, f.antenna, f.data);
    Prefixes(f.at, time, t);
  }

  /** Where the parts of a frame stand in its text. */
  lemma Prefixes(at: bool, time: string, t: string)
    requires |time| == 23 && time[0] != '@'
    ensures var response := (if at then "@" else "") + (time + (ANTENNA + t));
            && response != "" && (response[0] == '@' <==> at)
            && var s := if at then response[1..] else response;
               && |s| >= 31 && s[..23] == time && s[23..31] == ANTENNA && s[31..] == t
  {
    var s := time + (ANTENNA + t);
    assert s[..23] == time && s[23..31] == ANTENNA && s[31..] == t;
    assert ("@" + s)[1..] == s && "" + s == s && s[0] == time[0];
  }

  lemma TimeTextLength(s: string)
    requires IsTimeText(s)
    ensures |s| == 23 && s[0] != '@'
  {
    assert s[..4][0] == s[0];
  }

  lemma AcceptedFrame(response: string)
    requires ParseFrame(response).Some?
    ensures FrameFits(ParseFrame(response).value) && response == FrameText(ParseFrame(response).value)
  {
    hide TimeText, IsTimeText, ParseTime, ParseRest, Pow10, FitsTimeText;
    var f := ParseFrame(response).value;
    var s := if f.at then response[1..] else response;
    TimeTextRoundTrip(s[..23]);
    RestIffPrinted(s[31..], f.antenna, f.data);
    assert s == s[..23] + (s[23..31] + s[31..]);
    assert response == (if f.at then "@" else "") + s;
  }

  // ----- RfidParseUR -----

  /** Hexadecimal digits, a comma, an optional R, the rest: the EPC field and the second part. */
  function SplitData(data: string): Option<(string, string)> {
    var n := HexRun(data);
    if n < |data| && data[n] == ',' && OneLine(data[n + 1..]) then
      var rest := data[n + 1..];
      Some((data[..n], if rest != "" && rest[0] == 'R' then rest[1..] else rest))
    else None
  }

  function ParseUR(response: string, bank: Bank): Option<UR> {
    var frame := ParseFrame(response);
    if frame.None? then None else
      var f := frame.value;
      var plain := UR(f.time, f.antenna, f.data, None, "", "", "");
      var parts := if bank == NoBank then None else SplitData(f.data);
      if parts.None? then Some(plain) else
        var (field, part2) := parts.value;
        var read := plain.(epc := ParseEpc(field));
        Some(if |part2| == 1 then read.(err := part2)
             else if bank == UserBank then read.(user := part2)
             else read.(tid := part2))
  }

  /** A record as a reader prints it when an R command is bound to the U command. */
  function PrintUR(at: bool, time: Time, antenna: string, e: Epc, part2: string): string
    requires FitsTimeText(time)
  {
    FrameText(Frame(at, time, antenna, e.proto + e.epc + e.crc + ",R" + part2))
  }

  predicate EpcFits(e: Epc) {
    |e.proto| == 4 && |e.crc| == 4 && AllHex(e.proto) && AllHex(e.epc) && AllHex(e.crc)
  }

  lemma SplitPrinted(field: string, part2: string)
    requires AllHex(field) && OneLine(part2)
    ensures SplitData(field + ",R" + part2) == Some((field, part2))
    ensures OneLine(field + ",R" + part2)
  {
    var data, n := field + ",R" + part2, |field|;
    assert data[n] == ',' && data[n + 1..] == "R" + part2 && data[..n] == field;
    assert forall i | 0 <= i < n :: data[i] == field[i];
    HexRunIs(data, n);
    assert ("R" + part2)[1..] == part2;
  }

  /** Parsing a printed record gives back every field: the time, the antenna, the three parts of the
      EPC field, and the second part, as an error code when it is one character and as TID (or user
      data) otherwise. */
  lemma RecordRoundTrip(at: bool, time: Time, antenna: string, e: Epc, part2: string, bank: Bank)
    requires FitsTimeText(time) && antenna != "" && AllDigits(antenna) && EpcFits(e) && OneLine(part2)
    requires bank != NoBank
    ensures var data := e.proto + e.epc + e.crc + ",R" + part2;
            ParseUR(PrintUR(at, time, antenna, e, part2), bank)
            == Some(UR(time, antenna, data, Some(e),
                       if |part2| != 1 && bank != UserBank then part2 else "",
                       if |part2| != 1 && bank == UserBank then part2 else "",
                       if |part2| == 1 then part2 else ""))
  {
    hide FrameText, ParseFrame, SplitData, ParseEpc;
    var field := e.proto + e.epc + e.crc;
    EpcIffParts(field, e);
    assert AllHex(field);
    SplitPrinted(field, part2);
    var frame := Frame(at, time, antenna, field + ",R" + part2);
    FrameIffPrinted(FrameText(frame), frame);
  }

  /** The data is an EPC field and a second part: hexadecimal digits, a comma, an R or not, the rest. */
  predicate IsSplit(data: string, field: string, part2: string) {
    && AllHex(field) && OneLine(part2)
    && (data == field + ",R" + part2 || (data == field + "," + part2 && !("R" <= part2)))
  }

  lemma {:induction false} HexRunLaws(s: string)
    ensures HexRun(s) <= |s|
    ensures forall i | 0 <= i < HexRun(s) :: IsHex(s[i])
  {
    if s != "" && IsHex(s[0]) {
      HexRunLaws(s[1..]);
    }
  }

  lemma SplitIff(data: string, field: string, part2: string)
    ensures SplitData(data) == Some((field, part2)) <==> IsSplit(data, field, part2)
  {
    hide SplitData, IsSplit;
    SplitIsSplit(data);
    if IsSplit(data, field, part2) {
      SplitOnly(data, field, part2);
    }
  }

  lemma SplitIsSplit(data: string)
    ensures SplitData(data).Some? ==> IsSplit(data, SplitData(data).value.0, SplitData(data).value.1)
  {
    HexRunLaws(data);
    hide HexRun;
    if SplitData(data).Some? {
      var n := HexRun(data);
      var field, rest := data[..n], data[n + 1..];
      assert data == field + "," + rest;
      if rest != "" && rest[0] == 'R' {
        assert rest == "R" + rest[1..];
        assert data == field + ",R" + rest[1..];
      }
    }
  }

  lemma SplitOnly(data: string, field: string, part2: string)
    requires IsSplit(data, field, part2)
    ensures SplitData(data) == Some((field, part2))
  {
    var n := |field|;
    if data == field + ",R" + part2 {
      SplitPrinted(field, part2);
    } else {
      assert data[n] == ',' && data[n + 1..] == part2 && data[..n] == field;
      assert forall i | 0 <= i < n :: data[i] == field[i];
      HexRunIs(data, n);
      assert part2 != "" ==> ("R" <= part2 <==> part2[0] == 'R');
    }
  }

  /** What every frame is read as, whatever its data: time, antenna and data as they stand; and, if a bank
      with tag data is read and the data splits, the EPC of the field, if the field holds one, and the
      second part as an error code, as user data or as TID. */
  lemma FrameReads(f: Frame, bank: Bank)
    requires FrameFits(f)
    ensures ParseUR(FrameText(f), bank).Some?
    ensures var r := ParseUR(FrameText(f), bank).value;
            && (bank == NoBank || (forall field, part2 :: !IsSplit(f.data, field, part2)) ==>
                  r == UR(f.time, f.antenna, f.data, None, "", "", ""))
            && forall field, part2 | bank != NoBank && IsSplit(f.data, field, part2) ::
                 r == UR(f.time, f.antenna, f.data, ParseEpc(field),
                         if |part2| != 1 && bank != UserBank then part2 else "",
                         if |part2| != 1 && bank == UserBank then part2 else "",
                         if |part2| == 1 then part2 else "")
  {
    hide FrameText, ParseFrame, SplitData, IsSplit, ParseEpc;
    FrameIffPrinted(FrameText(f), f);
    forall field, part2 ensures SplitData(f.data) == Some((field, part2)) <==> IsSplit(f.data, field, part2) {
      SplitIff(f.data, field, part2);
    }
    if SplitData(f.data).Some? {
      var (field, part2) := SplitData(f.data).value;
      assert IsSplit(f.data, field, part2);
    }
  }

  /** A record is recognised exactly when its text is that of a frame; the bank makes no difference. */
  lemma RecognisedIffFrame(response: string, bank: Bank)
    ensures ParseUR(response, bank).Some? <==> exists f :: FrameFits(f) && response == FrameText(f)
  {
    if ParseFrame(response).Some? {
      FrameIffPrinted(response, ParseFrame(response).value);
    }
    forall f | FrameFits(f) && response == FrameText(f) ensures ParseFrame(response) == Some(f) {
      FrameIffPrinted(response, f);
    }
  }

  /** A recognised record has an antenna made of digits. */
  lemma AntennaDigits(response: string, bank: Bank)
    requires ParseUR(response, bank).Some?
    ensures ParseUR(response, bank).value.antenna != "" && AllDigits(ParseUR(response, bank).value.antenna)
  {
    hide ParseFrame, FrameText, SplitData, FitsTimeText;
    FrameIffPrinted(response, ParseFrame(response).value);
  }

  // ----- RfidParseU: the same frame, with nothing but the EPC field as data -----

  /** RfidParseU when it matches. */
  datatype U = U(time: Time, antenna: string, data: string, epc: Option<Epc>)

  function ParseU(response: string): Option<U> {
    var frame := ParseFrame(response);
    if frame.None? then None else
      var f := frame.value;
      Some(U(f.time, f.antenna, f.data, if f.data != "" then ParseEpc(f.data) else None))
  }

  /** What a U response reads as, for every data field: with an EPC exactly when the field is eight or
      more hexadecimal digits, and then its parts make up the field. */
  lemma InventoryReads(f: Frame)
    requires FrameFits(f)
    ensures var u := ParseU(FrameText(f));
            && u.Some? && u.value.time == f.time && u.value.antenna == f.antenna && u.value.data == f.data
            && (u.value.epc.Some? <==> AllHex(f.data) && |f.data| >= 8)
            && (u.value.epc.Some? ==> EpcFits(u.value.epc.value))
            && (u.value.epc.Some? ==>
                  f.data == u.value.epc.value.proto + u.value.epc.value.epc + u.value.epc.value.crc)
  {
    hide FrameText, ParseFrame;
    FrameIffPrinted(FrameText(f), f);
    var e := ParseEpc(f.data);
    if e.Some? {
      EpcIffParts(f.data, e.value);
    }
  }
}
