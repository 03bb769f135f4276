/** DoStatisticHelper: tag records aggregated into rows under three matching rules. */
module Statistics {
  import opened Results
  import opened Text
  import opened Sequences
  import opened TagRecord

  datatype Rule = ByEpc | ByTid | ByEpcOrTid

  /** RFID_EPC_STATISTICS; a text field is the C string it holds. */
  datatype Row = Row(epc: string, tid: string, readerId: string, count: nat, antenna: nat, time: Time)

  const INT_MAX: nat := 0x7FFF_FFFF

  /** The record takes part: it has data and a matched EPC. */
  predicate Counts(r: UR) {
    r.HasData() && r.epc.Some?
  }

  /** What the aggregation reads from a record that takes part. */
  datatype Sighting = Sighting(epc: string, tid: string, antenna: nat, time: Time)

  /** std::stoi on the digits of the antenna. */
  function Antenna(r: UR): Result<nat>
    requires Parsed(r)
  {
    var n := DecimalValue(r.antenna);
    if n <= INT_MAX then Ok(n) else Err(OutOfRange(0))
  }

  /** What every record that was parsed satisfies. */
  predicate Parsed(r: UR) {
    r.antenna != "" && AllDigits(r.antenna)
  }

  predicate AllParsed(records: seq<UR>) {
    forall i | 0 <= i < |records| :: Parsed(records[i])
  }

  // ----- one sighting -----

  /** The condition of the search for a row. */
  predicate Matches(rule: Rule, row: Row, s: Sighting) {
    && row.antenna == s.antenna
    && match rule
       case ByEpc => row.epc == s.epc
       case ByTid => s.tid != "" && row.tid == s.tid
       case ByEpcOrTid => row.epc == s.epc || row.tid == s.tid
  }

  /** The place of the first row that matches; the number of rows if none does. */
  function FindRow(rule: Rule, rows: seq<Row>, s: Sighting): (i: nat)
    ensures i <= |rows| && (i < |rows| ==> Matches(rule, rows[i], s))
    ensures forall j | 0 <= j < i :: !Matches(rule, rows[j], s)
  {
    if rows == [] || Matches(rule, rows[0], s) then 0 else FindRow(rule, rows[1..], s) + 1
  }

  function NewRow(s: Sighting, readerId: string): Row {
    Row(s.epc, s.tid, readerId, 1, s.antenna, s.time)
  }

  /** A row that one more sighting falls into: counted, and a missing TID filled in. */
  function Seen(row: Row, s: Sighting): Row {
    row.(count := row.count + 1, tid := if row.tid == "" then s.tid else row.tid)
  }

  function Tally(rule: Rule, readerId: string, rows: seq<Row>, s: Sighting): seq<Row> {
    var i := FindRow(rule, rows, s);
    if i == |rows| then rows + [NewRow(s, readerId)] else rows[i := Seen(rows[i], s)]
  }

  function TallyAll(rule: Rule, readerId: string, rows: seq<Row>, ss: seq<Sighting>): seq<Row> {
    if ss == [] then rows
    else Tally(rule, readerId, TallyAll(rule, readerId, rows, ss[..|ss| - 1]), ss[|ss| - 1])
  }

  /** The sightings of a list of records, up to the first one whose antenna is no int. */
  function Sightings(records: seq<UR>): seq<Sighting>
    requires AllParsed(records)
  {
    if records == [] then []
    else if !Counts(records[0]) then Sightings(records[1..])
    else
      var a := Antenna(records[0]);
      if a.Err? then []
      else [Sighting(records[0].epc.value.epc, records[0].tid, a.value, records[0].time)] + Sightings(records[1..])
  }

  /** All antennas are ints. */
  predicate AllFit(records: seq<UR>)
    requires AllParsed(records)
  {
    forall i | 0 <= i < |records| :: Counts(records[i]) ==> Antenna(records[i]).Ok?
  }

  // ----- the aggregation in place -----

  class StatTable {
    var rows: seq<Row>
    const readerId: string

    constructor (readerId: string)
      ensures rows == [] && this.readerId == readerId
    {
      rows := [];
      this.readerId := readerId;
    }

    /** std::find_if over the rows. */
    method FindIf(rule: Rule, s: Sighting) returns (p: nat)
      ensures p == FindRow(rule, rows, s)
    {
      p := 0;
      assert rows[0..] == rows;
      while p < |rows| && !Matches(rule, rows[p], s)
        invariant 0 <= p <= |rows|
        invariant FindRow(rule, rows, s) == p + FindRow(rule, rows[p..], s)
      {
        assert rows[p..][0] == rows[p] && rows[p..][1..] == rows[p + 1..];
        p := p + 1;
      }
      assert p < |rows| ==> rows[p..][0] == rows[p];
    }

    /** DoStatisticHelper. An antenna that is no int ends it with the exception of std::stoi; the
        records before that one have been counted. */
    method DoStatistic(readerResult: seq<UR>, rule: Rule) returns (r: Result<()>)
      requires AllParsed(readerResult)
      modifies this`rows
      ensures rows == TallyAll(rule, readerId, old(rows), Sightings(readerResult))
      ensures r == if AllFit(readerResult) then Ok(()) else Err(OutOfRange(0))
    {
      hide TallyAll, Tally, Sightings;
      ghost var done: seq<Sighting> := [];
      var k := 0;
      assert readerResult[0..] == readerResult;
      assert [] + Sightings(readerResult) == Sightings(readerResult);
      TallyNone(rule, readerId, rows);
      while k < |readerResult|
        invariant 0 <= k <= |readerResult|
        invariant AllFit(readerResult[..k])
        invariant done + Sightings(readerResult[k..]) == Sightings(readerResult)
        invariant rows == TallyAll(rule, readerId, old(rows), done)
      {
        var parse := readerResult[k];
        assert readerResult[..k + 1] == readerResult[..k] + [parse];
        NextSighting(readerResult, k);
        if Counts(parse) {
          var antenna := Antenna(parse);
          if antenna.Err? {
            assert done + [] == done;
            return Err(antenna.error);
          }
          var s := Sighting(parse.epc.value.epc, parse.tid, antenna.value, parse.time);
          Assoc(done, [s], Sightings(readerResult[k + 1..]));
          TallyOne(rule, readerId, old(rows), done, s);
          done := done + [s];
          Count(s, rule);
        }
        k := k + 1;
      }
      NoSightings();
      assert readerResult[k..] == [] && done + [] == done && readerResult[..k] == readerResult;
      return Ok(());
    }

    /** One turn of the loop: a new row, or one more for the row that matches. */
    method Count(s: Sighting, rule: Rule)
      modifies this`rows
      ensures rows == Tally(rule, readerId, old(rows), s)
    {
      var p := FindIf(rule, s);
      if p == |rows| {
        rows := rows + [NewRow(s, readerId)];
      } else {
        rows := rows[p := Seen(rows[p], s)];
      }
    }
  }

  lemma TallyNone(rule: Rule, readerId: string, rows: seq<Row>)
    ensures TallyAll(rule, readerId, rows, []) == rows
  {
  }

  lemma TallyOne(rule: Rule, readerId: string, rows: seq<Row>, ss: seq<Sighting>, s: Sighting)
    ensures TallyAll(rule, readerId, rows, ss + [s]) == Tally(rule, readerId, TallyAll(rule, readerId, rows, ss), s)
  {
    assert (ss + [s])[..|ss|] == ss;
  }

  lemma NoSightings()
    ensures Sightings([]) == []
  {
  }

  lemma NextSighting(records: seq<UR>, k: nat)
    requires k < |records| && AllParsed(records)
    ensures var r := records[k];
            Sightings(records[k..])
            == if !Counts(r) then Sightings(records[k + 1..])
               else if Antenna(r).Err? then []
               else [Sighting(r.epc.value.epc, r.tid, Antenna(r).value, r.time)] + Sightings(records[k + 1..])
  {
    assert records[k..][0] == records[k] && records[k..][1..] == records[k + 1..];
  }

  // ----- under every rule -----

  /** Aggregating one batch after the other is aggregating both at once. */
  lemma {:induction false} TallyAppend(rule: Rule, readerId: string, rows: seq<Row>, a: seq<Sighting>, b: seq<Sighting>)
    ensures TallyAll(rule, readerId, rows, a + b) == TallyAll(rule, readerId, TallyAll(rule, readerId, rows, a), b)
  {
    if b == [] {
      assert a + b == a;
    } else {
      var n := |b| - 1;
      hide Tally;
      TallyAppend(rule, readerId, rows, a, b[..n]);
      AppendLast(a, b);
    }
  }

  function Sum(rows: seq<Row>): nat {
    if rows == [] then 0 else Sum(rows[..|rows| - 1]) + rows[|rows| - 1].count
  }

  lemma {:induction false} SumUpdate(rows: seq<Row>, i: nat, row: Row)
    requires i < |rows|
    ensures Sum(rows[i := row]) + rows[i].count == Sum(rows) + row.count
  {
    var n := |rows| - 1;
    if i < n {
      assert rows[i := row][..n] == rows[..n][i := row];
      SumUpdate(rows[..n], i, row);
    } else {
      assert rows[i := row][..n] == rows[..n];
    }
  }

  /** Every sighting is counted exactly once: the counts add up to the number of sightings. */
  lemma {:induction false} CountsAddUp(rule: Rule, readerId: string, rows: seq<Row>, ss: seq<Sighting>)
    ensures Sum(TallyAll(rule, readerId, rows, ss)) == Sum(rows) + |ss|
  {
    if ss != [] {
      CountsAddUp(rule, readerId, rows, ss[..|ss| - 1]);
      var before, s := TallyAll(rule, readerId, rows, ss[..|ss| - 1]), ss[|ss| - 1];
      var i := FindRow(rule, before, s);
      if i == |before| {
        assert (before + [NewRow(s, readerId)])[..|before|] == before;
      } else {
        SumUpdate(before, i, Seen(before[i], s));
      }
    }
  }

  // ----- lists of records -----

  /** How many records take part. */
  function Participants(records: seq<UR>): nat {
    if records == [] then 0 else (if Counts(records[0]) then 1 else 0) + Participants(records[1..])
  }

  lemma FitStep(records: seq<UR>)
    requires records != [] && AllParsed(records)
    ensures AllParsed(records[1..])
    ensures AllFit(records) <==> (Counts(records[0]) ==> Antenna(records[0]).Ok?) && AllFit(records[1..])
  {
    hide Counts, Antenna, Parsed;
    if AllFit(records[1..]) {
      assert forall i | 0 < i < |records| :: records[i] == records[1..][i - 1];
    }
  }

  lemma SightingsCons(records: seq<UR>)
    requires records != [] && AllParsed(records)
    ensures var one, more := Sightings(records[..1]), Sightings(records[1..]);
            Sightings(records) == if Counts(records[0]) && Antenna(records[0]).Err? then [] else one + more
  {
    hide Counts, Antenna, Parsed;
    assert records[..1][0] == records[0] && records[..1][1..] == [];
  }

  /** The sightings of two lists, one after the other, unless the first list ends the reading. */
  lemma {:induction false} SightingsAppend(a: seq<UR>, b: seq<UR>)
    requires AllParsed(a) && AllParsed(b)
    ensures AllParsed(a + b)
    ensures Sightings(a + b) == Sightings(a) + if AllFit(a) then Sightings(b) else []
    ensures AllFit(a + b) <==> AllFit(a) && AllFit(b)
  {
    hide Counts, Antenna, Parsed;
    if a == [] {
      assert a + b == b;
    } else {
      hide AllFit;
      FitStep(a);
      FitStep(a + b);
      SightingsAppend(a[1..], b);
      AppendHead(a, b);
      SightingsCons(a);
      SightingsCons(a + b);
      hide Sightings;
      Assoc(Sightings(a[..1]), Sightings(a[1..]), Sightings(b));
    }
  }

  /** Every record that takes part is seen, exactly when all their antennas are ints. */
  lemma {:induction false} AllSeenIff(records: seq<UR>)
    requires AllParsed(records)
    ensures |Sightings(records)| <= Participants(records)
    ensures |Sightings(records)| == Participants(records) <==> AllFit(records)
  {
    hide Counts, Antenna, Parsed;
    if records != [] {
      hide AllFit;
      FitStep(records);
      AllSeenIff(records[1..]);
    }
  }

  /** Under every rule the counts add up to the number of records with data and a matched EPC, exactly
      when all antennas of these records are ints; otherwise they fall short of it. */
  lemma RecordsAddUpIff(rule: Rule, readerId: string, rows: seq<Row>, records: seq<UR>)
    requires AllParsed(records)
    ensures var sum := Sum(TallyAll(rule, readerId, rows, Sightings(records)));
            && sum <= Sum(rows) + Participants(records)
            && (sum == Sum(rows) + Participants(records) <==> AllFit(records))
  {
    hide TallyAll, Sightings, Sum, Participants, AllFit;
    CountsAddUp(rule, readerId, rows, Sightings(records));
    AllSeenIff(records);
  }

  /** Under every rule, aggregating one batch of records after the other is aggregating both at once,
      exactly when the first batch is read to its end, or the second has nothing to add. */
  lemma BatchesInTurnIff(rule: Rule, readerId: string, rows: seq<Row>, a: seq<UR>, b: seq<UR>)
    requires AllParsed(a) && AllParsed(b)
    ensures AllParsed(a + b)
    ensures TallyAll(rule, readerId, rows, Sightings(a + b))
            == TallyAll(rule, readerId, TallyAll(rule, readerId, rows, Sightings(a)), Sightings(b))
            <==> AllFit(a) || Sightings(b) == []
  {
    hide TallyAll, Sightings, Sum, AllFit;
    SightingsAppend(a, b);
    TallyAppend(rule, readerId, rows, Sightings(a), Sightings(b));
    assert Sightings(a) + [] == Sightings(a);
    CountsAddUp(rule, readerId, rows, Sightings(a));
    CountsAddUp(rule, readerId, rows, Sightings(a) + Sightings(b));
  }

  /** Inputs on which both laws fail: the record of an antenna that is no int takes part, but it is not
      seen, and with it in front nothing else is. */
  lemma TooLargeAntenna(time: Time, n: nat, e: Epc)
    requires FitsTimeText(time) && EpcFits(e) && n > INT_MAX
    ensures var bad := ParseUR(PrintUR(false, time, Decimal(n), e, ""), TidBank);
            var good := ParseUR(PrintUR(false, time, Decimal(INT_MAX), e, ""), TidBank);
            && bad.Some? && Parsed(bad.value) && good.Some? && Parsed(good.value)
            && Participants([bad.value]) == 1 && Sightings([bad.value]) == [] && !AllFit([bad.value])
            && Sightings([bad.value] + [good.value]) == [] && |Sightings([good.value])| == 1
  {
    hide PrintUR, ParseUR, FitsTimeText, Decimal, Sightings, Participants;
    DecimalRoundTrip(n);
    DecimalRoundTrip(INT_MAX);
    RecordRoundTrip(false, time, Decimal(n), e, "", TidBank);
    RecordRoundTrip(false, time, Decimal(INT_MAX), e, "", TidBank);
    var bad := ParseUR(PrintUR(false, time, Decimal(n), e, ""), TidBank).value;
    var good := ParseUR(PrintUR(false, time, Decimal(INT_MAX), e, ""), TidBank).value;
    OneRecord(bad);
    OneRecord(good);
    SightingsAppend([bad], [good]);
  }

  lemma OneRecord(r: UR)
    requires Parsed(r) && Counts(r)
    ensures Participants([r]) == 1 && |Sightings([r])| == (if Antenna(r).Ok? then 1 else 0)
    ensures AllFit([r]) <==> Antenna(r).Ok?
  {
    hide Antenna;
    assert [r][1..] == [] && [r][0] == r;
  }

  // ----- by EPC: an exact histogram -----

  datatype Key = Key(antenna: nat, epc: string)

  function KeyOf(s: Sighting): Key {
    Key(s.antenna, s.epc)
  }

  function RowKey(row: Row): Key {
    Key(row.antenna, row.epc)
  }

  function CountKey(ss: seq<Sighting>, k: Key): nat {
    if ss == [] then 0 else CountKey(ss[..|ss| - 1], k) + if KeyOf(ss[|ss| - 1]) == k then 1 else 0
  }

  /** The keys in the order in which they first occur. */
  function Keys(ss: seq<Sighting>): seq<Key> {
    if ss == [] then [] else
      var before, k := Keys(ss[..|ss| - 1]), KeyOf(ss[|ss| - 1]);
      if k in before then before else before + [k]
  }

  /** The first sighting with the key. */
  function First(ss: seq<Sighting>, k: Key): Option<Sighting> {
    if ss == [] then None else
      var before := First(ss[..|ss| - 1], k);
      if before.None? && KeyOf(ss[|ss| - 1]) == k then Some(ss[|ss| - 1]) else before
  }

  /** The first TID seen for the key that is not empty; empty if there is none. */
  function FirstTid(ss: seq<Sighting>, k: Key): string {
    if ss == [] then "" else
      var before := FirstTid(ss[..|ss| - 1], k);
      if before == "" && KeyOf(ss[|ss| - 1]) == k then ss[|ss| - 1].tid else before
  }

  /** The row belongs to the key: its count is the number of sightings with the key, its TID the first
      one seen, its time that of the first sighting. */
  predicate IsRowOf(row: Row, readerId: string, ss: seq<Sighting>, k: Key) {
    && RowKey(row) == k && row.readerId == readerId
    && row.count == CountKey(ss, k) && row.tid == FirstTid(ss, k)
    && First(ss, k).Some? && row.time == First(ss, k).value.time
  }

  /** One row for each key, in the order of first occurrence, and no other row. */
  predicate IsHistogram(rows: seq<Row>, readerId: string, ss: seq<Sighting>) {
    && |rows| == |Keys(ss)|
    && forall i | 0 <= i < |rows| :: IsRowOf(rows[i], readerId, ss, Keys(ss)[i])
  }

  lemma {:induction false} KeysLaws(ss: seq<Sighting>)
    ensures Distinct(Keys(ss))
    ensures forall k :: k in Keys(ss) <==> First(ss, k).Some?
    ensures forall k | k !in Keys(ss) :: CountKey(ss, k) == 0 && FirstTid(ss, k) == ""
  {
    if ss != [] {
      KeysLaws(ss[..|ss| - 1]);
      var before, k := Keys(ss[..|ss| - 1]), KeyOf(ss[|ss| - 1]);
      forall x ensures x in Keys(ss) <==> x in before || x == k {
      }
    }
  }

  /** Other keys do not notice a sighting. */
  lemma OtherRow(row: Row, readerId: string, ss: seq<Sighting>, s: Sighting, k: Key)
    requires IsRowOf(row, readerId, ss, k) && KeyOf(s) != k
    ensures IsRowOf(row, readerId, ss + [s], k)
  {
    assert (ss + [s])[..|ss|] == ss;
  }

  lemma SameRow(row: Row, readerId: string, ss: seq<Sighting>, s: Sighting)
    requires IsRowOf(row, readerId, ss, KeyOf(s))
    ensures IsRowOf(Seen(row, s), readerId, ss + [s], KeyOf(s))
  {
    assert (ss + [s])[..|ss|] == ss;
  }

  lemma FreshRow(readerId: string, ss: seq<Sighting>, s: Sighting)
    requires KeyOf(s) !in Keys(ss)
    ensures IsRowOf(NewRow(s, readerId), readerId, ss + [s], KeyOf(s))
  {
    assert (ss + [s])[..|ss|] == ss;
    KeysLaws(ss);
  }

  lemma HistogramStep(rows: seq<Row>, readerId: string, ss: seq<Sighting>, s: Sighting)
    requires IsHistogram(rows, readerId, ss)
    ensures IsHistogram(Tally(ByEpc, readerId, rows, s), readerId, ss + [s])
  {
    var all, keys := ss + [s], Keys(ss);
    assert all[..|ss|] == ss;
    KeysLaws(ss);
    var i, next := FindRow(ByEpc, rows, s), Tally(ByEpc, readerId, rows, s);
    assert forall j | 0 <= j < |rows| :: RowKey(rows[j]) == keys[j];
    assert forall j | 0 <= j < |rows| :: Matches(ByEpc, rows[j], s) <==> keys[j] == KeyOf(s);
    forall j | 0 <= j < |next| ensures IsRowOf(next[j], readerId, all, Keys(all)[j]) {
      if j == |rows| {
        FreshRow(readerId, ss, s);
      } else if j == i {
        SameRow(rows[j], readerId, ss, s);
      } else {
        OtherRow(rows[j], readerId, ss, s, keys[j]);
      }
    }
  }

  /** By EPC the rows are an exact histogram of the sightings by antenna and EPC. */
  lemma {:induction false} ByEpcIsHistogram(readerId: string, ss: seq<Sighting>)
    ensures IsHistogram(TallyAll(ByEpc, readerId, [], ss), readerId, ss)
  {
    if ss != [] {
      var before, s := ss[..|ss| - 1], ss[|ss| - 1];
      ByEpcIsHistogram(readerId, before);
      HistogramStep(TallyAll(ByEpc, readerId, [], before), readerId, before, s);
      assert before + [s] == ss;
    }
  }

  // ----- by TID -----

  function CountTid(ss: seq<Sighting>, antenna: nat, tid: string): nat {
    if ss == [] then 0 else
      CountTid(ss[..|ss| - 1], antenna, tid)
      + if ss[|ss| - 1].antenna == antenna && ss[|ss| - 1].tid == tid then 1 else 0
  }

  lemma CountTidOne(ss: seq<Sighting>, s: Sighting)
    ensures forall a: nat, t: string ::
      CountTid(ss + [s], a, t) == CountTid(ss, a, t) + if s.antenna == a && s.tid == t then 1 else 0
  {
    assert (ss + [s])[..|ss|] == ss;
  }

  /** The sightings that open a row: those whose TID, or lack of one, has not been seen at their antenna
      before, and, where `each` says so, each one without a TID. */
  function Openers(ss: seq<Sighting>, each: bool): seq<Sighting> {
    if ss == [] then [] else
      var front, s := ss[..|ss| - 1], ss[|ss| - 1];
      Openers(front, each)
      + if CountTid(front, s.antenna, s.tid) == 0 || (each && s.tid == "") then [s] else []
  }

  lemma OpenersOne(ss: seq<Sighting>, s: Sighting, each: bool)
    ensures Openers(ss + [s], each)
            == Openers(ss, each)
               + if CountTid(ss, s.antenna, s.tid) == 0 || (each && s.tid == "") then [s] else []
  {
    assert (ss + [s])[..|ss|] == ss;
  }

  /** `o` shows the TID at the antenna. */
  predicate Shows(o: Sighting, antenna: nat, tid: string) {
    o.antenna == antenna && o.tid == tid
  }

  /** Only what was seen opens a row, everything that was seen does, and no two openers share antenna and
      TID, unless each sighting without a TID opens a row. */
  ghost predicate AreOpeners(openers: seq<Sighting>, ss: seq<Sighting>, each: bool) {
    && (forall i | 0 <= i < |openers| :: CountTid(ss, openers[i].antenna, openers[i].tid) > 0)
    && (forall i, j | 0 <= i < j < |openers| && Shows(openers[i], openers[j].antenna, openers[j].tid) ::
          each && openers[i].tid == "")
    && (forall a: nat, t: string | CountTid(ss, a, t) > 0 ::
          exists i :: 0 <= i < |openers| && Shows(openers[i], a, t))
  }

  lemma {:induction false} OpenersLaws(ss: seq<Sighting>, each: bool)
    ensures AreOpeners(Openers(ss, each), ss, each)
  {
    hide AreOpeners;
    if ss == [] {
      NothingOpens(each);
    } else {
      var front, s := ss[..|ss| - 1], ss[|ss| - 1];
      assert ss == front + [s];
      OpenersLaws(front, each);
      OpenersStep(Openers(front, each), front, s, each);
    }
  }

  lemma OpenersStep(openers: seq<Sighting>, ss: seq<Sighting>, s: Sighting, each: bool)
    requires AreOpeners(openers, ss, each)
    ensures AreOpeners(openers + if CountTid(ss, s.antenna, s.tid) == 0 || (each && s.tid == "") then [s] else [],
                       ss + [s], each)
  {
    hide CountTid;
    CountTidOne(ss, s);
    var n := |openers|;
    var next := openers + if CountTid(ss, s.antenna, s.tid) == 0 || (each && s.tid == "") then [s] else [];
    assert forall i | 0 <= i < n :: next[i] == openers[i];
    assert forall i | n <= i < |next| :: next[i] == s;
    forall a: nat, t: string | CountTid(ss + [s], a, t) > 0
      ensures exists i :: 0 <= i < |next| && Shows(next[i], a, t)
    {
      if CountTid(ss, a, t) > 0 {
        var i :| 0 <= i < n && Shows(openers[i], a, t);
        assert Shows(next[i], a, t);
      } else {
        assert Shows(next[n], a, t);
      }
    }
  }

  lemma NothingOpens(each: bool)
    ensures AreOpeners(Openers([], each), [], each)
  {
    assert forall a: nat, t: string :: CountTid([], a, t) == 0;
  }

  /** The sightings without a TID. */
  function Untagged(ss: seq<Sighting>): seq<Sighting> {
    if ss == [] then [] else Untagged(ss[..|ss| - 1]) + if ss[|ss| - 1].tid == "" then [ss[|ss| - 1]] else []
  }

  lemma UntaggedOne(ss: seq<Sighting>, s: Sighting)
    ensures Untagged(ss + [s]) == Untagged(ss) + if s.tid == "" then [s] else []
  {
    assert (ss + [s])[..|ss|] == ss;
  }

  /** Each sighting without a TID opens a row of its own. */
  lemma {:induction false} UntaggedOpen(ss: seq<Sighting>)
    ensures Untagged(Openers(ss, true)) == Untagged(ss)
  {
    if ss != [] {
      hide CountTid, Openers, Untagged;
      var front, s := ss[..|ss| - 1], ss[|ss| - 1];
      assert ss == front + [s];
      UntaggedOpen(front);
      OpenersOne(front, s, true);
      UntaggedOne(front, s);
      UntaggedOne(Openers(front, true), s);
      assert Openers(front, true) + [] == Openers(front, true) && Untagged(front) + [] == Untagged(front);
    }
  }

  /** The row that a sighting has opened, after all sightings. */
  function RowOf(o: Sighting, readerId: string, ss: seq<Sighting>, each: bool): Row {
    Row(o.epc, o.tid, readerId, if each && o.tid == "" then 1 else CountTid(ss, o.antenna, o.tid), o.antenna, o.time)
  }

  /** Exactly the rows that the openers have opened, in their order. */
  predicate IsTidTable(rows: seq<Row>, readerId: string, ss: seq<Sighting>, each: bool) {
    && |rows| == |Openers(ss, each)|
    && forall i | 0 <= i < |rows| :: rows[i] == RowOf(Openers(ss, each)[i], readerId, ss, each)
  }

  /** The sighting matches just the rows that show its TID at its antenna; none if it opens its own. */
  predicate MatchesByTid(rule: Rule, rows: seq<Row>, s: Sighting, each: bool) {
    forall i | 0 <= i < |rows| ::
      Matches(rule, rows[i], s) <==>
        rows[i].antenna == s.antenna && rows[i].tid == s.tid && !(each && s.tid == "")
  }

  lemma TidStep(rule: Rule, rows: seq<Row>, readerId: string, ss: seq<Sighting>, s: Sighting, each: bool)
    requires IsTidTable(rows, readerId, ss, each) && MatchesByTid(rule, rows, s, each)
    ensures IsTidTable(Tally(rule, readerId, rows, s), readerId, ss + [s], each)
  {
    hide CountTid, Openers, FindRow, Matches;
    OpenersLaws(ss, each);
    var openers, i := Openers(ss, each), FindRow(rule, rows, s);
    assert forall j | 0 <= j < |rows| :: rows[j].antenna == openers[j].antenna && rows[j].tid == openers[j].tid;
    if i == |rows| {
      TidNew(rows, readerId, ss, s, each);
    } else {
      TidAgain(rows, readerId, ss, s, each, i);
    }
  }

  /** The sighting opens a row. */
  lemma TidNew(rows: seq<Row>, readerId: string, ss: seq<Sighting>, s: Sighting, each: bool)
    requires IsTidTable(rows, readerId, ss, each)
    requires forall i | 0 <= i < |Openers(ss, each)| ::
               Shows(Openers(ss, each)[i], s.antenna, s.tid) ==> each && s.tid == ""
    ensures IsTidTable(rows + [NewRow(s, readerId)], readerId, ss + [s], each)
  {
    hide CountTid, Openers;
    OpenersLaws(ss, each);
    OpenersOne(ss, s, each);
    CountTidOne(ss, s);
    assert CountTid(ss, s.antenna, s.tid) == 0 || (each && s.tid == "");
    OpenedBefore(rows, readerId, ss, s, each, |rows|);
  }

  /** The sighting falls into the row of an earlier one. */
  lemma TidAgain(rows: seq<Row>, readerId: string, ss: seq<Sighting>, s: Sighting, each: bool, i: nat)
    requires IsTidTable(rows, readerId, ss, each) && i < |rows|
    requires rows[i].antenna == s.antenna && rows[i].tid == s.tid && !(each && s.tid == "")
    ensures IsTidTable(rows[i := Seen(rows[i], s)], readerId, ss + [s], each)
  {
    hide CountTid, Openers;
    OpenersLaws(ss, each);
    OpenersOne(ss, s, each);
    CountTidOne(ss, s);
    var openers := Openers(ss, each);
    assert Shows(openers[i], s.antenna, s.tid);
    assert CountTid(ss, openers[i].antenna, openers[i].tid) > 0;
    assert forall j | 0 <= j < i :: !Shows(openers[j], openers[i].antenna, openers[i].tid);
    assert forall j | i < j < |openers| :: !Shows(openers[i], openers[j].antenna, openers[j].tid);
    OpenedBefore(rows, readerId, ss, s, each, i);
  }

  /** A sighting changes no row but its own. */
  lemma OpenedBefore(rows: seq<Row>, readerId: string, ss: seq<Sighting>, s: Sighting, each: bool, i: nat)
    requires IsTidTable(rows, readerId, ss, each)
    requires forall j | 0 <= j < |rows| && j != i ::
               Shows(Openers(ss, each)[j], s.antenna, s.tid) ==> each && s.tid == ""
    ensures forall j | 0 <= j < |rows| && j != i :: rows[j] == RowOf(Openers(ss, each)[j], readerId, ss + [s], each)
  {
    hide CountTid, Openers;
    CountTidOne(ss, s);
  }

  /** By TID the table is exact: one row for each TID of each antenna, counting its sightings, and one for
      each sighting without a TID, with count one; in the order in which they were opened, with the EPC and
      the time of the sighting that opened them. */
  lemma {:induction false} ByTidIsExact(readerId: string, ss: seq<Sighting>)
    ensures IsTidTable(TallyAll(ByTid, readerId, [], ss), readerId, ss, true)
  {
    hide IsTidTable, Tally;
    if ss == [] {
      NoTids(readerId, true);
    } else {
      var front, s := ss[..|ss| - 1], ss[|ss| - 1];
      ByTidIsExact(readerId, front);
      TidStep(ByTid, TallyAll(ByTid, readerId, [], front), readerId, front, s, true);
      assert front + [s] == ss;
    }
  }

  /** Every row has the TID of a sighting. */
  lemma UntaggedRows(rows: seq<Row>, readerId: string, ss: seq<Sighting>)
    requires IsTidTable(rows, readerId, ss, false) && forall i | 0 <= i < |ss| :: ss[i].tid == ""
    ensures forall i | 0 <= i < |rows| :: rows[i].tid == ""
  {
    UntaggedOpeners(ss);
  }

  lemma {:induction false} UntaggedOpeners(ss: seq<Sighting>)
    requires forall i | 0 <= i < |ss| :: ss[i].tid == ""
    ensures forall i | 0 <= i < |Openers(ss, false)| :: Openers(ss, false)[i].tid == ""
  {
    hide CountTid;
    if ss != [] {
      UntaggedOpeners(ss[..|ss| - 1]);
    }
  }

  lemma NoTids(readerId: string, each: bool)
    ensures IsTidTable([], readerId, [], each)
  {
  }

  // ----- by EPC or TID -----

  predicate EpcsUnique(rows: seq<Row>) {
    forall i, j | 0 <= i < j < |rows| && rows[i].antenna == rows[j].antenna :: rows[i].epc != rows[j].epc
  }

  /** By EPC or TID no two rows share antenna and EPC. */
  lemma {:induction false} ByEpcOrTidEpcsUnique(readerId: string, ss: seq<Sighting>)
    ensures EpcsUnique(TallyAll(ByEpcOrTid, readerId, [], ss))
  {
    if ss != [] {
      ByEpcOrTidEpcsUnique(readerId, ss[..|ss| - 1]);
      var before, s := TallyAll(ByEpcOrTid, readerId, [], ss[..|ss| - 1]), ss[|ss| - 1];
      assert forall j | 0 <= j < FindRow(ByEpcOrTid, before, s) :: !Matches(ByEpcOrTid, before[j], s);
    }
  }

  /** An empty TID matches an empty TID: while no tag has shown a TID, a table by EPC or TID holds a
      single row for each antenna that was seen, counting all its sightings, whatever the EPCs are. */
  lemma {:induction false} WithoutTidsOneRowEach(readerId: string, ss: seq<Sighting>)
    requires forall i | 0 <= i < |ss| :: ss[i].tid == ""
    ensures IsTidTable(TallyAll(ByEpcOrTid, readerId, [], ss), readerId, ss, false)
  {
    hide IsTidTable, Tally;
    if ss == [] {
      NoTids(readerId, false);
    } else {
      var front, s := ss[..|ss| - 1], ss[|ss| - 1];
      WithoutTidsOneRowEach(readerId, front);
      var rows := TallyAll(ByEpcOrTid, readerId, [], front);
      UntaggedRows(rows, readerId, front);
      TidStep(ByEpcOrTid, rows, readerId, front, s, false);
      assert front + [s] == ss;
    }
  }

  /** The i-th key stands before `k`, or `k` is not among the keys. */
  predicate IsBefore(keys: seq<Key>, i: nat, k: Key) {
    i < |keys| && k !in keys[..i + 1]
  }

  /** The sighting's TID does not lead it to another row: no row before its own, and no row at all if it
      has none yet, shows the TID at its antenna. */
  predicate OwnRowFirst(ss: seq<Sighting>, s: Sighting) {
    forall i: nat | i < |Keys(ss)| && IsBefore(Keys(ss), i, KeyOf(s)) && Keys(ss)[i].antenna == s.antenna ::
      FirstTid(ss, Keys(ss)[i]) != s.tid
  }

  predicate OwnRowsFirst(ss: seq<Sighting>) {
    ss != [] ==> OwnRowsFirst(ss[..|ss| - 1]) && OwnRowFirst(ss[..|ss| - 1], ss[|ss| - 1])
  }

  /** The search by EPC or TID finds the row of the EPC. */
  lemma SameSearchIff(readerId: string, ss: seq<Sighting>, s: Sighting)
    ensures var rows := TallyAll(ByEpc, readerId, [], ss);
            FindRow(ByEpcOrTid, rows, s) == FindRow(ByEpc, rows, s) <==> OwnRowFirst(ss, s)
  {
    hide TallyAll, Keys, FirstTid, First, CountKey;
    ByEpcIsHistogram(readerId, ss);
    KeysLaws(ss);
    var rows, keys := TallyAll(ByEpc, readerId, [], ss), Keys(ss);
    assert forall j | 0 <= j < |rows| :: IsRowOf(rows[j], readerId, ss, keys[j]);
    var own := FindRow(ByEpc, rows, s);
    assert forall j | 0 <= j < own :: keys[j] != KeyOf(s);
    assert own < |rows| ==> keys[own] == KeyOf(s);
    forall i: nat ensures IsBefore(keys, i, KeyOf(s)) <==> i < own {
      if own <= i < |keys| {
        assert keys[..i + 1][own] == KeyOf(s);
      }
    }
    assert OwnRowFirst(ss, s) <==> forall i | 0 <= i < own :: !Matches(ByEpcOrTid, rows[i], s);
  }

  // The other direction weighs a table: every sighting adds the place of the row it falls into. By EPC or
  // TID no sighting falls behind the row of its EPC, so a lighter place is never made up for.

  function Weight(rows: seq<Row>): nat {
    if rows == [] then 0 else Weight(rows[..|rows| - 1]) + (|rows| - 1) * rows[|rows| - 1].count
  }

  lemma {:induction false} WeightUpdate(rows: seq<Row>, i: nat, row: Row)
    requires i < |rows| && row.count == rows[i].count + 1
    ensures Weight(rows[i := row]) == Weight(rows) + i
  {
    var n := |rows| - 1;
    if i < n {
      assert rows[i := row][..n] == rows[..n][i := row];
      WeightUpdate(rows[..n], i, row);
    } else {
      assert rows[i := row][..n] == rows[..n];
      assert n * (rows[n].count + 1) == n * rows[n].count + n;
    }
  }

  lemma WeightTally(rule: Rule, readerId: string, rows: seq<Row>, s: Sighting)
    ensures Weight(Tally(rule, readerId, rows, s)) == Weight(rows) + FindRow(rule, rows, s)
  {
    var i := FindRow(rule, rows, s);
    if i == |rows| {
      assert (rows + [NewRow(s, readerId)])[..|rows|] == rows;
    } else {
      WeightUpdate(rows, i, Seen(rows[i], s));
    }
  }

  /** The rows have the first of these keys. */
  predicate HasKeys(rows: seq<Row>, keys: seq<Key>) {
    |rows| <= |keys| && forall i | 0 <= i < |rows| :: RowKey(rows[i]) == keys[i]
  }

  lemma KeysBefore(rule: Rule, readerId: string, rows: seq<Row>, s: Sighting, keys: seq<Key>)
    requires HasKeys(Tally(rule, readerId, rows, s), keys)
    ensures HasKeys(rows, keys)
  {
    var next := Tally(rule, readerId, rows, s);
    assert forall i | 0 <= i < |rows| :: RowKey(next[i]) == RowKey(rows[i]);
  }

  function PlaceOf(keys: seq<Key>, k: Key): (i: nat)
    requires k in keys
    ensures i < |keys| && keys[i] == k && k !in keys[..i]
  {
    if keys[0] == k then 0 else PlaceOf(keys[1..], k) + 1
  }

  /** No sighting falls behind the place of its key; by EPC it falls just there. */
  lemma FallsInto(rule: Rule, readerId: string, rows: seq<Row>, s: Sighting, keys: seq<Key>)
    requires rule != ByTid && Distinct(keys) && KeyOf(s) in keys && HasKeys(Tally(rule, readerId, rows, s), keys)
    ensures FindRow(rule, rows, s) <= PlaceOf(keys, KeyOf(s))
    ensures rule == ByEpc ==> FindRow(rule, rows, s) == PlaceOf(keys, KeyOf(s))
  {
    hide Distinct;
    KeysBefore(rule, readerId, rows, s, keys);
    var a, b := FindRow(rule, rows, s), PlaceOf(keys, KeyOf(s));
    var next := Tally(rule, readerId, rows, s);
    if b < |rows| {
      assert RowKey(rows[b]) == KeyOf(s);
      assert Matches(rule, rows[b], s);
    }
    if rule == ByEpc {
      assert RowKey(next[a]) == keys[a] == KeyOf(s);
      SamePlace(keys, a, b);
    }
  }

  lemma SamePlace(keys: seq<Key>, a: nat, b: nat)
    requires Distinct(keys) && a < |keys| && b < |keys| && keys[a] == keys[b]
    ensures a == b
  {
  }

  /** The places of the keys of all sightings, added up. */
  function Places(keys: seq<Key>, ss: seq<Sighting>): nat
    requires forall i | 0 <= i < |ss| :: KeyOf(ss[i]) in keys
  {
    if ss == [] then 0 else Places(keys, ss[..|ss| - 1]) + PlaceOf(keys, KeyOf(ss[|ss| - 1]))
  }

  lemma {:induction false} WeightOf(rule: Rule, readerId: string, ss: seq<Sighting>, keys: seq<Key>)
    requires rule != ByTid && Distinct(keys) && forall i | 0 <= i < |ss| :: KeyOf(ss[i]) in keys
    requires HasKeys(TallyAll(rule, readerId, [], ss), keys)
    ensures Weight(TallyAll(rule, readerId, [], ss)) <= Places(keys, ss)
    ensures rule == ByEpc ==> Weight(TallyAll(rule, readerId, [], ss)) == Places(keys, ss)
    ensures Weight(TallyAll(rule, readerId, [], ss)) == Places(keys, ss) ==>
              TallyAll(rule, readerId, [], ss) == TallyAll(ByEpc, readerId, [], ss)
              && (rule == ByEpcOrTid ==> OwnRowsFirst(ss))
  {
    if ss != [] {
      hide HasKeys, Distinct, Weight, Tally, Keys;
      var front, s := ss[..|ss| - 1], ss[|ss| - 1];
      var rows := TallyAll(rule, readerId, [], front);
      KeysBefore(rule, readerId, rows, s, keys);
      WeightOf(rule, readerId, front, keys);
      WeightTally(rule, readerId, rows, s);
      FallsInto(rule, readerId, rows, s, keys);
      if FindRow(rule, rows, s) == PlaceOf(keys, KeyOf(s)) && Weight(rows) == Places(keys, front) {
        SameTally(rule, readerId, front, s, keys);
      }
    }
  }

  lemma SameTally(rule: Rule, readerId: string, ss: seq<Sighting>, s: Sighting, keys: seq<Key>)
    requires rule != ByTid && Distinct(keys) && KeyOf(s) in keys
    requires HasKeys(Tally(rule, readerId, TallyAll(ByEpc, readerId, [], ss), s), keys)
    requires FindRow(rule, TallyAll(ByEpc, readerId, [], ss), s) == PlaceOf(keys, KeyOf(s))
    ensures Tally(rule, readerId, TallyAll(ByEpc, readerId, [], ss), s)
            == Tally(ByEpc, readerId, TallyAll(ByEpc, readerId, [], ss), s)
    ensures rule == ByEpcOrTid ==> OwnRowFirst(ss, s)
  {
    hide TallyAll, OwnRowFirst;
    var rows := TallyAll(ByEpc, readerId, [], ss);
    var i, own := FindRow(rule, rows, s), FindRow(ByEpc, rows, s);
    KeysBefore(rule, readerId, rows, s, keys);
    if i < |rows| {
      assert RowKey(rows[i]) == keys[i] == KeyOf(s);
    }
    assert forall j | 0 <= j < i :: keys[j] != KeyOf(s);
    assert own == i;
    SameSearchIff(readerId, ss, s);
  }

  /** By EPC or TID the table is the histogram by EPC, exactly when no sighting's TID leads it to an
      earlier row than its EPC does. */
  lemma HistogramIff(readerId: string, ss: seq<Sighting>)
    ensures TallyAll(ByEpcOrTid, readerId, [], ss) == TallyAll(ByEpc, readerId, [], ss) <==> OwnRowsFirst(ss)
    ensures OwnRowsFirst(ss) ==> IsHistogram(TallyAll(ByEpcOrTid, readerId, [], ss), readerId, ss)
  {
    hide OwnRowsFirst, TallyAll, Keys;
    ByEpcIsHistogram(readerId, ss);
    if OwnRowsFirst(ss) {
      OwnRowsGiveHistogram(readerId, ss);
    }
    if TallyAll(ByEpcOrTid, readerId, [], ss) == TallyAll(ByEpc, readerId, [], ss) {
      KeysLaws(ss);
      KeysSeen(ss);
      WeightOf(ByEpc, readerId, ss, Keys(ss));
      WeightOf(ByEpcOrTid, readerId, ss, Keys(ss));
    }
  }

  lemma {:induction false} KeysSeen(ss: seq<Sighting>)
    ensures forall i | 0 <= i < |ss| :: KeyOf(ss[i]) in Keys(ss)
  {
    if ss != [] {
      KeysSeen(ss[..|ss| - 1]);
      assert forall i | 0 <= i < |ss| - 1 :: ss[i] == ss[..|ss| - 1][i];
    }
  }

  lemma {:induction false} OwnRowsGiveHistogram(readerId: string, ss: seq<Sighting>)
    requires OwnRowsFirst(ss)
    ensures TallyAll(ByEpcOrTid, readerId, [], ss) == TallyAll(ByEpc, readerId, [], ss)
  {
    hide OwnRowFirst;
    if ss != [] {
      OwnRowsGiveHistogram(readerId, ss[..|ss| - 1]);
      SameSearchIff(readerId, ss[..|ss| - 1], ss[|ss| - 1]);
    }
  }

  /** So it is whenever, at each antenna, a TID (or its absence) stands for one EPC. */
  predicate TidNamesEpc(ss: seq<Sighting>) {
    forall i, j | 0 <= i < |ss| && 0 <= j < |ss| && ss[i].antenna == ss[j].antenna && ss[i].tid == ss[j].tid ::
      ss[i].epc == ss[j].epc
  }

  lemma {:induction false} TidNamesEpcSuffices(ss: seq<Sighting>)
    requires TidNamesEpc(ss)
    ensures OwnRowsFirst(ss)
  {
    if ss != [] {
      var n := |ss| - 1;
      var front, s := ss[..n], ss[n];
      TidNamesEpcSuffices(front);
      forall i: nat | IsBefore(Keys(front), i, KeyOf(s)) && Keys(front)[i].antenna == s.antenna
        ensures FirstTid(front, Keys(front)[i]) != s.tid
      {
        var k := Keys(front)[i];
        KeysLaws(front);
        var m := FirstTidSeen(front, k);
        assert ss[m] == front[m] && k in Keys(front)[..i + 1];
      }
    }
  }

  /** Some sighting of the key shows the first TID. */
  lemma {:induction false} FirstTidSeen(ss: seq<Sighting>, k: Key) returns (m: nat)
    requires k in Keys(ss)
    ensures m < |ss| && KeyOf(ss[m]) == k && ss[m].tid == FirstTid(ss, k)
  {
    var n := |ss| - 1;
    KeysLaws(ss[..n]);
    if k in Keys(ss[..n]) && (FirstTid(ss[..n], k) != "" || KeyOf(ss[n]) != k) {
      m := FirstTidSeen(ss[..n], k);
    } else {
      m := n;
    }
  }

  /** Otherwise a TID may draw a sighting into the row of another EPC: here the second one is counted
      with the first, and its own EPC has no row. */
  lemma TidMergesEpcs(readerId: string, antenna: nat, time: Time, a: string, b: string, tid: string)
    requires a != b
    ensures var ss := [Sighting(a, tid, antenna, time), Sighting(b, tid, antenna, time)];
            && TallyAll(ByEpcOrTid, readerId, [], ss) == [Row(a, tid, readerId, 2, antenna, time)]
            && !OwnRowsFirst(ss)
            && TallyAll(ByEpcOrTid, readerId, [], ss) != TallyAll(ByEpc, readerId, [], ss)
  {
    hide FindRow, TallyAll, OwnRowsFirst;
    var s, s2 := Sighting(a, tid, antenna, time), Sighting(b, tid, antenna, time);
    var one := [NewRow(s, readerId)];
    assert [] + [s] == [s] && [s] + [s2] == [s, s2];
    TallyNone(ByEpcOrTid, readerId, []);
    TallyOne(ByEpcOrTid, readerId, [], [], s);
    TallyOne(ByEpcOrTid, readerId, [], [s], s2);
    assert TallyAll(ByEpcOrTid, readerId, [], [s]) == one;
    assert Matches(ByEpcOrTid, one[0], s2);
    assert FindRow(ByEpcOrTid, one, s2) == 0;
    assert one[0 := Seen(one[0], s2)] == [Seen(one[0], s2)];
    TallyNone(ByEpc, readerId, []);
    TallyOne(ByEpc, readerId, [], [], s);
    TallyOne(ByEpc, readerId, [], [s], s2);
    assert !Matches(ByEpc, one[0], s2);
    HistogramIff(readerId, [s, s2]);
  }

  // ----- by EPC or TID: when a TID has one row -----

  /** Two rows of the same antenna differ in their TIDs, unless those are empty. */
  predicate TidsUnique(rows: seq<Row>) {
    forall i, j | 0 <= i < j < |rows| && rows[i].antenna == rows[j].antenna && rows[i].tid != "" ::
      rows[i].tid != rows[j].tid
  }

  /** The sighting falls into a row without a TID and fills in one that a row of its antenna shows already. */
  predicate Repeats(rows: seq<Row>, s: Sighting) {
    var i := FindRow(ByEpcOrTid, rows, s);
    && i < |rows| && rows[i].tid == "" && s.tid != ""
    && exists j :: 0 <= j < |rows| && rows[j].antenna == s.antenna && rows[j].tid == s.tid
  }

  predicate NoneRepeats(readerId: string, ss: seq<Sighting>) {
    ss != [] ==>
      && NoneRepeats(readerId, ss[..|ss| - 1])
      && !Repeats(TallyAll(ByEpcOrTid, readerId, [], ss[..|ss| - 1]), ss[|ss| - 1])
  }

  /** By EPC or TID, TIDs are unique per antenna exactly when no sighting fills in a TID that another row
      shows already; a TID that has two rows keeps them. */
  lemma {:induction false} TidsUniqueIff(readerId: string, ss: seq<Sighting>)
    ensures TidsUnique(TallyAll(ByEpcOrTid, readerId, [], ss)) <==> NoneRepeats(readerId, ss)
  {
    if ss != [] {
      hide TidsUnique, Repeats, Tally;
      TidsUniqueIff(readerId, ss[..|ss| - 1]);
      TidsUniqueStep(readerId, TallyAll(ByEpcOrTid, readerId, [], ss[..|ss| - 1]), ss[|ss| - 1]);
    }
  }

  lemma TidsUniqueStep(readerId: string, rows: seq<Row>, s: Sighting)
    ensures TidsUnique(Tally(ByEpcOrTid, readerId, rows, s)) <==> TidsUnique(rows) && !Repeats(rows, s)
  {
    hide FindRow;
    var i, next := FindRow(ByEpcOrTid, rows, s), Tally(ByEpcOrTid, readerId, rows, s);
    assert forall j | 0 <= j < |rows| :: next[j].antenna == rows[j].antenna;
    assert forall j | 0 <= j < |rows| && j != i :: next[j].tid == rows[j].tid;
    if Repeats(rows, s) {
      var j :| 0 <= j < |rows| && rows[j].antenna == s.antenna && rows[j].tid == s.tid;
      assert next[i].tid == next[j].tid;
    }
    if !TidsUnique(rows) {
      var p, q :| 0 <= p < q < |rows| && rows[p].antenna == rows[q].antenna
                  && rows[p].tid != "" && rows[p].tid == rows[q].tid;
      assert next[p].tid == rows[p].tid && next[q].tid == rows[q].tid;
    }
    if i == |rows| {
      assert forall j | 0 <= j < |rows| :: !Matches(ByEpcOrTid, rows[j], s);
    }
  }

  /** A TID may be shown by two rows of one antenna: the last sighting falls into the first row
      by its EPC and fills in the TID that the second row shows already. */
  lemma TidsMayRepeat(readerId: string, antenna: nat, time: Time, a: string, b: string, tid: string)
    requires a != b && tid != ""
    ensures var s := Sighting(a, "", antenna, time);
            var ss := [s, s.(epc := b, tid := tid), s.(tid := tid)];
            && TallyAll(ByEpcOrTid, readerId, [], ss)
               == [Row(a, tid, readerId, 2, antenna, time), Row(b, tid, readerId, 1, antenna, time)]
            && !NoneRepeats(readerId, ss)
  {
    hide FindRow, TallyAll, NoneRepeats;
    var s := Sighting(a, "", antenna, time);
    var s2, s3 := s.(epc := b, tid := tid), s.(tid := tid);
    TallyNone(ByEpcOrTid, readerId, []);
    TallyOne(ByEpcOrTid, readerId, [], [], s);
    TallyOne(ByEpcOrTid, readerId, [], [s], s2);
    TallyOne(ByEpcOrTid, readerId, [], [s, s2], s3);
    assert [] + [s] == [s] && [s] + [s2] == [s, s2] && [s, s2] + [s3] == [s, s2, s3];
    var one, two := NewRow(s, readerId), NewRow(s2, readerId);
    assert TallyAll(ByEpcOrTid, readerId, [], [s]) == [one];
    assert !Matches(ByEpcOrTid, one, s2);
    assert TallyAll(ByEpcOrTid, readerId, [], [s, s2]) == [one, two];
    var rows := [one, two];
    assert Matches(ByEpcOrTid, rows[0], s3);
    assert FindRow(ByEpcOrTid, rows, s3) == 0;
    assert rows[0 := Seen(one, s3)] == [Seen(one, s3), two];
    assert [Seen(one, s3), two][0].tid == [Seen(one, s3), two][1].tid;
    TidsUniqueIff(readerId, [s, s2, s3]);
  }
}
