/** From the texts of a reader to the rows of a table. */
module Inventory {
  import opened Results
  import opened Text
  import opened Sequences
  import opened Framing
  import opened TagRecord
  import opened Statistics

  /** The records that the responses hold: those that are recognised and have data. */
  function Records(responses: seq<string>, bank: Bank): seq<UR> {
    if responses == [] then [] else
      var parseUR := ParseUR(responses[|responses| - 1], bank);
      Records(responses[..|responses| - 1], bank)
      + if parseUR.Some? && parseUR.value.HasData() then [parseUR.value] else []
  }

  /** ReadBankHelper's loop, for a valid handle: the responses' records are added to the results. */
  method ReadBank(readMb: seq<string>, bank: Bank, results: seq<UR>) returns (r: seq<UR>)
    requires AllParsed(results)
    ensures r == results + Records(readMb, bank) && AllParsed(r)
  {
    hide ParseUR, UR.HasData;
    r := results;
    var k := 0;
    while k < |readMb|
      invariant 0 <= k <= |readMb|
      invariant r == results + Records(readMb[..k], bank) && AllParsed(r)
    {
      assert readMb[..k + 1][..k] == readMb[..k];
      var parseUR := ParseUR(readMb[k], bank);
      if parseUR.Some? && parseUR.value.HasData() {
        AntennaDigits(readMb[k], bank);
        r := r + [parseUR.value];
      }
      k := k + 1;
    }
    assert readMb[..|readMb|] == readMb;
  }

  // ----- which responses count -----

  /** The response is a frame with data: a tag was in the field. */
  ghost predicate Reports(response: string, f: Frame) {
    FrameFits(f) && f.data != "" && response == FrameText(f)
  }

  /** A response contributes its record exactly if it is a frame with data, and nothing otherwise. */
  lemma OneResponseIff(response: string, bank: Bank)
    ensures (forall f :: !Reports(response, f)) ==> Records([response], bank) == []
    ensures forall f | Reports(response, f) ::
              && |Records([response], bank)| == 1
              && ParseUR(response, bank) == Some(Records([response], bank)[0])
              && var r := Records([response], bank)[0];
                 r.time == f.time && r.antenna == f.antenna && r.data == f.data
  {
    hide FrameText, FitsTimeText, ParseUR, Records;
    RecordsOne(response, bank);
    RecognisedIffFrame(response, bank);
    forall f | FrameFits(f) && response == FrameText(f)
      ensures ParseUR(response, bank).Some?
      ensures var r := ParseUR(response, bank).value; r.time == f.time && r.antenna == f.antenna && r.data == f.data
    {
      FrameFields(f, bank);
    }
    if Records([response], bank) != [] {
      var f :| FrameFits(f) && response == FrameText(f);
      assert Reports(response, f);
    }
  }

  lemma FrameFields(f: Frame, bank: Bank)
    requires FrameFits(f)
    ensures ParseUR(FrameText(f), bank).Some?
    ensures var r := ParseUR(FrameText(f), bank).value; r.time == f.time && r.antenna == f.antenna && r.data == f.data
  {
    hide FrameText, ParseFrame, SplitData;
    FrameIffPrinted(FrameText(f), f);
  }

  lemma RecordsOne(response: string, bank: Bank)
    ensures var r := ParseUR(response, bank);
            Records([response], bank) == if r.Some? && r.value.HasData() then [r.value] else []
  {
    hide ParseUR;
    assert [response][..0] == [];
  }

  /** The responses are read one after the other: the records of two lists are those of the first, followed
      by those of the second; and every record has data. */
  lemma {:induction false} RecordsAppend(a: seq<string>, b: seq<string>, bank: Bank)
    ensures Records(a + b, bank) == Records(a, bank) + Records(b, bank)
    ensures forall r | r in Records(b, bank) :: r.HasData()
  {
    hide ParseUR;
    if b == [] {
      assert a + b == a;
    } else {
      var n := |b| - 1;
      RecordsAppend(a, b[..n], bank);
      AppendLast(a, b);
      var r := ParseUR(b[n], bank);
      Assoc(Records(a, bank), Records(b[..n], bank), if r.Some? && r.value.HasData() then [r.value] else []);
    }
  }

  // ----- reported tags -----

  /** A tag as a reader reports it. */
  datatype Tag = Tag(at: bool, time: Time, antenna: nat, e: Epc, part2: string)

  predicate TagFits(t: Tag) {
    FitsTimeText(t.time) && t.antenna <= INT_MAX && EpcFits(t.e) && OneLine(t.part2)
  }

  function TagText(t: Tag): string
    requires TagFits(t)
  {
    PrintUR(t.at, t.time, Decimal(t.antenna), t.e, t.part2)
  }

  /** What the statistics see of a tag: a second part of one character is an error code, no TID. */
  function SightingOf(t: Tag): Sighting {
    Sighting(t.e.epc, if |t.part2| == 1 then "" else t.part2, t.antenna, t.time)
  }

  predicate AllTagsFit(tags: seq<Tag>) {
    forall i | 0 <= i < |tags| :: TagFits(tags[i])
  }

  function TagTexts(tags: seq<Tag>): seq<string>
    requires AllTagsFit(tags)
  {
    if tags == [] then [] else TagTexts(tags[..|tags| - 1]) + [TagText(tags[|tags| - 1])]
  }

  function SightingsOf(tags: seq<Tag>): seq<Sighting> {
    if tags == [] then [] else SightingsOf(tags[..|tags| - 1]) + [SightingOf(tags[|tags| - 1])]
  }

  lemma TagIsRead(t: Tag, bank: Bank)
    requires TagFits(t) && (bank == EpcBank || bank == TidBank)
    ensures var r := ParseUR(TagText(t), bank);
            && r.Some? && Parsed(r.value) && Counts(r.value) && Antenna(r.value) == Ok(t.antenna)
            && SightingOf(t) == Sighting(r.value.epc.value.epc, r.value.tid, t.antenna, r.value.time)
  {
    hide PrintUR, ParseUR, FitsTimeText, Decimal;
    DecimalRoundTrip(t.antenna);
    RecordRoundTrip(t.at, t.time, Decimal(t.antenna), t.e, t.part2, bank);
  }

  /** The whole way: the texts that a reader prints for a list of tags are read, parsed and aggregated
      as the sightings of exactly these tags, in their order. */
  lemma {:induction false} TagsAreSeen(tags: seq<Tag>, bank: Bank)
    requires AllTagsFit(tags) && (bank == EpcBank || bank == TidBank)
    ensures AllParsed(Records(TagTexts(tags), bank)) && AllFit(Records(TagTexts(tags), bank))
    ensures Sightings(Records(TagTexts(tags), bank)) == SightingsOf(tags)
  {
    hide ParseUR, TagText, TagFits, Antenna;
    if tags == [] {
      NoSightings();
    } else {
      var before, t := tags[..|tags| - 1], tags[|tags| - 1];
      TagsAreSeen(before, bank);
      TagIsRead(t, bank);
      assert TagTexts(tags)[..|tags| - 1] == TagTexts(before) by {
        TextCount(before);
      }
      TextCount(tags);
      var r := ParseUR(TagText(t), bank).value;
      assert Records(TagTexts(tags), bank) == Records(TagTexts(before), bank) + [r];
      SightingsAppend(Records(TagTexts(before), bank), [r]);
      NextSighting([r], 0);
      NoSightings();
    }
  }

  lemma {:induction false} TextCount(tags: seq<Tag>)
    requires AllTagsFit(tags)
    ensures |TagTexts(tags)| == |tags|
  {
    if tags != [] {
      TextCount(tags[..|tags| - 1]);
    }
  }

  /** A table by EPC of reported tags is the exact histogram of these tags. */
  method CountTags(tags: seq<Tag>, readerId: string) returns (rows: seq<Row>)
    requires AllTagsFit(tags)
    ensures IsHistogram(rows, readerId, SightingsOf(tags))
  {
    hide IsHistogram, Records, SightingsOf, TagTexts, TagFits, AllFit, AllParsed, Sightings, TallyAll;
    var results := ReadNothing();
    results := ReadBank(TagTexts(tags), TidBank, results);
    assert results == Records(TagTexts(tags), TidBank);
    TagsAreSeen(tags, TidBank);
    var table := new StatTable(readerId);
    var r := table.DoStatistic(results, ByEpc);
    ByEpcIsHistogram(readerId, SightingsOf(tags));
    rows := table.rows;
  }

  method ReadNothing() returns (results: seq<UR>)
    ensures results == [] && AllParsed(results)
  {
    results := [];
  }
}
