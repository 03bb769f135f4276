/** Records written as JSON and read back: to_json and from_json of the parser's classes. */
module RecordJson {
  import opened Results
  import opened Text
  import opened JsonValue
  import opened TagRecord

  // ----- reading one member -----

  /** at() with a member's name. */
  function At(j: Json, name: string): Result<Json> {
    if !j.Object? then Err(TypeError(304))
    else if name in j.members then Ok(j.members[name])
    else Err(OutOfRange(403))
  }

  function BoolAt(j: Json, name: string): Result<bool> {
    var v :- At(j, name);
    if v.Bool? then Ok(v.b) else Err(TypeError(302))
  }

  function StringAt(j: Json, name: string): Result<string> {
    var v :- At(j, name);
    if v.String? then Ok(v.s) else Err(TypeError(302))
  }

  /** A number is read into an int; so is a boolean. */
  function IntAt(j: Json, name: string): Result<int> {
    var v :- At(j, name);
    match v
    case Number(n) => Ok(n)
    case Bool(b) => Ok(if b then 1 else 0)
    case _ => Err(TypeError(302))
  }

  // ----- RfidTime, RfidParseEPC -----

  function TimeToJson(t: Time): Json {
    Object(map["is_match" := Bool(true), "year" := Number(t.year), "month" := Number(t.month),
               "day" := Number(t.day), "hour" := Number(t.hour), "min" := Number(t.min),
               "sec" := Number(t.sec), "ms" := Number(t.ms)])
  }

  function TimeFromJson(j: Json): Result<Time> {
    var _ :- BoolAt(j, "is_match");
    var year :- IntAt(j, "year");
    var month :- IntAt(j, "month");
    var day :- IntAt(j, "day");
    var hour :- IntAt(j, "hour");
    var min :- IntAt(j, "min");
    var sec :- IntAt(j, "sec");
    var ms :- IntAt(j, "ms");
    Ok(Time(year, month, day, hour, min, sec, ms))
  }

  /** An EPC without a match is written without its parts. */
  function EpcToJson(e: Option<Epc>): Json {
    match e
    case Some(epc) =>
      Object(map["is_match" := Bool(true), "proto" := String(epc.proto), "epc" := String(epc.epc),
                 "crc" := String(epc.crc)])
    case None => Object(map["is_match" := Bool(false)])
  }

  /** Reading needs the parts whether there was a match or not. */
  function EpcFromJson(j: Json): Result<Option<Epc>> {
    var isMatch :- BoolAt(j, "is_match");
    var proto :- StringAt(j, "proto");
    var epc :- StringAt(j, "epc");
    var crc :- StringAt(j, "crc");
    Ok(if isMatch then Some(Epc(proto, epc, crc)) else None)
  }

  // ----- RfidParseUR -----

  /** A record without data is written without its fields. */
  function ToJson(r: UR): Json {
    if r.HasData() then
      Object(map["is_match" := Bool(true), "has_data" := Bool(true), "antenna" := String(r.antenna),
                 "data" := String(r.data), "tid" := String(r.tid), "user" := String(r.user),
                 "err" := String(r.err), "time" := TimeToJson(r.time), "epc" := EpcToJson(r.epc)])
    else
      Object(map["is_match" := Bool(true), "has_data" := Bool(false)])
  }

  datatype Read = Read(isMatch: bool, hasData: bool, r: UR)

  function FromJson(j: Json): Result<Read> {
    var isMatch :- BoolAt(j, "is_match");
    var hasData :- BoolAt(j, "has_data");
    var t :- At(j, "time");
    var time :- TimeFromJson(t);
    var antenna :- StringAt(j, "antenna");
    var data :- StringAt(j, "data");
    var e :- At(j, "epc");
    var epc :- EpcFromJson(e);
    var tid :- StringAt(j, "tid");
    var user :- StringAt(j, "user");
    var err :- StringAt(j, "err");
    Ok(Read(isMatch, hasData, UR(time, antenna, data, epc, tid, user, err)))
  }

  lemma TimeJsonRoundTrip(t: Time)
    ensures TimeFromJson(TimeToJson(t)) == Ok(t)
  {
  }

  lemma EpcJson(e: Option<Epc>)
    ensures EpcFromJson(EpcToJson(e)) == if e.Some? then Ok(e) else Err(OutOfRange(403))
  {
  }

  /** What is written can be read back, field for field, exactly when the record has data and a matched
      EPC; otherwise reading fails, because a part that writing leaves out is missing. */
  lemma JsonRoundTrip(r: UR)
    ensures FromJson(ToJson(r))
            == if r.HasData() && r.epc.Some? then Ok(Read(true, true, r)) else Err(OutOfRange(403))
  {
    hide TimeToJson, TimeFromJson, EpcToJson, EpcFromJson;
    TimeJsonRoundTrip(r.time);
    EpcJson(r.epc);
  }
}
