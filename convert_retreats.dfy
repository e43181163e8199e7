/** Retreat normalisation: each hand-written retreat record gets an end date `Days` calendar
    days after its start, both dates written as `YYYY-MM-DD` text, and every other field
    copied through. */
module ConvertRetreats {
  import opened Calendar
  import opened DateText
  import opened Wrappers

  /** A retreat as written by hand: the start as text and its length in days. */
  datatype RawRetreat = RawRetreat(name: string, start: string, days: int, lat: real, lon: real, kind: string)

  /** A retreat as exported: start and end as text, and the length kept as Duration_Days. */
  datatype Retreat = Retreat(name: string, start: string, end: string, durationDays: int,
                             lat: real, lon: real, kind: string)

  /** Why a record cannot be converted: its start is not a date, or its end date falls
      outside the representable years. */
  datatype RetreatError = BadStart(text: string) | EndOutOfRange(start: string, days: int)

  /** The day number of a start text that reads as a date. */
  function StartDay(r: RawRetreat): int
    requires Parse(r.start).Some?
  {
    ToDay(Parse(r.start).value)
  }

  /** One record: End = Start + Days, both dates formatted, the other fields copied. */
  function ProcessRetreat(r: RawRetreat): (res: Result<Retreat, RetreatError>)
    ensures res.Success? <==> Parse(r.start).Some? && InRange(StartDay(r) + r.days)
  {
    match Parse(r.start)
    case None => Failure(BadStart(r.start))
    case Some(start) =>
      if InRange(ToDay(start) + r.days) then
        var end := AddDays(start, r.days);
        Success(Retreat(r.name, Format(start), Format(end), r.days, r.lat, r.lon, r.kind))
      else Failure(EndOutOfRange(r.start, r.days))
  }

  /** A converted record keeps the start text, reads back to a start and an end exactly
      `Days` days apart, and copies name, duration, coordinates and kind unchanged. */
  lemma ProcessRetreatSpec(r: RawRetreat)
    requires ProcessRetreat(r).Success?
    ensures var out := ProcessRetreat(r).value;
      && out.start == r.start
      && Parse(out.start).Some? && Parse(out.end).Some?
      && ToDay(Parse(out.end).value) == ToDay(Parse(out.start).value) + r.days
      && out.durationDays == r.days
      && out.name == r.name && out.lat == r.lat && out.lon == r.lon && out.kind == r.kind
  {
    var start := Parse(r.start).value;
    var end := AddDays(start, r.days);
    FormatParse(r.start);
    ParseFormat(end);
  }

  /** The end date is the start date moved by `Days` days through the calendar, month and
      year carries and leap days included: it is the date with that day number. */
  lemma ProcessRetreatEnd(r: RawRetreat)
    requires ProcessRetreat(r).Success?
    ensures Parse(ProcessRetreat(r).value.end) == Some(FromDay(StartDay(r) + r.days))
  {
    var start := Parse(r.start).value;
    var end := AddDays(start, r.days);
    ParseFormat(end);
    FromDayToDay(end);
  }

  /** A retreat of at least one day ends strictly after it starts, in text order as well. */
  lemma EndAfterStart(r: RawRetreat)
    requires ProcessRetreat(r).Success? && r.days >= 1
    ensures var out := ProcessRetreat(r).value;
      Parse(out.start).Some? && Parse(out.end).Some?
      && ToDay(Parse(out.start).value) < ToDay(Parse(out.end).value) && LexLess(out.start, out.end)
  {
    ProcessRetreatSpec(r);
    var out := ProcessRetreat(r).value;
    FormatParse(out.start);
    FormatParse(out.end);
    FormatOrder(Parse(out.start).value, Parse(out.end).value);
  }

  /** The conversion loop: one exported record per input record, in input order; the first
      record that cannot be converted stops the conversion with its error. */
  method ProcessRetreats(raws: seq<RawRetreat>) returns (res: Result<seq<Retreat>, RetreatError>)
    ensures res.Success? <==> forall i :: 0 <= i < |raws| ==> ProcessRetreat(raws[i]).Success?
    ensures res.Success? ==>
      |res.value| == |raws| &&
      forall i :: 0 <= i < |raws| ==> ProcessRetreat(raws[i]) == Success(res.value[i])
    ensures res.Failure? ==>
      exists i :: 0 <= i < |raws| && ProcessRetreat(raws[i]) == Failure(res.error) &&
        forall j :: 0 <= j < i ==> ProcessRetreat(raws[j]).Success?
  {
    var out: seq<Retreat> := [];
    var i := 0;
    while i < |raws|
      invariant 0 <= i <= |raws| && |out| == i
      invariant forall j :: 0 <= j < i ==> ProcessRetreat(raws[j]) == Success(out[j])
    {
      var r := ProcessRetreat(raws[i]);
      if r.Failure? {
        return Failure(r.error);
      }
      out := out + [r.value];
      i := i + 1;
    }
    res := Success(out);
  }
}
