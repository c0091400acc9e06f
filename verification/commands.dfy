/** The two slash commands of cogs/commands_cog.py, reduced to the reply they choose.
    `/сравнить` (compare) reads a date and an optional time, rejects malformed and future
    targets, and compares the stored snapshot at that moment with freshly fetched ratings;
    `/сегодня` (today) does the same from the start of the rating day.

    The clock, the current year, the report title, the rendering of a stored timestamp and
    the fetch are parameters. The store is the one of `Store.RatingStore`; its timestamps
    and the boundaries computed here are whole seconds on one time base, the instants of
    `Calendar.Seconds`. */
module Commands {
  import opened Outcomes
  import opened Text
  import opened Delta
  import opened Report
  import opened Store
  import opened Calendar

  /** `compare_time` when the user gives none. */
  const DefaultCompareTime: string := "02:00"

  /** `day_start` when the configuration gives none: 17:00. */
  const DefaultDayStartHour: int := 17
  const DefaultDayStartMinute: int := 0

  /** The hour before which the rating day is still the previous one. */
  const RolloverHour: int := 2

  /** The ratings `get_ratings` fetched: the clan total and the member rows. A failed fetch
      is `None`. */
  datatype Fetched = Fetched(total: int, members: seq<Member>)

  /** Which reply a command sends. */
  datatype Reply =
    | FormatError        // the date or the time does not make a datetime
    | FutureDate         // the target lies after now
    | NoData             // the store holds nothing at or before the boundary
    | NoChanges          // the delta against the baseline is empty
    | Sent(embed: Embed) // the report
    | ReportFailed       // `generate_report` raised
    | HandlerFailed      // anything else raised and the outer handler replied

  // ---------------------------------------------------------------------------
  // Reading the compare arguments

  /** The date normalisation as written: any date with fewer than three dots gets the
      current year appended, a full `DD.MM.YYYY` included. */
  function NormaliseDateAsWritten(date: string, localYear: int): string {
    if Count(date, '.') < 3 then date + "." + IntToString(localYear) else date
  }

  /** The normalisation the documented `DD.MM.YYYY` format needs: only a `DD.MM` date,
      one with fewer than two dots, gets the current year. */
  function NormaliseDate(date: string, localYear: int): string {
    if Count(date, '.') < 2 then date + "." + IntToString(localYear) else date
  }

  /** Every piece read as an integer, or nothing when one of them is not one. */
  function ParseAll(parts: seq<string>): (r: Option<seq<int>>)
    ensures r.Some? <==> forall i :: 0 <= i < |parts| ==> ParseInt(parts[i]).Some?
    ensures r.Some? ==> |r.value| == |parts|
    ensures r.Some? ==> forall i :: 0 <= i < |parts| ==> ParseInt(parts[i]) == Some(r.value[i])
  {
    if parts == [] then Some([])
    else
      match ParseInt(parts[0])
      case None => None
      case Some(v) =>
        match ParseAll(parts[1..])
        case None =>
          assert exists i :: 1 <= i < |parts| && ParseInt(parts[i]).None? by {
            var j :| 0 <= j < |parts[1..]| && ParseInt(parts[1..][j]).None?;
            assert parts[1..][j] == parts[j + 1];
          }
          None
        case Some(vs) =>
          assert forall i :: 1 <= i < |parts| ==> parts[i] == parts[1..][i - 1];
          Some([v] + vs)
  }

  /** `a, b, ... = map(int, s.split(sep))` with `n` names: the values, or nothing when
      there are not exactly `n` pieces or a piece is not an integer. */
  function ParseFields(s: string, sep: char, n: nat): (r: Option<seq<int>>)
    ensures r.Some? <==> Count(s, sep) + 1 == n && ParseAll(Split(s, sep)).Some?
    ensures r.Some? ==> |r.value| == n
    ensures r.Some? ==> forall i :: 0 <= i < n ==> ParseInt(Split(s, sep)[i]) == Some(r.value[i])
  {
    var parts := Split(s, sep);
    if |parts| != n then None else ParseAll(parts)
  }

  /** The range of a C `int`, which every argument of the `datetime` constructor must fit
      before its calendar ranges are checked. */
  const CIntMin: int := -0x8000_0000
  const CIntMax: int := 0x7FFF_FFFF

  predicate FitsCInt(x: int) {
    CIntMin <= x <= CIntMax
  }

  predicate AllFit(xs: seq<int>) {
    forall i :: 0 <= i < |xs| ==> FitsCInt(xs[i])
  }

  /** Why the compare arguments make no datetime. */
  datatype TargetError =
    | Malformed  // ValueError: a wrong number of fields, a field that is no integer, or a
                 // field outside the calendar's ranges
    | Overflow   // OverflowError: a field does not fit a C `int`; `except ValueError`
                 // does not catch it

  /** Line 129: the `datetime` the parsed day, month, year, hour and minute make. Every
      field must fit a C `int` before the calendar ranges are checked. */
  function TargetOf(dmy: seq<int>, hm: seq<int>): (r: Result<DateTime, TargetError>)
    requires |dmy| == 3 && |hm| == 2
    ensures r.Success? ==> Valid(r.value) && r.value.second == 0 && r.value.micro == 0
    ensures r.Success? ==> dmy == [r.value.day, r.value.month, r.value.year] && hm == [r.value.hour, r.value.minute]
    ensures r == Failure(Overflow) <==> !(AllFit(dmy) && AllFit(hm))
    ensures r.Success? <==> Valid(DateTime(dmy[2], dmy[1], dmy[0], hm[0], hm[1], 0, 0))
  {
    if !(AllFit(dmy) && AllFit(hm)) then Failure(Overflow)
    else
      var t := DateTime(dmy[2], dmy[1], dmy[0], hm[0], hm[1], 0, 0);
      assert dmy == [t.day, t.month, t.year] && hm == [t.hour, t.minute];
      if Valid(t) then Success(t) else Failure(Malformed)
  }

  /** Lines 125-129 of the handler: day, month and year from the date, hour and minute
      from the time, and the datetime they make. A wrong number of fields or a field that
      is no integer is malformed. */
  function ParseTarget(date: string, time: string): (r: Result<DateTime, TargetError>)
    ensures r.Success? ==> Valid(r.value) && r.value.second == 0 && r.value.micro == 0
    ensures r.Success? ==>
              ParseFields(date, '.', 3) == Some([r.value.day, r.value.month, r.value.year])
              && ParseFields(time, ':', 2) == Some([r.value.hour, r.value.minute])
    ensures ParseFields(date, '.', 3).None? || ParseFields(time, ':', 2).None? ==> r == Failure(Malformed)
    ensures r != Failure(Malformed) ==> Count(date, '.') == 2 && Count(time, ':') == 1
    ensures r == Failure(Overflow) <==>
              ParseFields(date, '.', 3).Some? && ParseFields(time, ':', 2).Some?
              && !(AllFit(ParseFields(date, '.', 3).value) && AllFit(ParseFields(time, ':', 2).value))
    ensures r.Success? <==>
              ParseFields(date, '.', 3).Some? && ParseFields(time, ':', 2).Some?
              && (var dmy, hm := ParseFields(date, '.', 3).value, ParseFields(time, ':', 2).value;
                  Valid(DateTime(dmy[2], dmy[1], dmy[0], hm[0], hm[1], 0, 0)))
  {
    var dmy, hm := ParseFields(date, '.', 3), ParseFields(time, ':', 2);
    if dmy.None? || hm.None? then Failure(Malformed)
    else TargetOf(dmy.value, hm.value)
  }

  // ---------------------------------------------------------------------------
  // The handlers

  /** Lines 70-93 and 145-168: no baseline, no changes, or the report (which may raise). */
  function Respond(baseline: Option<Snapshot>, fetched: Option<Fetched>, title: string,
                   showTime: int -> string): Reply
  {
    match baseline
    case None => NoData
    case Some(s) =>
      match fetched
      case None => HandlerFailed
      case Some(f) =>
        if GuardedMemberDelta(s.members, f.members) == [] then NoChanges
        else
          match ReportOf(title, showTime(s.timestamp), s.total, s.members, f.total, f.members)
          case Success(e) => Sent(e)
          case Failure(_) => ReportFailed
  }

  /** The compare handler after the date normalisation: a malformed or calendar-invalid
      target is a format error, an overflowing field reaches the outer handler, a target
      after `now` is refused, and otherwise the snapshot at or before the target is the
      baseline. */
  function CompareAt(store: RatingStore, normalised: string, time: string, now: DateTime,
                     fetched: Option<Fetched>, title: string, showTime: int -> string): Reply
    reads store
    requires Valid(now)
  {
    match ParseTarget(normalised, time)
    case Failure(Malformed) => FormatError
    case Failure(Overflow) => HandlerFailed
    case Success(t) =>
      if Micros(t) > Micros(now) then FutureDate
      else Respond(store.AtOrBefore(Seconds(t)), fetched, title, showTime)
  }

  /** `compare_command` as written (lines 116-168). */
  function CompareCommandAsWritten(store: RatingStore, date: string, time: string, localYear: int,
                                   now: DateTime, fetched: Option<Fetched>, title: string,
                                   showTime: int -> string): (r: Reply)
    reads store
    requires Valid(now)
    ensures r != FormatError ==> Count(date, '.') == 1
  {
    AsWrittenNeedsOneDot(date, localYear, time);
    CompareAt(store, NormaliseDateAsWritten(date, localYear), time, now, fetched, title, showTime)
  }

  /** `compare_command` with the date normalisation its documentation calls for. */
  function CompareCommand(store: RatingStore, date: string, time: string, localYear: int,
                          now: DateTime, fetched: Option<Fetched>, title: string,
                          showTime: int -> string): (r: Reply)
    reads store
    requires Valid(now)
    ensures r != FormatError ==> Count(date, '.') == 1 || Count(date, '.') == 2
  {
    CorrectedNeedsOneOrTwoDots(date, localYear, time);
    CompareAt(store, NormaliseDate(date, localYear), time, now, fetched, title, showTime)
  }

  /** Today at `(day_start[0] + 1):day_start[1]`, the time `replace` sets on `now`. */
  function TodayAt(now: DateTime, dayStartHour: int, dayStartMinute: int): DateTime {
    DateTime(now.year, now.month, now.day, dayStartHour + 1, dayStartMinute, 0, 0)
  }

  /** Lines 64-67: the start of the rating day, today at `(day_start[0] + 1):day_start[1]`,
      or the calendar day before at that time while the hour is below 2. `replace` raises
      for an hour or a minute out of range and the subtraction for a date before 1 January
      of year 1. Either way the boundary is that time today less a whole day when the hour
      is below 2. */
  function StartOfDay(now: DateTime, dayStartHour: int, dayStartMinute: int): (r: Option<int>)
    requires Valid(now)
    ensures r.Some? <==> 0 <= dayStartHour + 1 < 24 && 0 <= dayStartMinute < 60
                         && !(now.hour < RolloverHour && Ordinal(now.year, now.month, now.day) == 1)
    ensures r.Some? ==> r.value == Seconds(TodayAt(now, dayStartHour, dayStartMinute))
                                   - (if now.hour < RolloverHour then SecondsPerDay else 0)
  {
    var boundary := TodayAt(now, dayStartHour, dayStartMinute);
    if !(0 <= boundary.hour < 24 && 0 <= boundary.minute < 60) then None
    else if now.hour < RolloverHour then
      if Ordinal(now.year, now.month, now.day) == 1 then None
      else
        DayBeforeIsPreviousOrdinal(boundary);
        Some(Seconds(DayBefore(boundary)))
    else Some(Seconds(boundary))
  }

  /** `today_command` (lines 59-97). */
  function TodayCommand(store: RatingStore, now: DateTime, dayStartHour: int, dayStartMinute: int,
                        fetched: Option<Fetched>, title: string, showTime: int -> string): Reply
    reads store
    requires Valid(now)
  {
    match StartOfDay(now, dayStartHour, dayStartMinute)
    case None => HandlerFailed
    case Some(b) => Respond(store.AtOrBefore(b), fetched, title, showTime)
  }

  // ---------------------------------------------------------------------------
  // The date normalisation, as written and corrected

  /** Appending `"." + str(year)` adds exactly one dot. */
  lemma AppendYearAddsOneDot(date: string, localYear: int)
    ensures Count(date + "." + IntToString(localYear), '.') == Count(date, '.') + 1
  {
    IntToStringAvoids(localYear, '.');
    CountAbsent(IntToString(localYear), '.');
    CountAppend(date + ".", IntToString(localYear), '.');
    CountAppend(date, ".", '.');
  }

  /** As written, a date that makes a target had exactly one dot: the year appended to it
      made the three fields. */
  lemma AsWrittenNeedsOneDot(date: string, localYear: int, time: string)
    ensures ParseTarget(NormaliseDateAsWritten(date, localYear), time) != Failure(Malformed) ==> Count(date, '.') == 1
  {
    AppendYearAddsOneDot(date, localYear);
  }

  lemma CorrectedNeedsOneOrTwoDots(date: string, localYear: int, time: string)
    ensures ParseTarget(NormaliseDate(date, localYear), time) != Failure(Malformed) ==> Count(date, '.') == 1 || Count(date, '.') == 2
  {
    AppendYearAddsOneDot(date, localYear);
  }

  /** As written, every date in the documented `DD.MM.YYYY` form is refused as malformed:
      the appended year makes four fields. */
  lemma FullDateRefusedAsWritten(store: RatingStore, date: string, time: string, localYear: int,
                                 now: DateTime, fetched: Option<Fetched>, title: string,
                                 showTime: int -> string)
    requires Valid(now)
    requires Count(date, '.') == 2
    ensures CompareCommandAsWritten(store, date, time, localYear, now, fetched, title, showTime) == FormatError
  {
  }

  /** `"15.03.2024"` in particular. */
  lemma ExampleFullDateRefusedAsWritten(store: RatingStore, time: string, localYear: int,
                                        now: DateTime, fetched: Option<Fetched>,
                                        title: string, showTime: int -> string)
    requires Valid(now)
    ensures CompareCommandAsWritten(store, "15.03.2024", time, localYear, now, fetched, title, showTime) == FormatError
  {
    ExampleDateHasTwoDots();
    FullDateRefusedAsWritten(store, "15.03.2024", time, localYear, now, fetched, title, showTime);
  }

  lemma ExampleDateHasTwoDots()
    ensures Count("15.03.2024", '.') == 2
  {
    assert "15.03.2024" == "15" + "." + "03" + "." + "2024";
    CountAbsent("15", '.');
    CountAbsent("03", '.');
    CountAbsent("2024", '.');
    CountAppend("15" + "." + "03" + ".", "2024", '.');
    CountAppend("15" + "." + "03", ".", '.');
    CountAppend("15" + ".", "03", '.');
    CountAppend("15", ".", '.');
  }

  /** The two normalisations agree on every date except those with exactly two dots. */
  lemma NormalisationsDifferOnlyOnFullDates(date: string, localYear: int)
    ensures NormaliseDate(date, localYear) != NormaliseDateAsWritten(date, localYear) <==> Count(date, '.') == 2
  {
    if Count(date, '.') == 2 {
      AppendYearAddsOneDot(date, localYear);
    }
  }

  /** `[str(x) for x in xs]`. */
  function Texts(xs: seq<int>): (r: seq<string>)
    ensures |r| == |xs|
  {
    if xs == [] then [] else [IntToString(xs[0])] + Texts(xs[1..])
  }

  lemma {:induction false} TextsAvoid(xs: seq<int>, sep: char)
    requires sep != '-' && !IsDigit(sep)
    ensures forall i :: 0 <= i < |xs| ==> sep !in Texts(xs)[i]
  {
    if xs != [] {
      TextsAvoid(xs[1..], sep);
      IntToStringAvoids(xs[0], sep);
      assert forall i :: 1 <= i < |xs| ==> Texts(xs)[i] == Texts(xs[1..])[i - 1];
    }
  }

  lemma {:induction false} TextsParseBack(xs: seq<int>)
    ensures ParseAll(Texts(xs)) == Some(xs)
  {
    if xs != [] {
      var t := Texts(xs);
      assert t == [IntToString(xs[0])] + Texts(xs[1..]);
      assert t[0] == IntToString(xs[0]) && t[1..] == Texts(xs[1..]);
      ParseIntToString(xs[0]);
      TextsParseBack(xs[1..]);
      assert [xs[0]] + xs[1..] == xs;
    }
  }

  lemma {:induction false} TextsAppend(xs: seq<int>, x: int)
    ensures Texts(xs + [x]) == Texts(xs) + [IntToString(x)]
  {
    if xs != [] {
      assert (xs + [x])[1..] == xs[1..] + [x];
      TextsAppend(xs[1..], x);
    } else {
      assert Texts([x]) == [IntToString(x)] + Texts([]);
    }
  }

  /** Numbers written with `str` and joined by a separator that is neither a sign nor a
      digit read back as the same numbers. */
  lemma FieldsReadBack(xs: seq<int>, sep: char)
    requires |xs| >= 1 && sep != '-' && !IsDigit(sep)
    ensures ParseFields(Join(Texts(xs), sep), sep, |xs|) == Some(xs)
    ensures Count(Join(Texts(xs), sep), sep) == |xs| - 1
  {
    TextsAvoid(xs, sep);
    SplitJoin(Texts(xs), sep);
    TextsParseBack(xs);
  }

  /** A date `d.m.y` and a time `h:mi` written with `str` of their fields. */
  function DateText(d: int, m: int, y: int): string {
    Join(Texts([d, m, y]), '.')
  }

  function TimeText(h: int, mi: int): string {
    Join(Texts([h, mi]), ':')
  }

  /** Corrected, a full date and a time read back as the datetime they name, whatever the
      current year. */
  lemma FullDateAccepted(y: int, m: int, d: int, h: int, mi: int, localYear: int)
    requires Valid(DateTime(y, m, d, h, mi, 0, 0))
    ensures ParseTarget(NormaliseDate(DateText(d, m, y), localYear), TimeText(h, mi))
            == Success(DateTime(y, m, d, h, mi, 0, 0))
  {
    FieldsReadBack([d, m, y], '.');
    TextsMakeTarget(y, m, d, h, mi);
  }

  /** The texts of a valid date and time make that datetime. */
  lemma TextsMakeTarget(y: int, m: int, d: int, h: int, mi: int)
    requires Valid(DateTime(y, m, d, h, mi, 0, 0))
    ensures ParseTarget(DateText(d, m, y), TimeText(h, mi)) == Success(DateTime(y, m, d, h, mi, 0, 0))
  {
    FieldsReadBack([d, m, y], '.');
    FieldsReadBack([h, mi], ':');
  }

  /** Both normalisations read a `DD.MM` date as that day of the current year. */
  lemma ShortDateTakesCurrentYear(m: int, d: int, h: int, mi: int, localYear: int)
    requires Valid(DateTime(localYear, m, d, h, mi, 0, 0))
    ensures var date := Join(Texts([d, m]), '.');
            && ParseTarget(NormaliseDate(date, localYear), TimeText(h, mi)) == Success(DateTime(localYear, m, d, h, mi, 0, 0))
            && NormaliseDateAsWritten(date, localYear) == NormaliseDate(date, localYear)
  {
    ShortDateNormalises(d, m, localYear);
    TextsMakeTarget(localYear, m, d, h, mi);
  }

  /** Both normalisations complete a `DD.MM` date with the current year. */
  lemma ShortDateNormalises(d: int, m: int, localYear: int)
    ensures var date := Join(Texts([d, m]), '.');
            && NormaliseDate(date, localYear) == DateText(d, m, localYear)
            && NormaliseDateAsWritten(date, localYear) == DateText(d, m, localYear)
  {
    var date := Join(Texts([d, m]), '.');
    FieldsReadBack([d, m], '.');
    TextsAppend([d, m], localYear);
    assert [d, m] + [localYear] == [d, m, localYear];
    JoinAppend(Texts([d, m]), [IntToString(localYear)], '.');
    assert date + "." + IntToString(localYear) == DateText(d, m, localYear);
  }

  /** The default time reads as 02:00. */
  lemma DefaultTimeIsTwoOClock()
    ensures ParseFields(DefaultCompareTime, ':', 2) == Some([2, 0])
  {
    var parts := ["02", "00"];
    assert DefaultCompareTime == parts[0] + [':'] + parts[1];
    SplitAfterFirst(parts[0], parts[1], ':');
    SplitWithout(parts[1], ':');
    assert Split(DefaultCompareTime, ':') == parts;
    assert ParseInt("02") == Some(2) by {
      assert AllDigits("02");
      assert DigitsValue("02") == 2 by {
        assert "02"[..1] == "0";
      }
    }
    assert ParseInt("00") == Some(0) by {
      assert AllDigits("00");
      assert DigitsValue("00") == 0 by {
        assert "00"[..1] == "0";
      }
    }
    assert ParseAll(["00"]) == Some([0]) by {
      assert ["00"][1..] == [] && ["00"][0] == "00";
      assert [0] + [] == [0];
    }
    assert parts[1..] == ["00"] && parts[0] == "02";
    assert [2] + [0] == [2, 0];
  }

  /** The documented zero-padded `DD.MM.YYYY` form reads as its day, month and year. */
  lemma PaddedDateReads()
    ensures ParseFields("15.03.2024", '.', 3) == Some([15, 3, 2024])
  {
    PaddedDateSplits();
    PaddedPartsRead();
  }

  lemma PaddedDateSplits()
    ensures Split("15.03.2024", '.') == ["15", "03", "2024"]
  {
    var parts := ["15", "03", "2024"];
    assert Join(["2024"], '.') == "2024";
    assert Join(["03", "2024"], '.') == "03.2024" by {
      assert ["03", "2024"][1..] == ["2024"];
    }
    assert Join(parts, '.') == "15.03.2024" by {
      assert parts[1..] == ["03", "2024"];
    }
    SplitJoin(parts, '.');
  }

  lemma PaddedPartsRead()
    ensures ParseAll(["15", "03", "2024"]) == Some([15, 3, 2024])
  {
    PaddedFieldsRead();
    assert ParseAll([]) == Some([]);
    ParseAllCons("2024", [], 2024, []);
    assert ["2024"] + [] == ["2024"] && [2024] + [] == [2024];
    ParseAllCons("03", ["2024"], 3, [2024]);
    assert ["03"] + ["2024"] == ["03", "2024"] && [3] + [2024] == [3, 2024];
    ParseAllCons("15", ["03", "2024"], 15, [3, 2024]);
    assert ["15"] + ["03", "2024"] == ["15", "03", "2024"] && [15] + [3, 2024] == [15, 3, 2024];
  }

  lemma PaddedFieldsRead()
    ensures ParseInt("15") == Some(15) && ParseInt("03") == Some(3) && ParseInt("2024") == Some(2024)
  {
    assert AllDigits("15") && AllDigits("03") && AllDigits("2024");
    ParseDigits("15");
    ParseDigits("03");
    ParseDigits("2024");
    assert DigitsValue("15") == 15 by {
      assert "15"[..1] == "1" && "1"[..0] == "";
    }
    assert DigitsValue("03") == 3 by {
      assert "03"[..1] == "0" && "0"[..0] == "";
    }
    assert DigitsValue("2024") == 2024 by {
      assert "2024"[..3] == "202" && "202"[..2] == "20" && "20"[..1] == "2" && "2"[..0] == "";
    }
  }

  /** `map(int, ...)` over one more piece. */
  lemma ParseAllCons(p: string, ps: seq<string>, v: int, vs: seq<int>)
    requires ParseInt(p) == Some(v) && ParseAll(ps) == Some(vs)
    ensures ParseAll([p] + ps) == Some([v] + vs)
  {
    assert ([p] + ps)[0] == p && ([p] + ps)[1..] == ps;
  }

  /** Corrected, `compare_date="15.03.2024"` with the default time names 15 March 2024 at
      02:00, whatever the current year. */
  lemma DocumentedDateAccepted(localYear: int)
    ensures ParseTarget(NormaliseDate("15.03.2024", localYear), DefaultCompareTime)
            == Success(DateTime(2024, 3, 15, 2, 0, 0, 0))
  {
    ExampleDateHasTwoDots();
    assert NormaliseDate("15.03.2024", localYear) == "15.03.2024";
    DocumentedTargetParses();
  }

  lemma DocumentedTargetParses()
    ensures ParseTarget("15.03.2024", DefaultCompareTime) == Success(DateTime(2024, 3, 15, 2, 0, 0, 0))
  {
    PaddedDateReads();
    DefaultTimeIsTwoOClock();
    DocumentedTargetMade();
  }

  lemma DocumentedTargetMade()
    ensures TargetOf([15, 3, 2024], [2, 0]) == Success(DateTime(2024, 3, 15, 2, 0, 0, 0))
  {
    assert Valid(DateTime(2024, 3, 15, 2, 0, 0, 0));
  }

  // ---------------------------------------------------------------------------
  // Which reply the compare command sends

  /** The compare outcome, reply by reply: a format error exactly when the target is
      malformed; the outer handler's reply when a field overflows; a refusal exactly when it lies after now, so a target equal to now is looked
      up; no data exactly when nothing is stored at or before it; no changes exactly when
      the delta against that snapshot is empty; and otherwise the report of that snapshot. */
  lemma CompareOutcome(store: RatingStore, normalised: string, time: string, now: DateTime,
                       fetched: Option<Fetched>, title: string, showTime: int -> string)
    requires Valid(now)
    ensures var r, t := CompareAt(store, normalised, time, now, fetched, title, showTime), ParseTarget(normalised, time);
            && (r == FormatError <==> t == Failure(Malformed))
            && (t == Failure(Overflow) ==> r == HandlerFailed)
            && (r == FutureDate <==> t.Success? && Before(now, t.value))
            && (r == NoData <==> t.Success? && !Before(now, t.value) && store.AtOrBefore(Seconds(t.value)).None?)
            && (t.Success? && !Before(now, t.value) ==>
                  r == Respond(store.AtOrBefore(Seconds(t.value)), fetched, title, showTime))
  {
    var t := ParseTarget(normalised, time);
    if t.Success? {
      InstantOrderIsCalendarOrder(now, t.value);
    }
  }

  /** The reply to a lookup: no changes exactly when the baseline and the fetched rows give
      no delta, a report exactly when they give one, carrying the delta's columns; the
      report never fails, because a non-empty delta needs two non-empty lists. */
  lemma RespondOutcome(baseline: Option<Snapshot>, fetched: Option<Fetched>, title: string,
                       showTime: int -> string)
    ensures var r := Respond(baseline, fetched, title, showTime);
            && r != ReportFailed
            && (r == NoData <==> baseline.None?)
            && (r == HandlerFailed <==> baseline.Some? && fetched.None?)
            && (r == NoChanges <==>
                  (baseline.Some? && fetched.Some?
                   && GuardedMemberDelta(baseline.value.members, fetched.value.members) == []))
            && (r.Sent? <==>
                  (baseline.Some? && fetched.Some?
                   && GuardedMemberDelta(baseline.value.members, fetched.value.members) != []))
            && (r.Sent? ==>
                  (r.embed.title == title
                   && r.embed.fields == Columns(Truncate(MemberDelta(baseline.value.members, fetched.value.members)))))
  {
    var r := Respond(baseline, fetched, title, showTime);
    if baseline.Some? && fetched.Some? {
      var s, f := baseline.value, fetched.value;
      if GuardedMemberDelta(s.members, f.members) != [] {
        assert s.members != [] && f.members != [];
        ReportFieldsIffChanges(title, showTime(s.timestamp), s.total, s.members, f.total, f.members);
      }
    }
  }

  /** Corrected, a full date that is not in the future is looked up at the instant it
      names; as written, the same arguments get the format error. */
  lemma FullDateLookedUp(store: RatingStore, y: int, m: int, d: int, h: int, mi: int, localYear: int,
                         now: DateTime, fetched: Option<Fetched>, title: string, showTime: int -> string)
    requires Valid(now)
    requires Valid(DateTime(y, m, d, h, mi, 0, 0))
    requires !Before(now, DateTime(y, m, d, h, mi, 0, 0))
    ensures CompareCommand(store, DateText(d, m, y), TimeText(h, mi), localYear, now, fetched, title, showTime)
            == Respond(store.AtOrBefore(Seconds(DateTime(y, m, d, h, mi, 0, 0))), fetched, title, showTime)
    ensures CompareCommandAsWritten(store, DateText(d, m, y), TimeText(h, mi), localYear, now, fetched, title, showTime)
            == FormatError
  {
    var target := DateTime(y, m, d, h, mi, 0, 0);
    FullDateAccepted(y, m, d, h, mi, localYear);
    CompareOutcome(store, NormaliseDate(DateText(d, m, y), localYear), TimeText(h, mi), now, fetched, title, showTime);
    FieldsReadBack([d, m, y], '.');
    FullDateRefusedAsWritten(store, DateText(d, m, y), TimeText(h, mi), localYear, now, fetched, title, showTime);
  }

  /** A `DD.MM` date or a time with a field that does not fit a C `int` makes the
      constructor raise OverflowError, which the inner `except ValueError` lets through:
      the outer handler replies, not the format error, under either normalisation. */
  lemma OverflowReachesOuterHandler(store: RatingStore, d: int, m: int, time: string, localYear: int,
                                    now: DateTime, fetched: Option<Fetched>, title: string,
                                    showTime: int -> string)
    requires Valid(now)
    requires ParseFields(time, ':', 2).Some?
    requires !(AllFit([d, m, localYear]) && AllFit(ParseFields(time, ':', 2).value))
    ensures var date := Join(Texts([d, m]), '.');
            && CompareCommand(store, date, time, localYear, now, fetched, title, showTime) == HandlerFailed
            && CompareCommandAsWritten(store, date, time, localYear, now, fetched, title, showTime) == HandlerFailed
  {
    ShortDateNormalises(d, m, localYear);
    FieldsReadBack([d, m, localYear], '.');
    assert ParseTarget(DateText(d, m, localYear), time) == Failure(Overflow);
  }

  /** `compare_date="1.3000000000"` with the default time: a month of three thousand
      million overflows. */
  lemma ExampleOverflowingMonth(store: RatingStore, localYear: int, now: DateTime,
                                fetched: Option<Fetched>, title: string, showTime: int -> string)
    requires Valid(now)
    ensures CompareCommand(store, Join(Texts([1, 3_000_000_000]), '.'), DefaultCompareTime, localYear,
                           now, fetched, title, showTime) == HandlerFailed
  {
    DefaultTimeIsTwoOClock();
    assert !FitsCInt([1, 3_000_000_000, localYear][1]);
    OverflowReachesOuterHandler(store, 1, 3_000_000_000, DefaultCompareTime, localYear, now, fetched, title, showTime);
  }

  /** Corrected, `/сравнить compare_date="15.03.2024"` is looked up at 15 March 2024,
      02:00 once that moment has passed; as written it gets the format error. */
  lemma DocumentedDateLookedUp(store: RatingStore, localYear: int, now: DateTime,
                               fetched: Option<Fetched>, title: string, showTime: int -> string)
    requires Valid(now) && !Before(now, DateTime(2024, 3, 15, 2, 0, 0, 0))
    ensures CompareCommand(store, "15.03.2024", DefaultCompareTime, localYear, now, fetched, title, showTime)
            == Respond(store.AtOrBefore(Seconds(DateTime(2024, 3, 15, 2, 0, 0, 0))), fetched, title, showTime)
    ensures CompareCommandAsWritten(store, "15.03.2024", DefaultCompareTime, localYear, now, fetched, title, showTime)
            == FormatError
  {
    DocumentedDateAccepted(localYear);
    CompareOutcome(store, NormaliseDate("15.03.2024", localYear), DefaultCompareTime, now, fetched, title, showTime);
    ExampleFullDateRefusedAsWritten(store, DefaultCompareTime, localYear, now, fetched, title, showTime);
  }

  /** The today outcome: the handler fails exactly when the boundary cannot be formed or
      the fetch fails after a baseline was found; no data exactly when every stored
      snapshot is later than the boundary; the report never fails. */
  lemma TodayOutcome(store: RatingStore, now: DateTime, dayStartHour: int, dayStartMinute: int,
                     fetched: Option<Fetched>, title: string, showTime: int -> string)
    requires Valid(now)
    ensures var r, b := TodayCommand(store, now, dayStartHour, dayStartMinute, fetched, title, showTime),
                       StartOfDay(now, dayStartHour, dayStartMinute);
            && r != ReportFailed
            && (r == HandlerFailed <==> b.None? || (store.AtOrBefore(b.value).Some? && fetched.None?))
            && (r == NoData <==> b.Some? && forall i :: 0 <= i < |store.history| ==> store.history[i].timestamp > b.value)
  {
    var b := StartOfDay(now, dayStartHour, dayStartMinute);
    if b.Some? {
      RespondOutcome(store.AtOrBefore(b.value), fetched, title, showTime);
    }
  }

  // ---------------------------------------------------------------------------
  // The start of the rating day

  /** While the hour is below 2 the boundary is the set time on the calendar day before
      today, and so lies in the past. */
  lemma EarlyBoundaryIsYesterday(now: DateTime, dayStartHour: int, dayStartMinute: int)
    requires Valid(now) && now.hour < RolloverHour
    requires StartOfDay(now, dayStartHour, dayStartMinute).Some?
    ensures var b, p := StartOfDay(now, dayStartHour, dayStartMinute).value,
                        DayBefore(TodayAt(now, dayStartHour, dayStartMinute));
            && ValidDate(p.year, p.month, p.day)
            && Ordinal(p.year, p.month, p.day) + 1 == Ordinal(now.year, now.month, now.day)
            && p.hour == dayStartHour + 1 && p.minute == dayStartMinute
            && b == Seconds(p)
            && b * MicrosPerSecond < Micros(now)
  {
    DayBeforeIsPreviousOrdinal(TodayAt(now, dayStartHour, dayStartMinute));
    TimeOfDayFits(now);
  }

  /** From 2 o'clock on the boundary is the set time today: earlier than now exactly when
      that time has passed. */
  lemma LateBoundaryIsToday(now: DateTime, dayStartHour: int, dayStartMinute: int)
    requires Valid(now) && now.hour >= RolloverHour
    requires StartOfDay(now, dayStartHour, dayStartMinute).Some?
    ensures var b := StartOfDay(now, dayStartHour, dayStartMinute).value;
            && b == Seconds(DateTime(now.year, now.month, now.day, dayStartHour + 1, dayStartMinute, 0, 0))
            && (b * MicrosPerSecond <= Micros(now)
                <==> !Before(now, DateTime(now.year, now.month, now.day, dayStartHour + 1, dayStartMinute, 0, 0)))
  {
    var boundary := TodayAt(now, dayStartHour, dayStartMinute);
    InstantOrderIsCalendarOrder(now, boundary);
  }

  /** With the default `day_start` the boundary is 18:00, which is still ahead from 02:00
      to 17:59; then the lookup finds the newest stored snapshot (when nothing was stored
      after now), so `/сегодня` compares against the latest snapshot rather than against
      yesterday's 18:00. */
  lemma DaytimeTodayUsesLatest(store: RatingStore, now: DateTime)
    requires Valid(now) && RolloverHour <= now.hour < DefaultDayStartHour + 1
    requires forall i :: 0 <= i < |store.history| ==> store.history[i].timestamp <= Seconds(now)
    ensures StartOfDay(now, DefaultDayStartHour, DefaultDayStartMinute).Some?
    ensures var b := StartOfDay(now, DefaultDayStartHour, DefaultDayStartMinute).value;
            Micros(now) < b * MicrosPerSecond
            && (store.AtOrBefore(b).None? <==> store.Last().None?)
            && (store.AtOrBefore(b).Some? ==> store.AtOrBefore(b).value.timestamp == store.Last().value.timestamp)
  {
    var b := StartOfDay(now, DefaultDayStartHour, DefaultDayStartMinute).value;
    TimeOfDayFits(now);
    LateBoundFindsLast(store.history, b);
  }
}
