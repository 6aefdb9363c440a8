/** The `RRule` value: one RFC 5545 recurrence rule (section 3.3.10), restricted
    to FREQ, INTERVAL, BYDAY, BYMONTH, BYMONTHDAY and BYSETPOS; its validity
    predicates; the serialiser `toRFC5545String`; and the parser
    `RRule(rfc5545String)`. */
module RRules {
  import opened Results
  import opened Text
  import opened OrderedSets
  import opened RRuleSyntax
  import opened Weeks
  import opened Frequencies
  import opened Validators

  /** Construction never validates: any field values make a rule. */
  datatype RRule = RRule(
    freq: Frequency,
    interval: Int32,
    byDay: OrderedSet<Week>,
    byMonth: OrderedSet<Int32>,
    byMonthDay: OrderedSet<Int32>,
    bySetPos: OrderedSet<Int32>)

  /** `RRule()`: every field at its default. */
  const Default: RRule := RRule(DAILY, 1, [], [], [], [])

  /** The defaults: DAILY, interval 1 and four empty sets, which is a valid rule. */
  lemma DefaultRule()
    ensures Default.freq == DAILY && Default.interval == 1
    ensures Default.byDay == [] && Default.byMonth == [] && Default.byMonthDay == [] && Default.bySetPos == []
    ensures IsValid(Default)
  {
  }

  // ---------------------------------------------------------------------------
  // Validity

  function IsIntervalValid(r: RRule): (ok: bool)
    ensures ok <==> r.interval >= 0
  {
    r.interval >= 0
  }

  function IsByMonthValid(r: RRule): (ok: bool)
    ensures ok <==> forall i :: 0 <= i < |r.byMonth| ==> 1 <= r.byMonth[i] <= 12
  {
    forall i :: 0 <= i < |r.byMonth| ==> ByMonthValidator(r.byMonth[i])
  }

  function IsByMonthDayValid(r: RRule): (ok: bool)
    ensures ok <==> forall i :: 0 <= i < |r.byMonthDay| ==>
                      -31 <= r.byMonthDay[i] <= -1 || 1 <= r.byMonthDay[i] <= 31
  {
    forall i :: 0 <= i < |r.byMonthDay| ==> ByMonthDayValidator(r.byMonthDay[i])
  }

  function IsBySetPosValid(r: RRule): (ok: bool)
    ensures ok <==> forall i :: 0 <= i < |r.bySetPos| ==>
                      -366 <= r.bySetPos[i] <= -1 || 1 <= r.bySetPos[i] <= 366
  {
    forall i :: 0 <= i < |r.bySetPos| ==> BySetPosValidator(r.bySetPos[i])
  }

  /** BYDAY and FREQ cannot be out of range; the other four parts can. */
  function IsValid(r: RRule): (ok: bool)
    ensures ok <==>
      && r.interval >= 0
      && (forall i :: 0 <= i < |r.byMonth| ==> 1 <= r.byMonth[i] <= 12)
      && (forall i :: 0 <= i < |r.byMonthDay| ==> r.byMonthDay[i] != 0 && -31 <= r.byMonthDay[i] <= 31)
      && (forall i :: 0 <= i < |r.bySetPos| ==> r.bySetPos[i] != 0 && -366 <= r.bySetPos[i] <= 366)
  {
    IsIntervalValid(r) && IsByMonthValid(r) && IsByMonthDayValid(r) && IsBySetPosValid(r)
  }

  // ---------------------------------------------------------------------------
  // Error messages

  const INTERVAL_VALIDATE_ERROR_MESSAGE: string := "INTERVAL must be positive number"
  const BYMONTH_VALIDATE_ERROR_MESSAGE: string := "BYMONTH must be number in range 1-12"
  const BYMONTHDAY_VALIDATE_ERROR_MESSAGE: string := "BYMONTHDAY must be number in range (-31..-1, 1..31)"
  const BYSETPOS_VALIDATE_ERROR_MESSAGE: string := "BYSETPOS must be number in range (-366..-1, 1..366)"

  function FrequencyNames(fs: seq<Frequency>): seq<string>
  {
    seq(|fs|, i requires 0 <= i < |fs| => Name(fs[i]))
  }

  function Initials(days: seq<Week>): seq<string>
  {
    seq(|days|, i requires 0 <= i < |days| => Initial(days[i]))
  }

  function Numbers(ns: seq<Int32>): seq<string>
  {
    seq(|ns|, i requires 0 <= i < |ns| => IntToString(ns[i]))
  }

  /** `FREQUENCY_ENTRIES`: the frequency names in declaration order. */
  function FrequencyEntries(): (s: string)
    ensures s == "DAILY,WEEKLY,MONTHLY,YEARLY"
  {
    var names := FrequencyNames(Frequencies.Entries);
    assert names == ["DAILY", "WEEKLY", "MONTHLY", "YEARLY"];
    FrequencyNamesJoined();
    Join(names, LIST_SEPARATOR)
  }

  /** The names `FREQUENCY_ENTRIES` lists are exactly the names the FREQ
      lookup accepts, so the message names every valid value and no other. */
  lemma FrequencyEntriesAccepted(name: string)
    ensures ValueOf(name).Some? <==> name in FrequencyNames(Frequencies.Entries)
  {
    var names := FrequencyNames(Frequencies.Entries);
    if ValueOf(name).Some? {
      var f := ValueOf(name).value;
      Frequencies.EntriesComplete();
      assert f in Frequencies.Entries;
      var i :| 0 <= i < |Frequencies.Entries| && Frequencies.Entries[i] == f;
      assert names[i] == name;
    }
  }

  /** `WEEK_ENTRIES`: the weekday codes in declaration order. */
  function WeekEntries(): (s: string)
    ensures s == "MO,TU,WE,TH,FR,SA,SU"
  {
    var codes := Initials(Weeks.Entries);
    InitialsDistinct();
    WeekCodesJoined();
    Join(codes, LIST_SEPARATOR)
  }

  lemma WeekendCodesJoined()
    ensures Join(["FR", "SA", "SU"], LIST_SEPARATOR) == "FR,SA,SU"
  {
    assert ["SA", "SU"][1..] == ["SU"];
    assert ["FR", "SA", "SU"][1..] == ["SA", "SU"];
  }

  lemma MidweekCodesJoined()
    ensures Join(["WE", "TH", "FR", "SA", "SU"], LIST_SEPARATOR) == "WE,TH,FR,SA,SU"
  {
    WeekendCodesJoined();
    assert ["TH", "FR", "SA", "SU"][1..] == ["FR", "SA", "SU"];
    assert ["WE", "TH", "FR", "SA", "SU"][1..] == ["TH", "FR", "SA", "SU"];
  }

  lemma WeekCodesJoined()
    ensures Join(["MO", "TU", "WE", "TH", "FR", "SA", "SU"], LIST_SEPARATOR) == "MO,TU,WE,TH,FR,SA,SU"
  {
    MidweekCodesJoined();
    assert ["TU", "WE", "TH", "FR", "SA", "SU"][1..] == ["WE", "TH", "FR", "SA", "SU"];
    assert ["MO", "TU", "WE", "TH", "FR", "SA", "SU"][1..] == ["TU", "WE", "TH", "FR", "SA", "SU"];
  }

  lemma LaterFrequencyNamesJoined()
    ensures Join(["MONTHLY", "YEARLY"], LIST_SEPARATOR) == "MONTHLY,YEARLY"
  {
    assert ["MONTHLY", "YEARLY"][1..] == ["YEARLY"];
  }

  lemma FrequencyNamesJoined()
    ensures Join(["DAILY", "WEEKLY", "MONTHLY", "YEARLY"], LIST_SEPARATOR) == "DAILY,WEEKLY,MONTHLY,YEARLY"
  {
    assert Join(["WEEKLY", "MONTHLY", "YEARLY"], LIST_SEPARATOR) == "WEEKLY,MONTHLY,YEARLY" by {
      LaterFrequencyNamesJoined();
      assert ["WEEKLY", "MONTHLY", "YEARLY"][1..] == ["MONTHLY", "YEARLY"];
    }
    assert ["DAILY", "WEEKLY", "MONTHLY", "YEARLY"][1..] == ["WEEKLY", "MONTHLY", "YEARLY"];
  }

  function FrequencyValidateErrorMessage(): (m: string)
    ensures m == "FREQ must be in format DAILY,WEEKLY,MONTHLY,YEARLY"
  {
    "FREQ must be in format " + FrequencyEntries()
  }

  function ByDayValidateErrorMessage(): (m: string)
    ensures m == "BYDAY must be in format MO,TU,WE,TH,FR,SA,SU"
  {
    "BYDAY must be in format " + WeekEntries()
  }

  // ---------------------------------------------------------------------------
  // Serialisation

  /** `requirePrecondition`: the first failing range check, in the order
      INTERVAL, BYMONTH, BYMONTHDAY, BYSETPOS. */
  function RequirePrecondition(r: RRule): (o: Outcome)
    ensures o.Pass? <==> IsValid(r)
    ensures r.interval < 0 ==> o == Fail(INTERVAL_VALIDATE_ERROR_MESSAGE)
    ensures r.interval >= 0
            && (exists i :: 0 <= i < |r.byMonth| && !(1 <= r.byMonth[i] <= 12))
            ==> o == Fail(BYMONTH_VALIDATE_ERROR_MESSAGE)
    ensures r.interval >= 0
            && (forall i :: 0 <= i < |r.byMonth| ==> 1 <= r.byMonth[i] <= 12)
            && (exists i :: 0 <= i < |r.byMonthDay| && !(r.byMonthDay[i] != 0 && -31 <= r.byMonthDay[i] <= 31))
            ==> o == Fail(BYMONTHDAY_VALIDATE_ERROR_MESSAGE)
    ensures r.interval >= 0
            && (forall i :: 0 <= i < |r.byMonth| ==> 1 <= r.byMonth[i] <= 12)
            && (forall i :: 0 <= i < |r.byMonthDay| ==> r.byMonthDay[i] != 0 && -31 <= r.byMonthDay[i] <= 31)
            && (exists i :: 0 <= i < |r.bySetPos| && !(r.bySetPos[i] != 0 && -366 <= r.bySetPos[i] <= 366))
            ==> o == Fail(BYSETPOS_VALIDATE_ERROR_MESSAGE)
  {
    if !IsIntervalValid(r) then Fail(INTERVAL_VALIDATE_ERROR_MESSAGE)
    else if !IsByMonthValid(r) then Fail(BYMONTH_VALIDATE_ERROR_MESSAGE)
    else if !IsByMonthDayValid(r) then Fail(BYMONTHDAY_VALIDATE_ERROR_MESSAGE)
    else if !IsBySetPosValid(r) then Fail(BYSETPOS_VALIDATE_ERROR_MESSAGE)
    else Pass
  }

  predicate HasKey(ps: seq<(string, string)>, key: string)
  {
    exists i :: 0 <= i < |ps| && ps[i].0 == key
  }

  /** The six rule parts, in the fixed order the serialiser writes them. */
  datatype Part = FreqPart | IntervalPart | ByDayPart | ByMonthPart | ByMonthDayPart | BySetPosPart

  function Keyword(p: Part): string
  {
    match p
    case FreqPart => FREQ
    case IntervalPart => INTERVAL
    case ByDayPart => BYDAY
    case ByMonthPart => BYMONTH
    case ByMonthDayPart => BYMONTHDAY
    case BySetPosPart => BYSETPOS
  }

  /** Where a rule part stands in the fixed output order: its keyword's place
      in the keyword list. */
  function Rank(p: Part): (n: nat)
    ensures n < |FieldKeywords| && FieldKeywords[n] == Keyword(p)
  {
    match p
    case FreqPart => 0
    case IntervalPart => 1
    case ByDayPart => 2
    case ByMonthPart => 3
    case ByMonthDayPart => 4
    case BySetPosPart => 5
  }

  /** `ps` followed by `(part, value)` when `present`. */
  function AppendIf(ps: seq<(Part, string)>, present: bool, part: Part, value: string): seq<(Part, string)>
  {
    if present then ps + [(part, value)] else ps
  }

  /** The `key=value` parts that follow `RRULE:` in the serialised line, in
      order: FREQ always, then INTERVAL when the interval exceeds 1, then each
      list-valued part whose set is non-empty, its elements joined by `,` in
      the set's order. */
  function Segments(r: RRule): (ps: seq<(Part, string)>)
    ensures |ps| == 1 + (if r.interval > 1 then 1 else 0)
                      + (if |r.byDay| > 0 then 1 else 0) + (if |r.byMonth| > 0 then 1 else 0)
                      + (if |r.byMonthDay| > 0 then 1 else 0) + (if |r.bySetPos| > 0 then 1 else 0)
    ensures ValuesNonEmpty(ps)
  {
    InitialsNonEmpty(r.byDay);
    NumbersNonEmpty(r.byMonth);
    NumbersNonEmpty(r.byMonthDay);
    NumbersNonEmpty(r.bySetPos);
    AppendAllShape(Name(r.freq), (r.interval > 1, IntToString(r.interval)),
      (|r.byDay| > 0, Join(Initials(r.byDay), LIST_SEPARATOR)),
      (|r.byMonth| > 0, Join(Numbers(r.byMonth), LIST_SEPARATOR)),
      (|r.byMonthDay| > 0, Join(Numbers(r.byMonthDay), LIST_SEPARATOR)),
      (|r.bySetPos| > 0, Join(Numbers(r.bySetPos), LIST_SEPARATOR)));
    var withFreq := [(FreqPart, Name(r.freq))];
    var withInterval := AppendIf(withFreq, r.interval > 1, IntervalPart, IntToString(r.interval));
    var withByDay := AppendIf(withInterval, |r.byDay| > 0, ByDayPart, Join(Initials(r.byDay), LIST_SEPARATOR));
    var withByMonth := AppendIf(withByDay, |r.byMonth| > 0, ByMonthPart, Join(Numbers(r.byMonth), LIST_SEPARATOR));
    var withByMonthDay :=
      AppendIf(withByMonth, |r.byMonthDay| > 0, ByMonthDayPart, Join(Numbers(r.byMonthDay), LIST_SEPARATOR));
    AppendIf(withByMonthDay, |r.bySetPos| > 0, BySetPosPart, Join(Numbers(r.bySetPos), LIST_SEPARATOR))
  }

  /** No value is empty. */
  predicate ValuesNonEmpty(ps: seq<(Part, string)>)
  {
    forall i :: 0 <= i < |ps| ==> |ps[i].1| >= 1
  }

  /** Any choice of non-empty parts, appended in the fixed order: one part per
      chosen field, none empty. */
  lemma AppendAllShape(freq: string, interval: (bool, string), byDay: (bool, string),
                       byMonth: (bool, string), byMonthDay: (bool, string), bySetPos: (bool, string))
    requires |freq| >= 1
    requires interval.0 ==> |interval.1| >= 1
    requires byDay.0 ==> |byDay.1| >= 1
    requires byMonth.0 ==> |byMonth.1| >= 1
    requires byMonthDay.0 ==> |byMonthDay.1| >= 1
    requires bySetPos.0 ==> |bySetPos.1| >= 1
    ensures var ps := AppendIf(AppendIf(AppendIf(AppendIf(AppendIf([(FreqPart, freq)],
              interval.0, IntervalPart, interval.1), byDay.0, ByDayPart, byDay.1),
              byMonth.0, ByMonthPart, byMonth.1), byMonthDay.0, ByMonthDayPart, byMonthDay.1),
              bySetPos.0, BySetPosPart, bySetPos.1);
            && |ps| == 1 + (if interval.0 then 1 else 0) + (if byDay.0 then 1 else 0)
                         + (if byMonth.0 then 1 else 0) + (if byMonthDay.0 then 1 else 0)
                         + (if bySetPos.0 then 1 else 0)
            && ValuesNonEmpty(ps)
  {
  }

  lemma InitialsNonEmpty(days: seq<Week>)
    ensures |days| > 0 ==> |Join(Initials(days), LIST_SEPARATOR)| >= 1
  {
    if |days| > 0 {
      JoinStartsWithFirst(Initials(days), LIST_SEPARATOR);
    }
  }

  lemma NumbersNonEmpty(ns: seq<Int32>)
    ensures |ns| > 0 ==> |Join(Numbers(ns), LIST_SEPARATOR)| >= 1
  {
    if |ns| > 0 {
      JoinStartsWithFirst(Numbers(ns), LIST_SEPARATOR);
    }
  }

  /** The parts follow the fixed order strictly, so none occurs twice. */
  predicate Ordered(ps: seq<(Part, string)>)
  {
    forall i, j :: 0 <= i < j < |ps| ==> Rank(ps[i].0) < Rank(ps[j].0)
  }

  lemma AppendIfOrdered(ps: seq<(Part, string)>, present: bool, part: Part, value: string)
    requires Ordered(ps)
    requires forall i :: 0 <= i < |ps| ==> Rank(ps[i].0) < Rank(part)
    ensures Ordered(AppendIf(ps, present, part, value))
    ensures forall i :: 0 <= i < |AppendIf(ps, present, part, value)| ==>
              Rank(AppendIf(ps, present, part, value)[i].0) <= Rank(part)
  {
  }

  lemma AppendIfKeepsHead(ps: seq<(Part, string)>, present: bool, part: Part, value: string)
    requires |ps| >= 1
    ensures |AppendIf(ps, present, part, value)| >= 1 && AppendIf(ps, present, part, value)[0] == ps[0]
  {
  }

  /** Any choice of parts, appended in the fixed order, is ordered. */
  lemma AppendAllOrdered(freq: string, interval: (bool, string), byDay: (bool, string),
                         byMonth: (bool, string), byMonthDay: (bool, string), bySetPos: (bool, string))
    ensures Ordered(
      AppendIf(AppendIf(AppendIf(AppendIf(AppendIf([(FreqPart, freq)],
        interval.0, IntervalPart, interval.1), byDay.0, ByDayPart, byDay.1),
        byMonth.0, ByMonthPart, byMonth.1), byMonthDay.0, ByMonthDayPart, byMonthDay.1),
        bySetPos.0, BySetPosPart, bySetPos.1))
  {
    var ps0 := [(FreqPart, freq)];
    var ps1 := AppendIf(ps0, interval.0, IntervalPart, interval.1);
    AppendIfOrdered(ps0, interval.0, IntervalPart, interval.1);
    var ps2 := AppendIf(ps1, byDay.0, ByDayPart, byDay.1);
    AppendIfOrdered(ps1, byDay.0, ByDayPart, byDay.1);
    var ps3 := AppendIf(ps2, byMonth.0, ByMonthPart, byMonth.1);
    AppendIfOrdered(ps2, byMonth.0, ByMonthPart, byMonth.1);
    var ps4 := AppendIf(ps3, byMonthDay.0, ByMonthDayPart, byMonthDay.1);
    AppendIfOrdered(ps3, byMonthDay.0, ByMonthDayPart, byMonthDay.1);
    AppendIfOrdered(ps4, bySetPos.0, BySetPosPart, bySetPos.1);
  }

  /** The serialised parts follow the fixed order FREQ, INTERVAL, BYDAY,
      BYMONTH, BYMONTHDAY, BYSETPOS, none twice. */
  lemma SegmentsOrdered(r: RRule)
    ensures Ordered(Segments(r))
  {
    AppendAllOrdered(Name(r.freq), (r.interval > 1, IntToString(r.interval)),
      (|r.byDay| > 0, Join(Initials(r.byDay), LIST_SEPARATOR)),
      (|r.byMonth| > 0, Join(Numbers(r.byMonth), LIST_SEPARATOR)),
      (|r.byMonthDay| > 0, Join(Numbers(r.byMonthDay), LIST_SEPARATOR)),
      (|r.bySetPos| > 0, Join(Numbers(r.bySetPos), LIST_SEPARATOR)));
  }

  /** The serialised parts start with FREQ. */
  lemma SegmentsStartWithFreq(r: RRule)
    ensures |Segments(r)| >= 1 && Segments(r)[0] == (FreqPart, Name(r.freq))
  {
    var withFreq := [(FreqPart, Name(r.freq))];
    var withInterval := AppendIf(withFreq, r.interval > 1, IntervalPart, IntToString(r.interval));
    AppendIfKeepsHead(withFreq, r.interval > 1, IntervalPart, IntToString(r.interval));
    var withByDay := AppendIf(withInterval, |r.byDay| > 0, ByDayPart, Join(Initials(r.byDay), LIST_SEPARATOR));
    AppendIfKeepsHead(withInterval, |r.byDay| > 0, ByDayPart, Join(Initials(r.byDay), LIST_SEPARATOR));
    var withByMonth := AppendIf(withByDay, |r.byMonth| > 0, ByMonthPart, Join(Numbers(r.byMonth), LIST_SEPARATOR));
    AppendIfKeepsHead(withByDay, |r.byMonth| > 0, ByMonthPart, Join(Numbers(r.byMonth), LIST_SEPARATOR));
    var withByMonthDay :=
      AppendIf(withByMonth, |r.byMonthDay| > 0, ByMonthDayPart, Join(Numbers(r.byMonthDay), LIST_SEPARATOR));
    AppendIfKeepsHead(withByMonth, |r.byMonthDay| > 0, ByMonthDayPart, Join(Numbers(r.byMonthDay), LIST_SEPARATOR));
    AppendIfKeepsHead(withByMonthDay, |r.bySetPos| > 0, BySetPosPart, Join(Numbers(r.bySetPos), LIST_SEPARATOR));
  }

  function KeyValues(ps: seq<(Part, string)>): seq<string>
  {
    seq(|ps|, i requires 0 <= i < |ps| => Keyword(ps[i].0) + [KEY_VALUE_SEPARATOR] + ps[i].1)
  }

  /** `RRULE:` followed by the parts as `key=value`, separated by `;`. */
  function Line(ps: seq<(Part, string)>): (s: string)
    ensures PROPERTY_NAME + [PROPERTY_SEPARATOR] <= s
  {
    PROPERTY_NAME + [PROPERTY_SEPARATOR] + Join(KeyValues(ps), PARTS_SEPARATOR)
  }

  /** The line of some parts starts with `RRULE:` and the first part. */
  lemma LineStartsWithFirst(ps: seq<(Part, string)>)
    requires |ps| >= 1
    ensures PROPERTY_NAME + [PROPERTY_SEPARATOR] + Keyword(ps[0].0) + [KEY_VALUE_SEPARATOR] + ps[0].1 <= Line(ps)
  {
    var head := PROPERTY_NAME + [PROPERTY_SEPARATOR];
    var body := Join(KeyValues(ps), PARTS_SEPARATOR);
    JoinStartsWithFirst(KeyValues(ps), PARTS_SEPARATOR);
    assert head + KeyValues(ps)[0] <= head + body;
  }

  /** The serialised line of a valid rule: it always starts `RRULE:FREQ=`
      and the frequency's name. */
  function Render(r: RRule): (s: string)
    ensures PROPERTY_NAME + [PROPERTY_SEPARATOR] + FREQ + [KEY_VALUE_SEPARATOR] + Name(r.freq) <= s
  {
    SegmentsStartWithFreq(r);
    LineStartsWithFirst(Segments(r));
    Line(Segments(r))
  }

  /** `toRFC5545String` as a value: the first failed range check, or the line. */
  function Serialize(r: RRule): (res: Result<string>)
    ensures res.Ok? <==> IsValid(r)
    ensures res.Err? ==> RequirePrecondition(r) == Fail(res.error)
  {
    match RequirePrecondition(r)
    case Fail(m) => Err(m)
    case Pass => Ok(Render(r))
  }

  /** One more part adds one more `key=value` text. */
  lemma KeyValuesSnoc(ps: seq<(Part, string)>, part: Part, value: string)
    ensures KeyValues(ps + [(part, value)]) == KeyValues(ps) + [Keyword(part) + [KEY_VALUE_SEPARATOR] + value]
  {
  }

  /** Appending `;key=value` to the line of some parts gives the line of one
      more part. */
  lemma LineSnoc(ps: seq<(Part, string)>, part: Part, value: string)
    requires |ps| >= 1
    ensures Line(ps) + [PARTS_SEPARATOR] + Keyword(part) + [KEY_VALUE_SEPARATOR] + value
            == Line(ps + [(part, value)])
  {
    KeyValuesSnoc(ps, part, value);
    JoinSnoc(KeyValues(ps), Keyword(part) + [KEY_VALUE_SEPARATOR] + value, PARTS_SEPARATOR);
    Regroup(PROPERTY_NAME + [PROPERTY_SEPARATOR], Join(KeyValues(ps), PARTS_SEPARATOR),
            [PARTS_SEPARATOR], Keyword(part) + [KEY_VALUE_SEPARATOR], value);
  }

  lemma Regroup(head: string, joined: string, sep: string, key: string, value: string)
    ensures head + joined + sep + key + value == head + (joined + sep + (key + value))
  {
  }

  /** `append(";", key, "=")` then `append(value)` on the buffer, which holds
      the line of the parts written so far. */
  method AppendPart(sb: string, ghost written: seq<(Part, string)>, part: Part, value: string)
    returns (extended: string)
    requires |written| >= 1 && sb == Line(written)
    ensures extended == Line(written + [(part, value)])
  {
    LineSnoc(written, part, value);
    extended := sb + [PARTS_SEPARATOR] + Keyword(part) + [KEY_VALUE_SEPARATOR];
    extended := extended + value;
  }

  /** `toRFC5545String`: check the ranges, then build the line. */
  method ToRFC5545String(r: RRule) returns (res: Result<string>)
    ensures res == Serialize(r)
  {
    var pre := RequirePrecondition(r);
    if pre.Fail? {
      return Err(pre.message);
    }
    var line := BuildLine(r);
    return Ok(line);
  }

  /** The `buildString` block of `toRFC5545String`: append the parts one by
      one to a buffer. */
  method BuildLine(r: RRule) returns (sb: string)
    ensures sb == Render(r)
  {
    sb := PROPERTY_NAME + [PROPERTY_SEPARATOR];
    sb := sb + FREQ + [KEY_VALUE_SEPARATOR];
    sb := sb + Name(r.freq);
    ghost var written := [(FreqPart, Name(r.freq))];
    assert sb == Line(written) by {
      assert KeyValues(written) == [FREQ + [KEY_VALUE_SEPARATOR] + Name(r.freq)];
    }
    ghost var before := written;
    if r.interval > 1 {
      var value := IntToString(r.interval);
      sb := AppendPart(sb, written, IntervalPart, value);
      written := written + [(IntervalPart, value)];
    }
    assert written == AppendIf(before, r.interval > 1, IntervalPart, IntToString(r.interval));
    before := written;
    if |r.byDay| > 0 {
      var value := Join(Initials(r.byDay), LIST_SEPARATOR);
      sb := AppendPart(sb, written, ByDayPart, value);
      written := written + [(ByDayPart, value)];
    }
    assert written == AppendIf(before, |r.byDay| > 0, ByDayPart, Join(Initials(r.byDay), LIST_SEPARATOR));
    before := written;
    if |r.byMonth| > 0 {
      var value := Join(Numbers(r.byMonth), LIST_SEPARATOR);
      sb := AppendPart(sb, written, ByMonthPart, value);
      written := written + [(ByMonthPart, value)];
    }
    assert written == AppendIf(before, |r.byMonth| > 0, ByMonthPart, Join(Numbers(r.byMonth), LIST_SEPARATOR));
    before := written;
    if |r.byMonthDay| > 0 {
      var value := Join(Numbers(r.byMonthDay), LIST_SEPARATOR);
      sb := AppendPart(sb, written, ByMonthDayPart, value);
      written := written + [(ByMonthDayPart, value)];
    }
    assert written == AppendIf(before, |r.byMonthDay| > 0, ByMonthDayPart, Join(Numbers(r.byMonthDay), LIST_SEPARATOR));
    before := written;
    if |r.bySetPos| > 0 {
      var value := Join(Numbers(r.bySetPos), LIST_SEPARATOR);
      sb := AppendPart(sb, written, BySetPosPart, value);
      written := written + [(BySetPosPart, value)];
    }
    assert written == AppendIf(before, |r.bySetPos| > 0, BySetPosPart, Join(Numbers(r.bySetPos), LIST_SEPARATOR));
    assert written == Segments(r);
  }

  // ---------------------------------------------------------------------------
  // Parsing

  /** One part of the line as `associate` files it: split at the first `=`;
      a part without `=` is filed under the empty key with an empty value. */
  function KeyValue(component: string): (kv: (string, string))
    ensures KEY_VALUE_SEPARATOR !in component ==> kv == ("", "")
    ensures KEY_VALUE_SEPARATOR in component ==>
              KEY_VALUE_SEPARATOR !in kv.0 && kv.0 + [KEY_VALUE_SEPARATOR] + kv.1 == component
  {
    var parts := SplitOnce(component, KEY_VALUE_SEPARATOR);
    if |parts| < 2 then ("", "") else (parts[0], parts[1])
  }

  /** `associate`: a map from each key to its value, a later pair replacing an
      earlier one with the same key. */
  function Associate(ps: seq<(string, string)>): (m: map<string, string>)
    ensures forall k :: k in m <==> HasKey(ps, k)
    decreases |ps|
  {
    if ps == [] then map[]
    else
      var init := ps[..|ps| - 1];
      assert forall i :: 0 <= i < |init| ==> init[i] == ps[i];
      Associate(init)[ps[|ps| - 1].0 := ps[|ps| - 1].1]
  }

  /** A key `associate` keeps comes, with its value, from one of the pairs. */
  lemma {:induction false} AssociateFrom(ps: seq<(string, string)>, k: string)
    requires k in Associate(ps)
    ensures exists i :: 0 <= i < |ps| && ps[i] == (k, Associate(ps)[k])
    decreases |ps|
  {
    var last := ps[|ps| - 1];
    if last.0 != k {
      var init := ps[..|ps| - 1];
      AssociateFrom(init, k);
      var i :| 0 <= i < |init| && init[i] == (k, Associate(init)[k]);
      assert ps[i] == init[i];
    } else {
      assert ps[|ps| - 1] == (k, Associate(ps)[k]);
    }
  }

  /** Every part split at its first `=`. */
  function KeyValuePairs(parts: seq<string>): (ps: seq<(string, string)>)
    ensures |ps| == |parts|
    ensures forall i :: 0 <= i < |parts| ==> ps[i] == KeyValue(parts[i])
  {
    seq(|parts|, i requires 0 <= i < |parts| => KeyValue(parts[i]))
  }

  /** The key/value map of a line: drop one leading `RRULE:`, split on `;`,
      split each part at its first `=`. */
  function Components(text: string): (m: map<string, string>)
  {
    Associate(KeyValuePairs(Split(RemovePrefix(text, PROPERTY_NAME + [PROPERTY_SEPARATOR]), PARTS_SEPARATOR)))
  }

  /** A line's map is never empty (even the empty line has one segment); no
      key holds `;` or `=`, and no value holds `;`. */
  lemma ComponentsShape(text: string)
    ensures Components(text) != map[]
    ensures forall k :: k in Components(text) ==> PARTS_SEPARATOR !in k && KEY_VALUE_SEPARATOR !in k
    ensures forall k :: k in Components(text) ==> PARTS_SEPARATOR !in Components(text)[k]
  {
    var pieces := Split(RemovePrefix(text, PROPERTY_NAME + [PROPERTY_SEPARATOR]), PARTS_SEPARATOR);
    var ps := KeyValuePairs(pieces);
    assert HasKey(ps, ps[0].0);
    forall k | k in Associate(ps)
      ensures PARTS_SEPARATOR !in k && KEY_VALUE_SEPARATOR !in k && PARTS_SEPARATOR !in Associate(ps)[k]
    {
      AssociateFrom(ps, k);
      var i :| 0 <= i < |ps| && ps[i] == (k, Associate(ps)[k]);
      PieceAvoids(pieces[i]);
    }
  }

  /** Neither half of a `;`-free part holds a `;`, and the key holds no `=`. */
  lemma PieceAvoids(piece: string)
    requires PARTS_SEPARATOR !in piece
    ensures PARTS_SEPARATOR !in KeyValue(piece).0 && KEY_VALUE_SEPARATOR !in KeyValue(piece).0
    ensures PARTS_SEPARATOR !in KeyValue(piece).1
  {
    var kv := KeyValue(piece);
    if KEY_VALUE_SEPARATOR in piece {
      assert piece == kv.0 + [KEY_VALUE_SEPARATOR] + kv.1;
      assert piece[..|kv.0|] == kv.0 && piece[|kv.0| + 1..] == kv.1;
    }
  }

  /** FREQ: upper-cased, then looked up by name; DAILY when absent. */
  function ResolveFreq(c: map<string, string>): (res: Result<Frequency>)
    ensures FREQ !in c ==> res == Ok(DAILY)
    ensures FREQ in c ==> (res.Ok? <==> exists f: Frequency :: Name(f) == UpperCase(c[FREQ]))
    ensures FREQ in c && res.Ok? ==> Name(res.value) == UpperCase(c[FREQ])
    ensures res.Err? ==> res.error == FrequencyValidateErrorMessage()
  {
    if FREQ in c then
      match ValueOf(UpperCase(c[FREQ]))
      case Some(f) => Ok(f)
      case None => Err(FrequencyValidateErrorMessage())
    else Ok(DAILY)
  }

  /** INTERVAL: a non-negative `Int`; 1 when absent. */
  function ResolveInterval(c: map<string, string>): (res: Result<Int32>)
    ensures INTERVAL !in c ==> res == Ok(1)
    ensures INTERVAL in c ==>
              (res.Ok? <==> ParseInt(c[INTERVAL]).Some? && ParseInt(c[INTERVAL]).value >= 0)
    ensures INTERVAL in c && res.Ok? ==> ParseInt(c[INTERVAL]) == Some(res.value)
    ensures res.Ok? ==> res.value >= 0
    ensures res.Err? ==> res.error == INTERVAL_VALIDATE_ERROR_MESSAGE
  {
    if INTERVAL in c then
      match ParseInt(c[INTERVAL])
      case Some(n) => if n >= 0 then Ok(n) else Err(INTERVAL_VALIDATE_ERROR_MESSAGE)
      case None => Err(INTERVAL_VALIDATE_ERROR_MESSAGE)
    else Ok(1)
  }

  /** `mapToSet`'s default `validate`, which accepts every value. */
  predicate AcceptAny(w: Week)
  {
    true
  }

  /** BYDAY: every comma-separated token must be one of the seven codes; the
      empty set when absent. */
  function ResolveByDay(c: map<string, string>): (res: Result<OrderedSet<Week>>)
    ensures BYDAY !in c ==> res == Ok([])
    ensures BYDAY in c && res.Ok? ==>
              forall i :: 0 <= i < |Split(c[BYDAY], LIST_SEPARATOR)| ==>
                InitialValueOf(Split(c[BYDAY], LIST_SEPARATOR)[i]).Some?
    ensures BYDAY in c && res.Err? ==>
              exists i :: 0 <= i < |Split(c[BYDAY], LIST_SEPARATOR)| &&
                InitialValueOf(Split(c[BYDAY], LIST_SEPARATOR)[i]).None?
    ensures BYDAY in c && res.Ok? ==>
              res.value == Dedup(MapAll(Split(c[BYDAY], LIST_SEPARATOR), InitialValueOf).value)
    ensures res.Err? ==> res.error == ByDayValidateErrorMessage()
  {
    if BYDAY in c then
      match MapToSet(c[BYDAY], AcceptAny, InitialValueOf)
      case Some(days) => Ok(days)
      case None =>
        var tokens := Split(c[BYDAY], LIST_SEPARATOR);
        assert !Accepts(tokens, AcceptAny, InitialValueOf);
        assert !(forall j :: 0 <= j < |tokens| ==> InitialValueOf(tokens[j]).Some?) by {
          var i :| 0 <= i < |tokens| && !(InitialValueOf(tokens[i]).Some? && AcceptAny(InitialValueOf(tokens[i]).value));
          assert InitialValueOf(tokens[i]).None?;
        }
        Err(ByDayValidateErrorMessage())
    else Ok([])
  }

  /** BYMONTH, BYMONTHDAY, BYSETPOS: every comma-separated token must be an
      `Int` that passes `validator`; the empty set when absent. */
  function ParseSet(c: map<string, string>, key: string, validator: Int32 -> bool, errorMessage: string)
    : (res: Result<OrderedSet<Int32>>)
    ensures key !in c ==> res == Ok([])
    ensures key in c ==> (res.Ok? <==> Accepts(Split(c[key], LIST_SEPARATOR), validator, ParseInt))
    ensures key in c && res.Ok? ==>
              res.value == Dedup(MapAll(Split(c[key], LIST_SEPARATOR), ParseInt).value)
    ensures res.Ok? ==> forall i :: 0 <= i < |res.value| ==> validator(res.value[i])
    ensures res.Err? ==> res.error == errorMessage
  {
    if key in c then
      match MapToSet(c[key], validator, ParseInt)
      case Some(ns) => Ok(ns)
      case None => Err(errorMessage)
    else Ok([])
  }

  /** Resolve the parts in the order FREQ, INTERVAL, BYDAY, BYMONTH,
      BYMONTHDAY, BYSETPOS; the first failure is the result. */
  function Resolve(c: map<string, string>): (res: Result<RRule>)
    ensures res.Ok? ==> IsValid(res.value)
  {
    var freq :- ResolveFreq(c);
    var interval :- ResolveInterval(c);
    var byDay :- ResolveByDay(c);
    var byMonth :- ParseSet(c, BYMONTH, ByMonthValidator, BYMONTH_VALIDATE_ERROR_MESSAGE);
    var byMonthDay :- ParseSet(c, BYMONTHDAY, ByMonthDayValidator, BYMONTHDAY_VALIDATE_ERROR_MESSAGE);
    var bySetPos :- ParseSet(c, BYSETPOS, BySetPosValidator, BYSETPOS_VALIDATE_ERROR_MESSAGE);
    Ok(RRule(freq, interval, byDay, byMonth, byMonthDay, bySetPos))
  }

  /** `RRule(rfc5545String)`: the key/value map of the line, resolved. */
  function Parse(text: string): (res: Result<RRule>)
    ensures res.Ok? ==> IsValid(res.value)
  {
    Resolve(Components(text))
  }
}
