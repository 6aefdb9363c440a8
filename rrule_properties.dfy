/** Properties that relate the serialiser and the parser of `RRule`: what the
    serialised line holds, the round trips, the leniency of the parser and the
    order in which its errors are reported. */
module RRuleProperties {
  import opened Results
  import opened Text
  import opened OrderedSets
  import opened RRuleSyntax
  import opened Weeks
  import opened Frequencies
  import opened Validators
  import opened RRules

  // ---------------------------------------------------------------------------
  // `associate`

  /** A later pair for the same key replaces the earlier one. */
  lemma AssociateLastWins(ps: seq<(string, string)>, key: string, value: string)
    ensures Associate(ps + [(key, value)]) == Associate(ps)[key := value]
  {
    assert (ps + [(key, value)])[..|ps|] == ps;
  }

  // ---------------------------------------------------------------------------
  // What the serialised line holds

  /** The parts as `associate` files them: under their keyword. */
  function Pairs(ps: seq<(Part, string)>): seq<(string, string)>
  {
    seq(|ps|, i requires 0 <= i < |ps| => (Keyword(ps[i].0), ps[i].1))
  }

  /** The key/value map of the parts a rule is serialised to. */
  function Fields(r: RRule): map<string, string>
  {
    Associate(Pairs(Segments(r)))
  }

  /** The value of the last occurrence of `part` in `ps`. */
  function Find(ps: seq<(Part, string)>, part: Part): Option<string>
    decreases |ps|
  {
    if ps == [] then None
    else if ps[|ps| - 1].0 == part then Some(ps[|ps| - 1].1)
    else Find(ps[..|ps| - 1], part)
  }

  lemma FindAppendIf(ps: seq<(Part, string)>, present: bool, part: Part, value: string, query: Part)
    ensures Find(AppendIf(ps, present, part, value), query)
            == if present && query == part then Some(value) else Find(ps, query)
  {
    if present {
      assert (ps + [(part, value)])[..|ps|] == ps;
    }
  }

  lemma KeywordInjective(p: Part, q: Part)
    requires Keyword(p) == Keyword(q)
    ensures p == q
  {
    FieldKeywordsDistinct();
    var i, j := Rank(p), Rank(q);
    assert FieldKeywords[i] == FieldKeywords[j];
  }

  /** `associate` over the keywords finds what `Find` finds over the parts. */
  lemma {:induction false} AssociateFind(ps: seq<(Part, string)>, part: Part)
    ensures Keyword(part) in Associate(Pairs(ps)) <==> Find(ps, part).Some?
    ensures Find(ps, part).Some? ==> Associate(Pairs(ps))[Keyword(part)] == Find(ps, part).value
    decreases |ps|
  {
    if ps != [] {
      var init := ps[..|ps| - 1];
      var last := ps[|ps| - 1];
      assert ps == init + [last];
      assert Pairs(ps) == Pairs(init) + [(Keyword(last.0), last.1)];
      AssociateLastWins(Pairs(init), Keyword(last.0), last.1);
      AssociateFind(init, part);
      if last.0 != part && Keyword(last.0) == Keyword(part) {
        KeywordInjective(last.0, part);
      }
    }
  }

  /** Only rule-part keywords occur among the keys. */
  lemma AssociateKeys(ps: seq<(Part, string)>)
    ensures forall k :: k in Associate(Pairs(ps)) ==> k in FieldKeywords
  {
    forall k | k in Associate(Pairs(ps)) ensures k in FieldKeywords {
      var i :| 0 <= i < |Pairs(ps)| && Pairs(ps)[i].0 == k;
      assert FieldKeywords[Rank(ps[i].0)] == k;
    }
  }

  /** What `Find` gives for any choice of parts appended in the fixed order. */
  lemma FindAppendAll(freq: string, interval: (bool, string), byDay: (bool, string),
                      byMonth: (bool, string), byMonthDay: (bool, string), bySetPos: (bool, string),
                      query: Part)
    ensures Find(AppendIf(AppendIf(AppendIf(AppendIf(AppendIf([(FreqPart, freq)],
                interval.0, IntervalPart, interval.1), byDay.0, ByDayPart, byDay.1),
                byMonth.0, ByMonthPart, byMonth.1), byMonthDay.0, ByMonthDayPart, byMonthDay.1),
                bySetPos.0, BySetPosPart, bySetPos.1), query)
            == match query
               case FreqPart => Some(freq)
               case IntervalPart => if interval.0 then Some(interval.1) else None
               case ByDayPart => if byDay.0 then Some(byDay.1) else None
               case ByMonthPart => if byMonth.0 then Some(byMonth.1) else None
               case ByMonthDayPart => if byMonthDay.0 then Some(byMonthDay.1) else None
               case BySetPosPart => if bySetPos.0 then Some(bySetPos.1) else None
  {
    var ps0 := [(FreqPart, freq)];
    assert ps0[..0] == [];
    var ps1 := AppendIf(ps0, interval.0, IntervalPart, interval.1);
    FindAppendIf(ps0, interval.0, IntervalPart, interval.1, query);
    var ps2 := AppendIf(ps1, byDay.0, ByDayPart, byDay.1);
    FindAppendIf(ps1, byDay.0, ByDayPart, byDay.1, query);
    var ps3 := AppendIf(ps2, byMonth.0, ByMonthPart, byMonth.1);
    FindAppendIf(ps2, byMonth.0, ByMonthPart, byMonth.1, query);
    var ps4 := AppendIf(ps3, byMonthDay.0, ByMonthDayPart, byMonthDay.1);
    FindAppendIf(ps3, byMonthDay.0, ByMonthDayPart, byMonthDay.1, query);
    FindAppendIf(ps4, bySetPos.0, BySetPosPart, bySetPos.1, query);
  }

  /** Where each part of a rule stands in its serialised parts. */
  lemma FindInSegments(r: RRule)
    ensures Find(Segments(r), FreqPart) == Some(Name(r.freq))
    ensures Find(Segments(r), IntervalPart) == (if r.interval > 1 then Some(IntToString(r.interval)) else None)
    ensures Find(Segments(r), ByDayPart)
            == (if |r.byDay| > 0 then Some(Join(Initials(r.byDay), LIST_SEPARATOR)) else None)
    ensures Find(Segments(r), ByMonthPart)
            == (if |r.byMonth| > 0 then Some(Join(Numbers(r.byMonth), LIST_SEPARATOR)) else None)
    ensures Find(Segments(r), ByMonthDayPart)
            == (if |r.byMonthDay| > 0 then Some(Join(Numbers(r.byMonthDay), LIST_SEPARATOR)) else None)
    ensures Find(Segments(r), BySetPosPart)
            == (if |r.bySetPos| > 0 then Some(Join(Numbers(r.bySetPos), LIST_SEPARATOR)) else None)
  {
    var interval := (r.interval > 1, IntToString(r.interval));
    var byDay := (|r.byDay| > 0, Join(Initials(r.byDay), LIST_SEPARATOR));
    var byMonth := (|r.byMonth| > 0, Join(Numbers(r.byMonth), LIST_SEPARATOR));
    var byMonthDay := (|r.byMonthDay| > 0, Join(Numbers(r.byMonthDay), LIST_SEPARATOR));
    var bySetPos := (|r.bySetPos| > 0, Join(Numbers(r.bySetPos), LIST_SEPARATOR));
    FindAppendAll(Name(r.freq), interval, byDay, byMonth, byMonthDay, bySetPos, FreqPart);
    FindAppendAll(Name(r.freq), interval, byDay, byMonth, byMonthDay, bySetPos, IntervalPart);
    FindAppendAll(Name(r.freq), interval, byDay, byMonth, byMonthDay, bySetPos, ByDayPart);
    FindAppendAll(Name(r.freq), interval, byDay, byMonth, byMonthDay, bySetPos, ByMonthPart);
    FindAppendAll(Name(r.freq), interval, byDay, byMonth, byMonthDay, bySetPos, ByMonthDayPart);
    FindAppendAll(Name(r.freq), interval, byDay, byMonth, byMonthDay, bySetPos, BySetPosPart);
  }

  /** The serialised line always has FREQ; it has INTERVAL exactly when the
      interval exceeds 1, and each list-valued part exactly when its set is
      non-empty, written as its elements joined by `,`; it has no other key. */
  lemma FieldsOfRule(r: RRule)
    ensures forall k :: k in Fields(r) ==> k in FieldKeywords
    ensures FREQ in Fields(r) && Fields(r)[FREQ] == Name(r.freq)
    ensures INTERVAL in Fields(r) <==> r.interval > 1
    ensures INTERVAL in Fields(r) ==> Fields(r)[INTERVAL] == IntToString(r.interval)
    ensures BYDAY in Fields(r) <==> |r.byDay| > 0
    ensures BYDAY in Fields(r) ==> Fields(r)[BYDAY] == Join(Initials(r.byDay), LIST_SEPARATOR)
    ensures BYMONTH in Fields(r) <==> |r.byMonth| > 0
    ensures BYMONTH in Fields(r) ==> Fields(r)[BYMONTH] == Join(Numbers(r.byMonth), LIST_SEPARATOR)
    ensures BYMONTHDAY in Fields(r) <==> |r.byMonthDay| > 0
    ensures BYMONTHDAY in Fields(r) ==> Fields(r)[BYMONTHDAY] == Join(Numbers(r.byMonthDay), LIST_SEPARATOR)
    ensures BYSETPOS in Fields(r) <==> |r.bySetPos| > 0
    ensures BYSETPOS in Fields(r) ==> Fields(r)[BYSETPOS] == Join(Numbers(r.bySetPos), LIST_SEPARATOR)
  {
    FindInSegments(r);
    AssociateKeys(Segments(r));
    AssociateFind(Segments(r), FreqPart);
    AssociateFind(Segments(r), IntervalPart);
    AssociateFind(Segments(r), ByDayPart);
    AssociateFind(Segments(r), ByMonthPart);
    AssociateFind(Segments(r), ByMonthDayPart);
    AssociateFind(Segments(r), BySetPosPart);
  }

  // ---------------------------------------------------------------------------
  // Reading the serialised line back into its key/value map

  /** No value holds a `;`. */
  predicate ValuesAvoidParts(ps: seq<(Part, string)>)
  {
    forall i :: 0 <= i < |ps| ==> PARTS_SEPARATOR !in ps[i].1
  }

  lemma AppendIfAvoids(ps: seq<(Part, string)>, present: bool, part: Part, value: string)
    requires ValuesAvoidParts(ps) && PARTS_SEPARATOR !in value
    ensures ValuesAvoidParts(AppendIf(ps, present, part, value))
  {
  }

  lemma AppendAllAvoids(freq: string, interval: (bool, string), byDay: (bool, string),
                        byMonth: (bool, string), byMonthDay: (bool, string), bySetPos: (bool, string))
    requires PARTS_SEPARATOR !in freq && PARTS_SEPARATOR !in interval.1 && PARTS_SEPARATOR !in byDay.1
    requires PARTS_SEPARATOR !in byMonth.1 && PARTS_SEPARATOR !in byMonthDay.1 && PARTS_SEPARATOR !in bySetPos.1
    ensures ValuesAvoidParts(
      AppendIf(AppendIf(AppendIf(AppendIf(AppendIf([(FreqPart, freq)],
        interval.0, IntervalPart, interval.1), byDay.0, ByDayPart, byDay.1),
        byMonth.0, ByMonthPart, byMonth.1), byMonthDay.0, ByMonthDayPart, byMonthDay.1),
        bySetPos.0, BySetPosPart, bySetPos.1))
  {
    var ps0 := [(FreqPart, freq)];
    var ps1 := AppendIf(ps0, interval.0, IntervalPart, interval.1);
    AppendIfAvoids(ps0, interval.0, IntervalPart, interval.1);
    var ps2 := AppendIf(ps1, byDay.0, ByDayPart, byDay.1);
    AppendIfAvoids(ps1, byDay.0, ByDayPart, byDay.1);
    var ps3 := AppendIf(ps2, byMonth.0, ByMonthPart, byMonth.1);
    AppendIfAvoids(ps2, byMonth.0, ByMonthPart, byMonth.1);
    var ps4 := AppendIf(ps3, byMonthDay.0, ByMonthDayPart, byMonthDay.1);
    AppendIfAvoids(ps3, byMonthDay.0, ByMonthDayPart, byMonthDay.1);
    AppendIfAvoids(ps4, bySetPos.0, BySetPosPart, bySetPos.1);
  }

  lemma NumbersAvoid(ns: seq<Int32>, c: char)
    requires c != '-' && !IsDigit(c)
    ensures c !in Join(Numbers(ns), LIST_SEPARATOR) || c == LIST_SEPARATOR
  {
    if c != LIST_SEPARATOR {
      JoinAvoids(Numbers(ns), LIST_SEPARATOR, c);
    }
  }

  lemma InitialsAvoid(days: seq<Week>, c: char)
    requires c == PARTS_SEPARATOR || c == KEY_VALUE_SEPARATOR
    ensures c !in Join(Initials(days), LIST_SEPARATOR)
  {
    forall i | 0 <= i < |days| ensures c !in Initials(days)[i] {
      match days[i]
      case MONDAY => case TUESDAY => case WEDNESDAY => case THURSDAY =>
      case FRIDAY => case SATURDAY => case SUNDAY =>
    }
    JoinAvoids(Initials(days), LIST_SEPARATOR, c);
  }

  /** No value of a serialised part holds a `;`. */
  lemma SegmentsAvoidParts(r: RRule)
    ensures ValuesAvoidParts(Segments(r))
  {
    InitialsAvoid(r.byDay, PARTS_SEPARATOR);
    NumbersAvoid(r.byMonth, PARTS_SEPARATOR);
    NumbersAvoid(r.byMonthDay, PARTS_SEPARATOR);
    NumbersAvoid(r.bySetPos, PARTS_SEPARATOR);
    AppendAllAvoids(Name(r.freq), (r.interval > 1, IntToString(r.interval)),
      (|r.byDay| > 0, Join(Initials(r.byDay), LIST_SEPARATOR)),
      (|r.byMonth| > 0, Join(Numbers(r.byMonth), LIST_SEPARATOR)),
      (|r.byMonthDay| > 0, Join(Numbers(r.byMonthDay), LIST_SEPARATOR)),
      (|r.bySetPos| > 0, Join(Numbers(r.bySetPos), LIST_SEPARATOR)));
  }

  lemma KeywordAvoidsSeparators(p: Part)
    ensures PARTS_SEPARATOR !in Keyword(p) && KEY_VALUE_SEPARATOR !in Keyword(p)
  {
    KeywordsAvoidSeparators();
    assert Keywords[Rank(p) + 1] == Keyword(p);
    assert Separators[1] == KEY_VALUE_SEPARATOR && Separators[2] == PARTS_SEPARATOR;
  }

  /** Splitting a `key=value` text at its first `=` gives the pair back. */
  lemma KeyValueOfPart(p: Part, value: string)
    ensures KeyValue(Keyword(p) + [KEY_VALUE_SEPARATOR] + value) == (Keyword(p), value)
  {
    KeywordAvoidsSeparators(p);
    SplitOnceAt(Keyword(p), value, KEY_VALUE_SEPARATOR);
  }

  /** Reading a line of parts whose values hold no `;` gives the map of the parts. */
  lemma ComponentsOfLine(ps: seq<(Part, string)>)
    requires |ps| >= 1 && ValuesAvoidParts(ps)
    ensures Components(Line(ps)) == Associate(Pairs(ps))
  {
    var head := PROPERTY_NAME + [PROPERTY_SEPARATOR];
    var body := Join(KeyValues(ps), PARTS_SEPARATOR);
    assert RemovePrefix(Line(ps), head) == body by {
      assert head <= Line(ps);
      assert Line(ps)[|head|..] == body;
    }
    forall i | 0 <= i < |ps| ensures PARTS_SEPARATOR !in KeyValues(ps)[i] {
      KeywordAvoidsSeparators(ps[i].0);
    }
    SplitJoin(KeyValues(ps), PARTS_SEPARATOR);
    var parts := KeyValues(ps);
    forall i | 0 <= i < |ps| ensures KeyValue(parts[i]) == Pairs(ps)[i] {
      KeyValueOfPart(ps[i].0, ps[i].1);
    }
    assert KeyValuePairs(parts) == Pairs(ps);
  }

  /** Reading the serialised line of a rule gives the map of its parts. */
  lemma ComponentsOfRender(r: RRule)
    ensures Components(Render(r)) == Fields(r)
  {
    SegmentsStartWithFreq(r);
    SegmentsAvoidParts(r);
    ComponentsOfLine(Segments(r));
  }

  // ---------------------------------------------------------------------------
  // Round trips

  /** The rule that reading back a serialised rule gives: the same rule,
      except that an interval of 0, which is not written, reads back as the
      default 1. */
  function Canonical(r: RRule): (c: RRule)
    ensures c.interval == (if r.interval == 0 then 1 else r.interval)
    ensures c.(interval := r.interval) == r
  {
    if r.interval == 0 then r.(interval := 1) else r
  }

  /** FREQ written as a frequency's name reads back as that frequency. */
  lemma ResolveFreqOfName(c: map<string, string>, f: Frequency)
    requires FREQ in c && c[FREQ] == Name(f)
    ensures ResolveFreq(c) == Ok(f)
  {
    UpperCaseKeepsUpper(Name(f));
    ValueOfName(f);
  }

  /** FREQ is read case-insensitively: any mix of upper and lower case that
      spells a frequency's name reads as that frequency. */
  lemma ResolveFreqIgnoresCase(c: map<string, string>, f: Frequency)
    requires FREQ in c && EqualsIgnoringAsciiCase(c[FREQ], Name(f))
    ensures ResolveFreq(c) == Ok(f)
  {
    UpperCaseIgnoresAsciiCase(c[FREQ], Name(f));
    ValueOfName(f);
  }

  /** INTERVAL, written only when above 1, reads back as the same interval,
      and as 1 when it was not written. */
  lemma ResolveIntervalOfNumber(c: map<string, string>, n: Int32)
    requires n >= 0
    requires INTERVAL in c <==> n > 1
    requires INTERVAL in c ==> c[INTERVAL] == IntToString(n)
    ensures ResolveInterval(c) == Ok(if n == 0 then 1 else n)
  {
    if n > 1 {
      ParseIntToString(n);
    }
  }

  /** BYDAY written as the joined codes of some days reads back as those
      days, each once, in the order of their first occurrences. */
  lemma ResolveByDayOfInitials(c: map<string, string>, days: seq<Week>)
    requires BYDAY in c <==> |days| > 0
    requires BYDAY in c ==> c[BYDAY] == Join(Initials(days), LIST_SEPARATOR)
    ensures ResolveByDay(c) == Ok(Dedup(days))
  {
    if |days| > 0 {
      InitialsReadBack(days);
      MapToSetJoin(days, Initials(days), AcceptAny, InitialValueOf);
      assert MapToSet(c[BYDAY], AcceptAny, InitialValueOf) == Some(Dedup(days));
    }
  }

  /** Every day's code reads back as that day and holds no `,`. */
  lemma InitialsReadBack(days: seq<Week>)
    ensures forall i :: 0 <= i < |days| ==> InitialValueOf(Initials(days)[i]) == Some(days[i])
    ensures forall i :: 0 <= i < |days| ==> LIST_SEPARATOR !in Initials(days)[i]
  {
    forall i | 0 <= i < |days|
      ensures InitialValueOf(Initials(days)[i]) == Some(days[i])
      ensures LIST_SEPARATOR !in Initials(days)[i]
    {
      InitialValueOfInitial(days[i]);
      match days[i]
      case MONDAY => case TUESDAY => case WEDNESDAY => case THURSDAY =>
      case FRIDAY => case SATURDAY => case SUNDAY =>
    }
  }


  /** A list-valued part written as joined numbers that pass the validator
      reads back as those numbers, each once, in the order of their first
      occurrences. */
  lemma ParseSetOfNumbers(c: map<string, string>, key: string, ns: seq<Int32>,
                          validator: Int32 -> bool, errorMessage: string)
    requires key in c <==> |ns| > 0
    requires key in c ==> c[key] == Join(Numbers(ns), LIST_SEPARATOR)
    requires forall i :: 0 <= i < |ns| ==> validator(ns[i])
    ensures ParseSet(c, key, validator, errorMessage) == Ok(Dedup(ns))
  {
    if |ns| > 0 {
      NumbersReadBack(ns);
      MapToSetJoin(ns, Numbers(ns), validator, ParseInt);
    }
  }

  /** Every number's decimal text reads back as that number and holds no `,`. */
  lemma NumbersReadBack(ns: seq<Int32>)
    ensures forall i :: 0 <= i < |ns| ==> ParseInt(Numbers(ns)[i]) == Some(ns[i])
    ensures forall i :: 0 <= i < |ns| ==> LIST_SEPARATOR !in Numbers(ns)[i]
  {
    forall i | 0 <= i < |ns|
      ensures ParseInt(Numbers(ns)[i]) == Some(ns[i])
      ensures LIST_SEPARATOR !in Numbers(ns)[i]
    {
      NumberReadsBack(ns[i]);
    }
  }

  lemma NumberReadsBack(n: Int32)
    ensures ParseInt(IntToString(n)) == Some(n)
    ensures LIST_SEPARATOR !in IntToString(n)
  {
    ParseIntToString(n);
  }

  /** When every part resolves to the rule's own value, the map resolves to
      the rule. */
  lemma ResolveOfResolved(c: map<string, string>, r: RRule)
    requires ResolveFreq(c) == Ok(r.freq) && ResolveInterval(c) == Ok(r.interval)
    requires ResolveByDay(c) == Ok(r.byDay)
    requires ParseSet(c, BYMONTH, ByMonthValidator, BYMONTH_VALIDATE_ERROR_MESSAGE) == Ok(r.byMonth)
    requires ParseSet(c, BYMONTHDAY, ByMonthDayValidator, BYMONTHDAY_VALIDATE_ERROR_MESSAGE) == Ok(r.byMonthDay)
    requires ParseSet(c, BYSETPOS, BySetPosValidator, BYSETPOS_VALIDATE_ERROR_MESSAGE) == Ok(r.bySetPos)
    ensures Resolve(c) == Ok(r)
  {
  }

  /** A map holding a valid rule's parts, written as the serialiser writes
      them, resolves to that rule (with an interval of 0 read back as 1). */
  lemma ResolveOfParts(c: map<string, string>, r: RRule)
    requires IsValid(r)
    requires FREQ in c && c[FREQ] == Name(r.freq)
    requires INTERVAL in c <==> r.interval > 1
    requires INTERVAL in c ==> c[INTERVAL] == IntToString(r.interval)
    requires BYDAY in c <==> |r.byDay| > 0
    requires BYDAY in c ==> c[BYDAY] == Join(Initials(r.byDay), LIST_SEPARATOR)
    requires BYMONTH in c <==> |r.byMonth| > 0
    requires BYMONTH in c ==> c[BYMONTH] == Join(Numbers(r.byMonth), LIST_SEPARATOR)
    requires BYMONTHDAY in c <==> |r.byMonthDay| > 0
    requires BYMONTHDAY in c ==> c[BYMONTHDAY] == Join(Numbers(r.byMonthDay), LIST_SEPARATOR)
    requires BYSETPOS in c <==> |r.bySetPos| > 0
    requires BYSETPOS in c ==> c[BYSETPOS] == Join(Numbers(r.bySetPos), LIST_SEPARATOR)
    ensures Resolve(c) == Ok(Canonical(r))
  {
    DedupOfDistinct(r.byDay);
    DedupOfDistinct(r.byMonth);
    DedupOfDistinct(r.byMonthDay);
    DedupOfDistinct(r.bySetPos);
    ResolveFreqOfName(c, r.freq);
    ResolveIntervalOfNumber(c, r.interval);
    ResolveByDayOfInitials(c, r.byDay);
    ParseSetOfNumbers(c, BYMONTH, r.byMonth, ByMonthValidator, BYMONTH_VALIDATE_ERROR_MESSAGE);
    ParseSetOfNumbers(c, BYMONTHDAY, r.byMonthDay, ByMonthDayValidator, BYMONTHDAY_VALIDATE_ERROR_MESSAGE);
    ParseSetOfNumbers(c, BYSETPOS, r.bySetPos, BySetPosValidator, BYSETPOS_VALIDATE_ERROR_MESSAGE);
    ResolveOfResolved(c, Canonical(r));
  }

  /** Serialising a valid rule succeeds, and parsing the line gives the rule
      back (with an interval of 0 read back as 1). */
  lemma ParseSerialize(r: RRule)
    requires IsValid(r)
    ensures Serialize(r) == Ok(Render(r))
    ensures Parse(Render(r)) == Ok(Canonical(r))
  {
    ComponentsOfRender(r);
    FieldsOfRule(r);
    ResolveOfParts(Fields(r), r);
  }

  /** Serialising only looks at whether the interval exceeds 1, so a rule and
      its canonical form serialise alike. */
  lemma SerializeCanonical(r: RRule)
    ensures Serialize(Canonical(r)) == Serialize(r)
  {
    assert Segments(Canonical(r)) == Segments(r);
  }

  /** A line the serialiser wrote is read and written back unchanged. */
  lemma SerializeParse(r: RRule)
    requires IsValid(r)
    ensures Parse(Render(r)).Ok? && Serialize(Parse(Render(r)).value) == Ok(Render(r))
  {
    ParseSerialize(r);
    SerializeCanonical(r);
  }
}
