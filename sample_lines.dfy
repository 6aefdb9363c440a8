/** The parser on the lines the library's own tests read: a lower-case
    frequency, a frequency that is not one, a month out of range and a
    repeated day; and two lines showing its leniency at the start of a line:
    an unknown first segment and a repeated first key. */
module SampleLines {
  import opened Results
  import opened Text
  import opened OrderedSets
  import opened RRuleSyntax
  import opened Frequencies
  import opened Weeks
  import opened Validators
  import opened RRules
  import opened ParseProperties

  /** A line holding a single `key=value` segment maps that key to that value. */
  lemma ComponentsOfOne(key: string, value: string)
    requires PARTS_SEPARATOR !in key && KEY_VALUE_SEPARATOR !in key && PARTS_SEPARATOR !in value
    ensures Components(Prefix + Entry(key, value)) == map[key := value]
  {
    var segment := Entry(key, value);
    assert PARTS_SEPARATOR !in segment;
    ParsePrefixDroppedOnce(segment);
    SplitSeparatorFree(segment, PARTS_SEPARATOR);
    KeyValueOf(key, value);
    assert KeyValuePairs([segment]) == [(key, value)];
    assert Associate([(key, value)]) == map[key := value] by {
      assert [(key, value)][..0] == [];
    }
  }

  /** A line of two segments maps both keys. */
  lemma ComponentsOfTwo(key1: string, value1: string, key2: string, value2: string)
    requires PARTS_SEPARATOR !in key1 && KEY_VALUE_SEPARATOR !in key1 && PARTS_SEPARATOR !in value1
    requires PARTS_SEPARATOR !in key2 && KEY_VALUE_SEPARATOR !in key2 && PARTS_SEPARATOR !in value2
    ensures Components(Prefix + Entry(key1, value1) + [PARTS_SEPARATOR] + Entry(key2, value2))
            == map[key1 := value1][key2 := value2]
  {
    ComponentsOfOne(key1, value1);
    assert PARTS_SEPARATOR !in Entry(key2, value2);
    ComponentsSnoc(Prefix + Entry(key1, value1), Entry(key2, value2));
    KeyValueOf(key2, value2);
  }

  /** Parsing only reads the line's map. */
  lemma ParseOfComponents(text: string, c: map<string, string>)
    requires Components(text) == c
    ensures Parse(text) == Resolve(c)
  {
  }

  lemma ResolveLowerCaseFrequency()
    ensures Resolve(map[FREQ := "monthly"]) == Ok(Default.(freq := MONTHLY))
  {
    var c := map[FREQ := "monthly"];
    assert UpperCase("monthly") == "MONTHLY";
    assert ResolveFreq(c) == Ok(MONTHLY);
    assert INTERVAL != FREQ && BYDAY != FREQ && BYMONTH != FREQ && BYMONTHDAY != FREQ && BYSETPOS != FREQ;
    RRuleProperties.ResolveOfResolved(c, Default.(freq := MONTHLY));
  }

  lemma MonthlyLine()
    ensures Prefix + Entry(FREQ, "monthly") == "RRULE:FREQ=monthly"
  {
    assert Prefix == "RRULE:";
    assert Entry(FREQ, "monthly") == "FREQ=monthly";
  }

  /** `FREQ=monthly` is accepted: the value is upper-cased before the lookup. */
  lemma ParseLowerCaseFrequency()
    ensures Prefix + Entry(FREQ, "monthly") == "RRULE:FREQ=monthly"
    ensures Parse(Prefix + Entry(FREQ, "monthly")) == Ok(Default.(freq := MONTHLY))
  {
    MonthlyLine();
    ComponentsOfOne(FREQ, "monthly");
    ParseOfComponents(Prefix + Entry(FREQ, "monthly"), map[FREQ := "monthly"]);
    ResolveLowerCaseFrequency();
  }

  lemma ResolveUnknownFrequency()
    ensures Resolve(map[FREQ := "day"]) == Err(FrequencyValidateErrorMessage())
  {
    assert UpperCase("day") == "DAY";
  }

  lemma DayLine()
    ensures Prefix + Entry(FREQ, "day") == "RRULE:FREQ=day"
  {
    assert Prefix == "RRULE:";
    assert Entry(FREQ, "day") == "FREQ=day";
  }

  /** `FREQ=day` names no frequency, so the FREQ message is the result. */
  lemma ParseUnknownFrequency()
    ensures Prefix + Entry(FREQ, "day") == "RRULE:FREQ=day"
    ensures Parse(Prefix + Entry(FREQ, "day")) == Err("FREQ must be in format DAILY,WEEKLY,MONTHLY,YEARLY")
  {
    DayLine();
    ComponentsOfOne(FREQ, "day");
    ParseOfComponents(Prefix + Entry(FREQ, "day"), map[FREQ := "day"]);
    ResolveUnknownFrequency();
  }

  lemma ParseSetMonthOutOfRange(c: map<string, string>)
    requires BYMONTH in c && c[BYMONTH] == "13"
    ensures ParseSet(c, BYMONTH, ByMonthValidator, BYMONTH_VALIDATE_ERROR_MESSAGE)
            == Err(BYMONTH_VALIDATE_ERROR_MESSAGE)
  {
    SplitSeparatorFree("13", LIST_SEPARATOR);
    ParseUnsigned("13");
    assert ParseInt("13") == Some(13);
  }

  lemma ResolveMonthOutOfRange()
    ensures Resolve(map[FREQ := "YEARLY"][BYMONTH := "13"]) == Err(BYMONTH_VALIDATE_ERROR_MESSAGE)
  {
    var c := map[FREQ := "YEARLY"][BYMONTH := "13"];
    assert BYMONTH != FREQ && INTERVAL !in c && BYDAY !in c;
    assert UpperCase("YEARLY") == "YEARLY";
    assert ResolveFreq(c) == Ok(YEARLY);
    ParseSetMonthOutOfRange(c);
  }

  lemma MonthOutOfRangeLine()
    ensures Prefix + Entry(FREQ, "YEARLY") + [PARTS_SEPARATOR] + Entry(BYMONTH, "13") == "RRULE:FREQ=YEARLY;BYMONTH=13"
  {
    assert Prefix + Entry(FREQ, "YEARLY") == "RRULE:FREQ=YEARLY" by {
      assert Prefix == "RRULE:";
      assert Entry(FREQ, "YEARLY") == "FREQ=YEARLY";
    }
    assert Entry(BYMONTH, "13") == "BYMONTH=13";
  }

  /** `BYMONTH=13` is a number but not a month, so the BYMONTH message is the result. */
  lemma ParseMonthOutOfRange()
    ensures Prefix + Entry(FREQ, "YEARLY") + [PARTS_SEPARATOR] + Entry(BYMONTH, "13") == "RRULE:FREQ=YEARLY;BYMONTH=13"
    ensures Parse(Prefix + Entry(FREQ, "YEARLY") + [PARTS_SEPARATOR] + Entry(BYMONTH, "13")) == Err("BYMONTH must be number in range 1-12")
  {
    MonthOutOfRangeLine();
    ComponentsOfTwo(FREQ, "YEARLY", BYMONTH, "13");
    ParseOfComponents(Prefix + Entry(FREQ, "YEARLY") + [PARTS_SEPARATOR] + Entry(BYMONTH, "13"), map[FREQ := "YEARLY"][BYMONTH := "13"]);
    ResolveMonthOutOfRange();
  }

  lemma ResolveIntervalZero()
    ensures Resolve(map[INTERVAL := "0"]) == Ok(Default.(interval := 0))
  {
    var c := map[INTERVAL := "0"];
    assert FREQ != INTERVAL && BYDAY != INTERVAL && BYMONTH != INTERVAL;
    assert BYMONTHDAY != INTERVAL && BYSETPOS != INTERVAL;
    assert AllDigits("0") && DigitsValue("0") == 0 by {
      assert "0"[..0] == [];
    }
    assert ResolveInterval(c) == Ok(0);
    RRuleProperties.ResolveOfResolved(c, Default.(interval := 0));
  }

  lemma IntervalZeroLine()
    ensures Prefix + Entry(INTERVAL, "0") == "RRULE:INTERVAL=0"
  {
    assert Prefix == "RRULE:";
    assert Entry(INTERVAL, "0") == "INTERVAL=0";
  }

  /** `INTERVAL=0` is accepted and read as 0: the parser only rejects
      negative intervals. */
  lemma ParseIntervalZero()
    ensures Prefix + Entry(INTERVAL, "0") == "RRULE:INTERVAL=0"
    ensures Parse(Prefix + Entry(INTERVAL, "0")) == Ok(Default.(interval := 0))
  {
    IntervalZeroLine();
    ComponentsOfOne(INTERVAL, "0");
    ParseOfComponents(Prefix + Entry(INTERVAL, "0"), map[INTERVAL := "0"]);
    ResolveIntervalZero();
  }

  lemma RepeatedDayJoined()
    ensures Join(Initials([MONDAY, TUESDAY, MONDAY]), LIST_SEPARATOR) == "MO,TU,MO"
  {
    assert Initials([MONDAY, TUESDAY, MONDAY]) == ["MO", "TU", "MO"];
    assert Join(["TU", "MO"], LIST_SEPARATOR) == "TU,MO" by {
      assert ["TU", "MO"][1..] == ["MO"];
    }
    assert ["MO", "TU", "MO"][1..] == ["TU", "MO"];
  }

  lemma DedupRepeatedDay()
    ensures Dedup([MONDAY, TUESDAY, MONDAY]) == [MONDAY, TUESDAY]
  {
    assert [MONDAY, TUESDAY, MONDAY][..2] == [MONDAY, TUESDAY];
    assert [MONDAY, TUESDAY][..1] == [MONDAY];
    assert [MONDAY][..0] == [];
  }

  lemma ResolveByDayRepeated(c: map<string, string>)
    requires BYDAY in c && c[BYDAY] == "MO,TU,MO"
    ensures ResolveByDay(c) == Ok([MONDAY, TUESDAY])
  {
    RepeatedDayJoined();
    RRuleProperties.ResolveByDayOfInitials(c, [MONDAY, TUESDAY, MONDAY]);
    DedupRepeatedDay();
  }

  lemma OtherPartsAbsent(c: map<string, string>)
    requires c.Keys == {FREQ, BYDAY}
    ensures INTERVAL !in c && BYMONTH !in c && BYMONTHDAY !in c && BYSETPOS !in c
  {
    assert INTERVAL != FREQ && INTERVAL != BYDAY;
    assert BYMONTH[2] != FREQ[2] && BYMONTH[2] != BYDAY[2];
    assert BYMONTHDAY[2] != FREQ[2] && BYMONTHDAY[2] != BYDAY[2];
    assert BYSETPOS[2] != FREQ[2] && BYSETPOS[2] != BYDAY[2];
  }

  /** A map with only FREQ and BYDAY resolves to those two and the defaults. */
  lemma ResolveFreqAndDays(c: map<string, string>, f: Frequency, days: OrderedSet<Week>)
    requires INTERVAL !in c && BYMONTH !in c && BYMONTHDAY !in c && BYSETPOS !in c
    requires ResolveFreq(c) == Ok(f) && ResolveByDay(c) == Ok(days)
    ensures Resolve(c) == Ok(RRule(f, 1, days, [], [], []))
  {
    RRuleProperties.ResolveOfResolved(c, RRule(f, 1, days, [], [], []));
  }

  lemma ResolveRepeatedDay()
    ensures Resolve(map[FREQ := "WEEKLY"][BYDAY := "MO,TU,MO"]) == Ok(RRule(WEEKLY, 1, [MONDAY, TUESDAY], [], [], []))
  {
    var c := map[FREQ := "WEEKLY"][BYDAY := "MO,TU,MO"];
    assert BYDAY != FREQ;
    OtherPartsAbsent(c);
    assert UpperCase("WEEKLY") == "WEEKLY";
    assert ResolveFreq(c) == Ok(WEEKLY);
    ResolveByDayRepeated(c);
    ResolveFreqAndDays(c, WEEKLY, [MONDAY, TUESDAY]);
  }

  lemma RepeatedDayLine()
    ensures Prefix + Entry(FREQ, "WEEKLY") + [PARTS_SEPARATOR] + Entry(BYDAY, "MO,TU,MO") == "RRULE:FREQ=WEEKLY;BYDAY=MO,TU,MO"
  {
    assert Prefix + Entry(FREQ, "WEEKLY") == "RRULE:FREQ=WEEKLY" by {
      assert Prefix == "RRULE:";
      assert Entry(FREQ, "WEEKLY") == "FREQ=WEEKLY";
    }
    assert Entry(BYDAY, "MO,TU,MO") == "BYDAY=MO,TU,MO";
  }

  /** `BYDAY=MO,TU,MO` reads as the set MO, TU: the repeated day is dropped and
      the first occurrences keep their order. */
  lemma ParseRepeatedDay()
    ensures Prefix + Entry(FREQ, "WEEKLY") + [PARTS_SEPARATOR] + Entry(BYDAY, "MO,TU,MO") == "RRULE:FREQ=WEEKLY;BYDAY=MO,TU,MO"
    ensures Parse(Prefix + Entry(FREQ, "WEEKLY") + [PARTS_SEPARATOR] + Entry(BYDAY, "MO,TU,MO")) == Ok(RRule(WEEKLY, 1, [MONDAY, TUESDAY], [], [], []))
  {
    RepeatedDayLine();
    ComponentsOfTwo(FREQ, "WEEKLY", BYDAY, "MO,TU,MO");
    ParseOfComponents(Prefix + Entry(FREQ, "WEEKLY") + [PARTS_SEPARATOR] + Entry(BYDAY, "MO,TU,MO"), map[FREQ := "WEEKLY"][BYDAY := "MO,TU,MO"]);
    ResolveRepeatedDay();
  }

  lemma WeeklyFrequency(c: map<string, string>)
    requires FREQ in c && c[FREQ] == "WEEKLY"
    ensures ResolveFreq(c) == Ok(WEEKLY)
  {
    assert UpperCase("WEEKLY") == "WEEKLY";
  }

  lemma ResolveWeekly()
    ensures Resolve(map[FREQ := "WEEKLY"]) == Ok(Default.(freq := WEEKLY))
  {
    var c := map[FREQ := "WEEKLY"];
    WeeklyFrequency(c);
    assert INTERVAL != FREQ && BYDAY != FREQ && BYMONTH != FREQ && BYMONTHDAY != FREQ && BYSETPOS != FREQ;
    RRuleProperties.ResolveOfResolved(c, Default.(freq := WEEKLY));
  }

  lemma UnknownFirstSegmentLine()
    ensures Prefix + Entry("X-FOO", "bar") + [PARTS_SEPARATOR] + Entry(FREQ, "WEEKLY") == "RRULE:X-FOO=bar;FREQ=WEEKLY"
  {
    assert Prefix + Entry("X-FOO", "bar") == "RRULE:X-FOO=bar" by {
      assert Prefix == "RRULE:";
      assert Entry("X-FOO", "bar") == "X-FOO=bar";
    }
    assert Entry(FREQ, "WEEKLY") == "FREQ=WEEKLY";
  }

  lemma ParseWeekly()
    ensures Parse(Prefix + Entry(FREQ, "WEEKLY")) == Ok(Default.(freq := WEEKLY))
  {
    ComponentsOfOne(FREQ, "WEEKLY");
    ParseOfComponents(Prefix + Entry(FREQ, "WEEKLY"), map[FREQ := "WEEKLY"]);
    ResolveWeekly();
  }

  lemma UnknownSegmentIgnorable()
    ensures PARTS_SEPARATOR !in Entry("X-FOO", "bar")
    ensures KeyValue(Entry("X-FOO", "bar")).0 !in FieldKeywords
  {
    KeyValueOf("X-FOO", "bar");
    assert "X-FOO"[0] !in {FREQ[0], INTERVAL[0], BYDAY[0], BYMONTH[0], BYMONTHDAY[0], BYSETPOS[0]};
  }

  /** `X-FOO=bar` in front of `FREQ=WEEKLY` is ignored: the first segment of
      a line is no exception. */
  lemma ParseUnknownFirstSegment()
    ensures Prefix + Entry("X-FOO", "bar") + [PARTS_SEPARATOR] + Entry(FREQ, "WEEKLY") == "RRULE:X-FOO=bar;FREQ=WEEKLY"
    ensures Parse(Prefix + Entry("X-FOO", "bar") + [PARTS_SEPARATOR] + Entry(FREQ, "WEEKLY")) == Ok(Default.(freq := WEEKLY))
  {
    UnknownFirstSegmentLine();
    UnknownSegmentIgnorable();
    ParseIgnoresFirstSegment(Entry("X-FOO", "bar"), Entry(FREQ, "WEEKLY"));
    ParseWeekly();
  }

  lemma IntervalTwo(c: map<string, string>)
    requires INTERVAL in c && c[INTERVAL] == "2"
    ensures ResolveInterval(c) == Ok(2)
  {
    assert AllDigits("2") && DigitsValue("2") == 2 by {
      assert "2"[..0] == [];
    }
  }

  lemma ResolveEveryOtherWeek()
    ensures Resolve(map[FREQ := "WEEKLY"][INTERVAL := "2"]) == Ok(Default.(freq := WEEKLY, interval := 2))
  {
    var c := map[FREQ := "WEEKLY"][INTERVAL := "2"];
    assert INTERVAL != FREQ && BYDAY != FREQ && BYMONTH != FREQ && BYMONTHDAY != FREQ && BYSETPOS != FREQ;
    assert BYDAY != INTERVAL && BYMONTH != INTERVAL && BYMONTHDAY != INTERVAL && BYSETPOS != INTERVAL;
    WeeklyFrequency(c);
    IntervalTwo(c);
    RRuleProperties.ResolveOfResolved(c, Default.(freq := WEEKLY, interval := 2));
  }

  lemma RepeatedFrequencyLine()
    ensures Prefix + Entry(FREQ, "DAILY") + [PARTS_SEPARATOR] + Entry(FREQ, "WEEKLY") + [PARTS_SEPARATOR] + Entry(INTERVAL, "2")
            == "RRULE:FREQ=DAILY;FREQ=WEEKLY;INTERVAL=2"
  {
    assert Prefix + Entry(FREQ, "DAILY") + [PARTS_SEPARATOR] + Entry(FREQ, "WEEKLY") == "RRULE:FREQ=DAILY;FREQ=WEEKLY" by {
      assert Prefix + Entry(FREQ, "DAILY") == "RRULE:FREQ=DAILY" by {
        assert Prefix == "RRULE:";
        assert Entry(FREQ, "DAILY") == "FREQ=DAILY";
      }
      assert Entry(FREQ, "WEEKLY") == "FREQ=WEEKLY";
    }
    assert Entry(INTERVAL, "2") == "INTERVAL=2";
  }

  lemma ParseEveryOtherWeek()
    ensures Parse(Prefix + Entry(FREQ, "WEEKLY") + [PARTS_SEPARATOR] + Entry(INTERVAL, "2"))
            == Ok(Default.(freq := WEEKLY, interval := 2))
  {
    ComponentsOfTwo(FREQ, "WEEKLY", INTERVAL, "2");
    ParseOfComponents(Prefix + Entry(FREQ, "WEEKLY") + [PARTS_SEPARATOR] + Entry(INTERVAL, "2"),
                      map[FREQ := "WEEKLY"][INTERVAL := "2"]);
    ResolveEveryOtherWeek();
  }

  /** `FREQ=WEEKLY;INTERVAL=2` sets FREQ again. */
  lemma EveryOtherWeekSetsFrequency()
    ensures SetsKey(Entry(FREQ, "WEEKLY") + [PARTS_SEPARATOR] + Entry(INTERVAL, "2"), FREQ)
  {
    var weekly, everyOther := Entry(FREQ, "WEEKLY"), Entry(INTERVAL, "2");
    assert PARTS_SEPARATOR !in weekly;
    SplitAtFirst(weekly, everyOther, PARTS_SEPARATOR);
    KeyValueOf(FREQ, "WEEKLY");
    assert KeyValue(Split(weekly + [PARTS_SEPARATOR] + everyOther, PARTS_SEPARATOR)[0]).0 == FREQ;
  }

  /** `FREQ` given twice, the second time not last:
      `FREQ=DAILY;FREQ=WEEKLY;INTERVAL=2` is weekly, every other week. */
  lemma ParseRepeatedFrequency()
    ensures Prefix + Entry(FREQ, "DAILY") + [PARTS_SEPARATOR] + Entry(FREQ, "WEEKLY") + [PARTS_SEPARATOR] + Entry(INTERVAL, "2")
            == "RRULE:FREQ=DAILY;FREQ=WEEKLY;INTERVAL=2"
    ensures Parse(Prefix + Entry(FREQ, "DAILY") + [PARTS_SEPARATOR] + Entry(FREQ, "WEEKLY") + [PARTS_SEPARATOR] + Entry(INTERVAL, "2"))
            == Ok(Default.(freq := WEEKLY, interval := 2))
  {
    RepeatedFrequencyLine();
    FirstFrequencyDropped();
    ParseEveryOtherWeek();
  }

  /** The first `FREQ=DAILY` is dropped, since `FREQ` comes again. */
  lemma FirstFrequencyDropped()
    ensures Parse(Prefix + Entry(FREQ, "DAILY") + [PARTS_SEPARATOR] + Entry(FREQ, "WEEKLY") + [PARTS_SEPARATOR] + Entry(INTERVAL, "2"))
            == Parse(Prefix + Entry(FREQ, "WEEKLY") + [PARTS_SEPARATOR] + Entry(INTERVAL, "2"))
  {
    var weekly, everyOther := Entry(FREQ, "WEEKLY"), Entry(INTERVAL, "2");
    EveryOtherWeekSetsFrequency();
    ParseLastWinsFirst(FREQ, "DAILY", weekly + [PARTS_SEPARATOR] + everyOther);
    Regroup(Prefix, Entry(FREQ, "DAILY"), weekly, everyOther);
  }

  lemma Regroup(p: string, a: string, b: string, c: string)
    ensures p + a + [PARTS_SEPARATOR] + b + [PARTS_SEPARATOR] + c == p + a + [PARTS_SEPARATOR] + (b + [PARTS_SEPARATOR] + c)
    ensures p + (b + [PARTS_SEPARATOR] + c) == p + b + [PARTS_SEPARATOR] + c
  {
  }
}
