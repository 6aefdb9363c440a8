/** The serialiser on the rules the library's own tests write: the default
    rule, and one rule per range check that fails. */
module SampleRules {
  import opened Results
  import opened Text
  import opened RRuleSyntax
  import opened Frequencies
  import opened RRules
  import opened ParseProperties

  /** The default rule is written as `RRULE:FREQ=DAILY`. */
  lemma SerializeDefault()
    ensures Serialize(Default) == Ok("RRULE:FREQ=DAILY")
  {
    assert Segments(Default) == [(FreqPart, "DAILY")];
    assert KeyValues(Segments(Default)) == ["FREQ=DAILY"] by {
      assert Keyword(FreqPart) == FREQ;
      assert FREQ + [KEY_VALUE_SEPARATOR] + "DAILY" == "FREQ=DAILY";
    }
    assert Join(["FREQ=DAILY"], PARTS_SEPARATOR) == "FREQ=DAILY";
    assert PROPERTY_NAME + [PROPERTY_SEPARATOR] + "FREQ=DAILY" == "RRULE:FREQ=DAILY";
    assert Render(Default) == "RRULE:FREQ=DAILY";
    assert IsValid(Default);
  }

  /** A negative interval fails with the INTERVAL message. */
  lemma SerializeRejectsInterval()
    ensures Serialize(Default.(interval := -1)) == Err(INTERVAL_VALIDATE_ERROR_MESSAGE)
  {
  }

  /** A month outside 1..12 fails with the BYMONTH message. */
  lemma SerializeRejectsByMonth(n: Int32)
    requires !(1 <= n <= 12)
    ensures Serialize(Default.(byMonth := [n])) == Err(BYMONTH_VALIDATE_ERROR_MESSAGE)
  {
    assert Default.(byMonth := [n]).byMonth[0] == n;
  }

  /** A month day of 0 or beyond 31 either way fails with the BYMONTHDAY message. */
  lemma SerializeRejectsByMonthDay(n: Int32)
    requires n == 0 || n < -31 || n > 31
    ensures Serialize(Default.(byMonthDay := [n])) == Err(BYMONTHDAY_VALIDATE_ERROR_MESSAGE)
  {
    assert Default.(byMonthDay := [n]).byMonthDay[0] == n;
  }

  /** A set position of 0 or beyond 366 either way fails with the BYSETPOS message. */
  lemma SerializeRejectsBySetPos(n: Int32)
    requires n == 0 || n < -366 || n > 366
    ensures Serialize(Default.(bySetPos := [n])) == Err(BYSETPOS_VALIDATE_ERROR_MESSAGE)
  {
    assert Default.(bySetPos := [n]).bySetPos[0] == n;
  }

  /** Reading the empty line and writing it back gives `RRULE:FREQ=DAILY`. */
  lemma EmptyLineRoundTrip()
    ensures Parse("").Ok? && Serialize(Parse("").value) == Ok("RRULE:FREQ=DAILY")
  {
    ParseEmpty();
    SerializeDefault();
  }
}
