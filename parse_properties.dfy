/** How lenient `RRule(rfc5545String)` is: the optional `RRULE:` prefix,
    parts it ignores, repeated keys, the empty line, and which error wins when
    several parts are malformed. */
module ParseProperties {
  import opened Results
  import opened Text
  import opened RRuleSyntax
  import opened Frequencies
  import opened RRules
  import opened RRuleProperties

  /** `RRULE:`, the prefix dropped before splitting. */
  const Prefix: string := PROPERTY_NAME + [PROPERTY_SEPARATOR]

  /** The key/value map of the text after the prefix has been dropped. */
  function BodyComponents(body: string): map<string, string>
  {
    Associate(KeyValuePairs(Split(body, PARTS_SEPARATOR)))
  }

  // ---------------------------------------------------------------------------
  // Resolving reads only the six rule keys

  /** `c` and `d` hold `key` alike: both lack it, or both map it to the same value. */
  predicate SameEntry(c: map<string, string>, d: map<string, string>, key: string)
  {
    (key in c <==> key in d) && (key in c ==> c[key] == d[key])
  }

  predicate AgreeOnFields(c: map<string, string>, d: map<string, string>)
  {
    && SameEntry(c, d, FREQ) && SameEntry(c, d, INTERVAL) && SameEntry(c, d, BYDAY)
    && SameEntry(c, d, BYMONTH) && SameEntry(c, d, BYMONTHDAY) && SameEntry(c, d, BYSETPOS)
  }

  /** Two maps that agree on the six rule keys resolve alike, errors included. */
  lemma ResolveReadsOnlyFields(c: map<string, string>, d: map<string, string>)
    requires AgreeOnFields(c, d)
    ensures Resolve(c) == Resolve(d)
  {
    assert ResolveFreq(c) == ResolveFreq(d);
    assert ResolveInterval(c) == ResolveInterval(d);
    assert ResolveByDay(c) == ResolveByDay(d);
    assert ParseSet(c, BYMONTH, Validators.ByMonthValidator, BYMONTH_VALIDATE_ERROR_MESSAGE)
        == ParseSet(d, BYMONTH, Validators.ByMonthValidator, BYMONTH_VALIDATE_ERROR_MESSAGE);
    assert ParseSet(c, BYMONTHDAY, Validators.ByMonthDayValidator, BYMONTHDAY_VALIDATE_ERROR_MESSAGE)
        == ParseSet(d, BYMONTHDAY, Validators.ByMonthDayValidator, BYMONTHDAY_VALIDATE_ERROR_MESSAGE);
    assert ParseSet(c, BYSETPOS, Validators.BySetPosValidator, BYSETPOS_VALIDATE_ERROR_MESSAGE)
        == ParseSet(d, BYSETPOS, Validators.BySetPosValidator, BYSETPOS_VALIDATE_ERROR_MESSAGE);
  }

  /** An entry under any other key, the empty key included, changes nothing. */
  lemma ResolveIgnoresOtherKeys(c: map<string, string>, key: string, value: string)
    requires key !in FieldKeywords
    ensures Resolve(c[key := value]) == Resolve(c)
  {
    assert AgreeOnFields(c[key := value], c);
    ResolveReadsOnlyFields(c[key := value], c);
  }

  /** The first malformed part in the order FREQ, INTERVAL, BYDAY, BYMONTH,
      BYMONTHDAY, BYSETPOS decides the error; the map resolves exactly when
      every part does. */
  lemma {:induction false} ResolveErrorOrder(c: map<string, string>)
    ensures Resolve(c).Ok? <==>
              && ResolveFreq(c).Ok? && ResolveInterval(c).Ok? && ResolveByDay(c).Ok?
              && ParseSet(c, BYMONTH, Validators.ByMonthValidator, BYMONTH_VALIDATE_ERROR_MESSAGE).Ok?
              && ParseSet(c, BYMONTHDAY, Validators.ByMonthDayValidator, BYMONTHDAY_VALIDATE_ERROR_MESSAGE).Ok?
              && ParseSet(c, BYSETPOS, Validators.BySetPosValidator, BYSETPOS_VALIDATE_ERROR_MESSAGE).Ok?
    ensures ResolveFreq(c).Err? ==> Resolve(c) == Err(FrequencyValidateErrorMessage())
    ensures ResolveFreq(c).Ok? && ResolveInterval(c).Err? ==> Resolve(c) == Err(INTERVAL_VALIDATE_ERROR_MESSAGE)
    ensures ResolveFreq(c).Ok? && ResolveInterval(c).Ok? && ResolveByDay(c).Err?
            ==> Resolve(c) == Err(ByDayValidateErrorMessage())
    ensures ResolveFreq(c).Ok? && ResolveInterval(c).Ok? && ResolveByDay(c).Ok?
            && ParseSet(c, BYMONTH, Validators.ByMonthValidator, BYMONTH_VALIDATE_ERROR_MESSAGE).Err?
            ==> Resolve(c) == Err(BYMONTH_VALIDATE_ERROR_MESSAGE)
    ensures ResolveFreq(c).Ok? && ResolveInterval(c).Ok? && ResolveByDay(c).Ok?
            && ParseSet(c, BYMONTH, Validators.ByMonthValidator, BYMONTH_VALIDATE_ERROR_MESSAGE).Ok?
            && ParseSet(c, BYMONTHDAY, Validators.ByMonthDayValidator, BYMONTHDAY_VALIDATE_ERROR_MESSAGE).Err?
            ==> Resolve(c) == Err(BYMONTHDAY_VALIDATE_ERROR_MESSAGE)
    ensures ResolveFreq(c).Ok? && ResolveInterval(c).Ok? && ResolveByDay(c).Ok?
            && ParseSet(c, BYMONTH, Validators.ByMonthValidator, BYMONTH_VALIDATE_ERROR_MESSAGE).Ok?
            && ParseSet(c, BYMONTHDAY, Validators.ByMonthDayValidator, BYMONTHDAY_VALIDATE_ERROR_MESSAGE).Ok?
            && ParseSet(c, BYSETPOS, Validators.BySetPosValidator, BYSETPOS_VALIDATE_ERROR_MESSAGE).Err?
            ==> Resolve(c) == Err(BYSETPOS_VALIDATE_ERROR_MESSAGE)
  {
  }

  // ---------------------------------------------------------------------------
  // The line, segment by segment

  /** `;` cannot occur in `RRULE:`, so appending `;` and more to a text never
      makes it start with the prefix when it did not already. */
  lemma PrefixNotCrossed(t: string, segment: string)
    ensures Prefix <= t + [PARTS_SEPARATOR] + segment <==> Prefix <= t
  {
    var s := t + [PARTS_SEPARATOR] + segment;
    if |t| >= |Prefix| {
      assert s[..|Prefix|] == t[..|Prefix|];
    } else {
      assert s[|t|] == PARTS_SEPARATOR;
      assert Prefix[|t|] != PARTS_SEPARATOR;
    }
  }

  /** Dropping the prefix commutes with appending a segment. */
  lemma RemovePrefixSnoc(t: string, segment: string)
    ensures RemovePrefix(t + [PARTS_SEPARATOR] + segment, Prefix)
            == RemovePrefix(t, Prefix) + [PARTS_SEPARATOR] + segment
  {
    PrefixNotCrossed(t, segment);
    if Prefix <= t {
      assert (t + [PARTS_SEPARATOR] + segment)[|Prefix|..] == t[|Prefix|..] + [PARTS_SEPARATOR] + segment;
    }
  }

  /** The map of a body is the map of its segments, in order. */
  lemma {:induction false} BodyComponentsSnoc(body: string, segment: string)
    requires PARTS_SEPARATOR !in segment
    ensures BodyComponents(body + [PARTS_SEPARATOR] + segment)
            == BodyComponents(body)[KeyValue(segment).0 := KeyValue(segment).1]
  {
    SplitSnoc(body, segment, PARTS_SEPARATOR);
    var parts := Split(body, PARTS_SEPARATOR);
    assert KeyValuePairs(parts + [segment]) == KeyValuePairs(parts) + [KeyValue(segment)];
    AssociateLastWins(KeyValuePairs(parts), KeyValue(segment).0, KeyValue(segment).1);
  }

  /** Components drops the prefix and reads the rest as a body. */
  lemma ComponentsOfBody(text: string)
    ensures Components(text) == BodyComponents(RemovePrefix(text, Prefix))
  {
  }

  /** A segment appended after `;` files its pair over whatever the line
      already held under that key. */
  lemma ComponentsSnoc(t: string, segment: string)
    requires PARTS_SEPARATOR !in segment
    ensures Components(t + [PARTS_SEPARATOR] + segment)
            == Components(t)[KeyValue(segment).0 := KeyValue(segment).1]
  {
    RemovePrefixSnoc(t, segment);
    ComponentsOfBody(t + [PARTS_SEPARATOR] + segment);
    ComponentsOfBody(t);
    BodyComponentsSnoc(RemovePrefix(t, Prefix), segment);
  }

  /** Splitting `key=value` at its first `=` gives the pair back. */
  lemma KeyValueOf(key: string, value: string)
    requires KEY_VALUE_SEPARATOR !in key
    ensures KeyValue(key + [KEY_VALUE_SEPARATOR] + value) == (key, value)
  {
    SplitOnceAt(key, value, KEY_VALUE_SEPARATOR);
  }

  // ---------------------------------------------------------------------------
  // Leniency of the parser

  /** The `RRULE:` prefix is optional: a line reads the same with or without it. */
  lemma ParsePrefixOptional(t: string)
    requires !(Prefix <= t)
    ensures Parse(Prefix + t) == Parse(t)
  {
    assert (Prefix + t)[|Prefix|..] == t;
    ComponentsOfBody(Prefix + t);
    ComponentsOfBody(t);
  }

  /** Only one prefix is dropped: a second `RRULE:` stays part of the first
      segment's key. */
  lemma ParsePrefixDroppedOnce(t: string)
    ensures Components(Prefix + t) == BodyComponents(t)
  {
    assert (Prefix + t)[|Prefix|..] == t;
    ComponentsOfBody(Prefix + t);
  }

  /** A segment without `=`, or with a key that is not one of the six rule
      keys, is ignored. */
  lemma ParseIgnoresSegment(t: string, segment: string)
    requires PARTS_SEPARATOR !in segment
    requires KEY_VALUE_SEPARATOR !in segment || KeyValue(segment).0 !in FieldKeywords
    ensures Parse(t + [PARTS_SEPARATOR] + segment) == Parse(t)
  {
    FieldKeywordsDistinct();
    ComponentsSnoc(t, segment);
    ResolveIgnoresOtherKeys(Components(t), KeyValue(segment).0, KeyValue(segment).1);
  }

  /** The segment `key=value`. */
  function Entry(key: string, value: string): string
  {
    key + [KEY_VALUE_SEPARATOR] + value
  }

  /** When a key occurs twice the later value is the one the map keeps. */
  lemma ComponentsLastWins(t: string, key: string, earlier: string, later: string)
    requires PARTS_SEPARATOR !in key && KEY_VALUE_SEPARATOR !in key
    requires PARTS_SEPARATOR !in earlier && PARTS_SEPARATOR !in later
    ensures Components(t + [PARTS_SEPARATOR] + Entry(key, earlier) + [PARTS_SEPARATOR] + Entry(key, later))
            == Components(t)[key := later]
  {
    var first := Entry(key, earlier);
    var second := Entry(key, later);
    assert PARTS_SEPARATOR !in first && PARTS_SEPARATOR !in second;
    KeyValueOf(key, earlier);
    KeyValueOf(key, later);
    ComponentsSnoc(t, first);
    ComponentsSnoc(t + [PARTS_SEPARATOR] + first, second);
    UpdateTwice(Components(t), key, earlier, later);
  }

  /** Setting a key twice keeps only the second value. */
  lemma UpdateTwice(c: map<string, string>, key: string, earlier: string, later: string)
    ensures c[key := earlier][key := later] == c[key := later]
  {
    assert AgreeExcept(c[key := earlier], c, key);
    AgreeExceptUpdate(c[key := earlier], c, key, later);
  }

  /** When a key occurs twice the later value wins: the earlier one has no
      effect on the result, errors included. */
  lemma ParseLastWins(t: string, key: string, earlier: string, later: string)
    requires PARTS_SEPARATOR !in key && KEY_VALUE_SEPARATOR !in key
    requires PARTS_SEPARATOR !in earlier && PARTS_SEPARATOR !in later
    ensures Parse(t + [PARTS_SEPARATOR] + Entry(key, earlier) + [PARTS_SEPARATOR] + Entry(key, later))
            == Parse(t + [PARTS_SEPARATOR] + Entry(key, later))
  {
    ComponentsLastWins(t, key, earlier, later);
    assert PARTS_SEPARATOR !in Entry(key, later);
    KeyValueOf(key, later);
    ComponentsSnoc(t, Entry(key, later));
  }

  /** The empty line is the default rule: every part takes its default. */
  lemma ParseEmpty()
    ensures Parse("") == Ok(Default)
  {
    FieldKeywordsDistinct();
    assert Split("", PARTS_SEPARATOR) == [""];
    assert KeyValue("") == ("", "");
    assert Components("") == map["" := ""];
  }

  // ---------------------------------------------------------------------------
  // Segments anywhere in the line

  /** The map after filing the pairs of `segments`, in order, over `c`. */
  function Apply(c: map<string, string>, segments: seq<string>): map<string, string>
    decreases |segments|
  {
    if segments == [] then c
    else
      var last := segments[|segments| - 1];
      Apply(c, segments[..|segments| - 1])[KeyValue(last).0 := KeyValue(last).1]
  }

  /** Reading `t;rest` files the pairs of `rest`'s segments, in order, over
      the map of `t`. */
  lemma {:induction false} ComponentsAppend(t: string, segments: seq<string>)
    requires |segments| >= 1
    requires forall i :: 0 <= i < |segments| ==> PARTS_SEPARATOR !in segments[i]
    ensures Components(t + [PARTS_SEPARATOR] + Join(segments, PARTS_SEPARATOR)) == Apply(Components(t), segments)
    decreases |segments|
  {
    var n := |segments|;
    var last := segments[n - 1];
    var init := segments[..n - 1];
    if n == 1 {
      assert init == [];
      ComponentsSnoc(t, last);
    } else {
      assert segments == init + [last];
      JoinSnoc(init, last, PARTS_SEPARATOR);
      var u := t + [PARTS_SEPARATOR] + Join(init, PARTS_SEPARATOR);
      assert t + [PARTS_SEPARATOR] + Join(segments, PARTS_SEPARATOR) == u + [PARTS_SEPARATOR] + last;
      ComponentsAppend(t, init);
      ComponentsSnoc(u, last);
    }
  }

  lemma ComponentsAppendText(t: string, rest: string)
    ensures Components(t + [PARTS_SEPARATOR] + rest) == Apply(Components(t), Split(rest, PARTS_SEPARATOR))
  {
    ComponentsAppend(t, Split(rest, PARTS_SEPARATOR));
  }

  /** `c` and `d` hold every key except perhaps `key` alike. */
  ghost predicate AgreeExcept(c: map<string, string>, d: map<string, string>, key: string)
  {
    forall k :: k != key ==> SameEntry(c, d, k)
  }

  /** Filing the same segments over two maps keeps what they agree on. */
  lemma {:induction false} ApplyAgreeExcept(c: map<string, string>, d: map<string, string>, key: string,
                                            segments: seq<string>)
    requires AgreeExcept(c, d, key)
    ensures AgreeExcept(Apply(c, segments), Apply(d, segments), key)
    decreases |segments|
  {
    if segments != [] {
      ApplyAgreeExcept(c, d, key, segments[..|segments| - 1]);
      var last := segments[|segments| - 1];
      var c' := Apply(c, segments[..|segments| - 1])[KeyValue(last).0 := KeyValue(last).1];
      var d' := Apply(d, segments[..|segments| - 1])[KeyValue(last).0 := KeyValue(last).1];
      forall k | k != key ensures SameEntry(c', d', k) {
        assert SameEntry(Apply(c, segments[..|segments| - 1]), Apply(d, segments[..|segments| - 1]), k);
      }
    }
  }

  /** Maps that agree except at `key` become equal once `key` is set. */
  lemma AgreeExceptUpdate(c: map<string, string>, d: map<string, string>, key: string, value: string)
    requires AgreeExcept(c, d, key)
    ensures c[key := value] == d[key := value]
  {
    var c', d' := c[key := value], d[key := value];
    forall k ensures (k in c' <==> k in d') && (k in c' ==> c'[k] == d'[k]) {
      if k != key {
        assert SameEntry(c, d, k);
      }
    }
  }

  /** Maps that agree except at a key other than the six resolve alike. */
  lemma ResolveAgreeExcept(c: map<string, string>, d: map<string, string>, key: string)
    requires key !in FieldKeywords
    requires AgreeExcept(c, d, key)
    ensures Resolve(c) == Resolve(d)
  {
    assert FieldKeywords[0] != key && FieldKeywords[1] != key && FieldKeywords[2] != key;
    assert FieldKeywords[3] != key && FieldKeywords[4] != key && FieldKeywords[5] != key;
    assert SameEntry(c, d, FREQ) && SameEntry(c, d, INTERVAL) && SameEntry(c, d, BYDAY);
    assert SameEntry(c, d, BYMONTH) && SameEntry(c, d, BYMONTHDAY) && SameEntry(c, d, BYSETPOS);
    ResolveReadsOnlyFields(c, d);
  }

  /** A segment followed by more segments changes the map at most under its
      own key. */
  lemma ComponentsSegmentAnywhere(t: string, segment: string, rest: string)
    requires PARTS_SEPARATOR !in segment
    ensures AgreeExcept(Components(t + [PARTS_SEPARATOR] + segment + [PARTS_SEPARATOR] + rest),
                        Components(t + [PARTS_SEPARATOR] + rest), KeyValue(segment).0)
  {
    ComponentsAfterSegment(t, segment, rest);
    ApplyAfterUpdate(Components(t), KeyValue(segment).0, KeyValue(segment).1, Split(rest, PARTS_SEPARATOR));
  }

  /** Both `t;segment;rest` and `t;rest` file `rest`'s segments over the map
      of what comes before them. */
  lemma ComponentsAfterSegment(t: string, segment: string, rest: string)
    requires PARTS_SEPARATOR !in segment
    ensures Components(t + [PARTS_SEPARATOR] + segment + [PARTS_SEPARATOR] + rest)
            == Apply(Components(t)[KeyValue(segment).0 := KeyValue(segment).1], Split(rest, PARTS_SEPARATOR))
    ensures Components(t + [PARTS_SEPARATOR] + rest) == Apply(Components(t), Split(rest, PARTS_SEPARATOR))
  {
    ComponentsSnoc(t, segment);
    ComponentsAppendText(t + [PARTS_SEPARATOR] + segment, rest);
    ComponentsAppendText(t, rest);
  }

  /** Setting one key before filing segments changes the result at most there. */
  lemma ApplyAfterUpdate(c: map<string, string>, key: string, value: string, segments: seq<string>)
    ensures AgreeExcept(Apply(c[key := value], segments), Apply(c, segments), key)
  {
    assert AgreeExcept(c[key := value], c, key);
    ApplyAgreeExcept(c[key := value], c, key, segments);
  }

  /** A segment after the first, without `=` or with a key that is not one
      of the six rule keys, is ignored whatever follows it (the first
      segment: `ParseIgnoresFirstSegment`). */
  lemma ParseIgnoresSegmentAnywhere(t: string, segment: string, rest: string)
    requires PARTS_SEPARATOR !in segment
    requires KEY_VALUE_SEPARATOR !in segment || KeyValue(segment).0 !in FieldKeywords
    ensures Parse(t + [PARTS_SEPARATOR] + segment + [PARTS_SEPARATOR] + rest) == Parse(t + [PARTS_SEPARATOR] + rest)
  {
    FieldKeywordsDistinct();
    ComponentsSegmentAnywhere(t, segment, rest);
    ResolveAgreeExcept(Components(t + [PARTS_SEPARATOR] + segment + [PARTS_SEPARATOR] + rest),
                       Components(t + [PARTS_SEPARATOR] + rest), KeyValue(segment).0);
  }

  /** Some segment of `rest` has the key `key`. */
  predicate SetsKey(rest: string, key: string)
  {
    exists i :: 0 <= i < |Split(rest, PARTS_SEPARATOR)| && KeyValue(Split(rest, PARTS_SEPARATOR)[i]).0 == key
  }

  /** Filing segments of which one sets `key` removes any difference the
      two maps had under `key`. */
  lemma {:induction false} ApplyOverrides(c: map<string, string>, d: map<string, string>, key: string,
                                          segments: seq<string>)
    requires AgreeExcept(c, d, key)
    requires exists i :: 0 <= i < |segments| && KeyValue(segments[i]).0 == key
    ensures Apply(c, segments) == Apply(d, segments)
    decreases |segments|
  {
    var n := |segments|;
    var init, last := segments[..n - 1], segments[n - 1];
    if KeyValue(last).0 == key {
      ApplyAgreeExcept(c, d, key, init);
      AgreeExceptUpdate(Apply(c, init), Apply(d, init), key, KeyValue(last).1);
    } else {
      var i :| 0 <= i < n && KeyValue(segments[i]).0 == key;
      assert i < n - 1 && init[i] == segments[i];
      ApplyOverrides(c, d, key, init);
    }
  }

  /** When a key occurs again later in the line, the earlier occurrence
      leaves no trace in the map, whatever follows either of them. */
  lemma ComponentsLastWinsAnywhere(t: string, key: string, earlier: string, rest: string)
    requires PARTS_SEPARATOR !in key && KEY_VALUE_SEPARATOR !in key
    requires PARTS_SEPARATOR !in earlier
    requires SetsKey(rest, key)
    ensures Components(t + [PARTS_SEPARATOR] + Entry(key, earlier) + [PARTS_SEPARATOR] + rest)
            == Components(t + [PARTS_SEPARATOR] + rest)
  {
    var segment := Entry(key, earlier);
    assert PARTS_SEPARATOR !in segment;
    KeyValueOf(key, earlier);
    ComponentsAfterSegment(t, segment, rest);
    ApplyOverridesUpdate(Components(t), key, earlier, Split(rest, PARTS_SEPARATOR));
  }

  /** A value set under `key` before segments of which one sets `key` is lost. */
  lemma ApplyOverridesUpdate(c: map<string, string>, key: string, value: string, segments: seq<string>)
    requires exists i :: 0 <= i < |segments| && KeyValue(segments[i]).0 == key
    ensures Apply(c[key := value], segments) == Apply(c, segments)
  {
    assert AgreeExcept(c[key := value], c, key);
    ApplyOverrides(c[key := value], c, key, segments);
  }

  /** When a key occurs again later in the line, the earlier occurrence has
      no effect on the result, errors included. */
  lemma ParseLastWinsAnywhere(t: string, key: string, earlier: string, rest: string)
    requires PARTS_SEPARATOR !in key && KEY_VALUE_SEPARATOR !in key
    requires PARTS_SEPARATOR !in earlier
    requires SetsKey(rest, key)
    ensures Parse(t + [PARTS_SEPARATOR] + Entry(key, earlier) + [PARTS_SEPARATOR] + rest)
            == Parse(t + [PARTS_SEPARATOR] + rest)
  {
    ComponentsLastWinsAnywhere(t, key, earlier, rest);
  }

  // ---------------------------------------------------------------------------
  // The first segment of the line

  /** The pairs of a list of segments, associated, are those segments filed
      over the empty map. */
  lemma {:induction false} AssociateApply(segments: seq<string>)
    ensures Associate(KeyValuePairs(segments)) == Apply(map[], segments)
    decreases |segments|
  {
    if segments != [] {
      var n := |segments|;
      assert KeyValuePairs(segments)[..n - 1] == KeyValuePairs(segments[..n - 1]);
      AssociateApply(segments[..n - 1]);
    }
  }

  /** After the prefix, a line's map is its segments filed over the empty map. */
  lemma ComponentsOfPrefixed(body: string)
    ensures Components(Prefix + body) == Apply(map[], Split(body, PARTS_SEPARATOR))
  {
    assert RemovePrefix(Prefix + body, Prefix) == body;
    AssociateApply(Split(body, PARTS_SEPARATOR));
  }

  /** The first segment after the prefix is filed first: the rest of the line
      is filed over a map holding only its pair. */
  lemma ComponentsFirstSegment(segment: string, rest: string)
    requires PARTS_SEPARATOR !in segment
    ensures Components(Prefix + segment + [PARTS_SEPARATOR] + rest)
            == Apply(map[KeyValue(segment).0 := KeyValue(segment).1], Split(rest, PARTS_SEPARATOR))
    ensures Components(Prefix + rest) == Apply(map[], Split(rest, PARTS_SEPARATOR))
  {
    ComponentsAppendText(Prefix + segment, rest);
    ComponentsOfPrefixed(segment);
    SplitSeparatorFree(segment, PARTS_SEPARATOR);
    assert [segment][..0] == [];
    ComponentsOfPrefixed(rest);
  }

  /** A first segment without `=`, or with a key that is not one of the six
      rule keys, is ignored as well: `RRULE:segment;rest` parses as
      `RRULE:rest`. */
  lemma ParseIgnoresFirstSegment(segment: string, rest: string)
    requires PARTS_SEPARATOR !in segment
    requires KEY_VALUE_SEPARATOR !in segment || KeyValue(segment).0 !in FieldKeywords
    ensures Parse(Prefix + segment + [PARTS_SEPARATOR] + rest) == Parse(Prefix + rest)
  {
    FieldKeywordsDistinct();
    ComponentsFirstSegment(segment, rest);
    var (k, v) := KeyValue(segment);
    var empty: map<string, string> := map[];
    assert map[k := v] == empty[k := v];
    ApplyAfterUpdate(empty, k, v, Split(rest, PARTS_SEPARATOR));
    ResolveAgreeExcept(Components(Prefix + segment + [PARTS_SEPARATOR] + rest), Components(Prefix + rest), k);
  }

  /** When the first segment's key occurs again later, the first occurrence
      leaves no trace in the map. */
  lemma ComponentsLastWinsFirst(key: string, earlier: string, rest: string)
    requires PARTS_SEPARATOR !in key && KEY_VALUE_SEPARATOR !in key
    requires PARTS_SEPARATOR !in earlier
    requires SetsKey(rest, key)
    ensures Components(Prefix + Entry(key, earlier) + [PARTS_SEPARATOR] + rest) == Components(Prefix + rest)
  {
    var segment := Entry(key, earlier);
    assert PARTS_SEPARATOR !in segment;
    KeyValueOf(key, earlier);
    ComponentsFirstSegment(segment, rest);
    var empty: map<string, string> := map[];
    var first := map[key := earlier];
    assert AgreeExcept(first, empty, key);
    ApplyOverrides(first, empty, key, Split(rest, PARTS_SEPARATOR));
  }

  /** When the first segment's key occurs again later, the first occurrence
      has no effect on the result: `RRULE:k=a;rest` parses as `RRULE:rest`. */
  lemma ParseLastWinsFirst(key: string, earlier: string, rest: string)
    requires PARTS_SEPARATOR !in key && KEY_VALUE_SEPARATOR !in key
    requires PARTS_SEPARATOR !in earlier
    requires SetsKey(rest, key)
    ensures Parse(Prefix + Entry(key, earlier) + [PARTS_SEPARATOR] + rest) == Parse(Prefix + rest)
  {
    ComponentsLastWinsFirst(key, earlier, rest);
  }
}
