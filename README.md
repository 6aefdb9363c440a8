# RRULE: a verified model of the recurrence-rule value and its text form

The library is a small Kotlin data class, `RRule`, for the iCalendar recurrence rule
(RFC 5545, section 3.3.10). A rule holds:

- a frequency (DAILY, WEEKLY, MONTHLY, YEARLY);
- an interval;
- four sets: days of the week, months, days of the month, and set positions.

The library offers three things:

- range checks on the fields (`isIntervalValid`, `isByMonthValid`, `isByMonthDayValid`,
  `isBySetPosValid`, `isValid`);
- a serialiser, `toRFC5545String`, that checks the ranges and then writes
  `RRULE:FREQ=…[;INTERVAL=…][;BYDAY=…][;BYMONTH=…][;BYMONTHDAY=…][;BYSETPOS=…]`;
- a lenient parser, `RRule(rfc5545String)`.

The parser works in these steps:

- drop one leading `RRULE:`;
- split the line on `;`, then split each segment at its first `=`;
- keep the last value of each key;
- resolve the six rule keys in a fixed order, failing with the message of the first part
  that does not resolve;
- give absent keys their defaults.

The model follows the code:

- `Week` has its two-letter codes and a case-sensitive `initialValueOf`.
- The grammar's keywords and separators come from `RRuleSyntax`.
- The validators and `mapToSet` come from `RRuleValidators.kt`.
- Kotlin's `Int` is a 32-bit subset type.
- Kotlin's `Set` is an insertion-ordered sequence without duplicates, as a `LinkedHashSet` behaves.
- A thrown `IllegalArgumentException` becomes an `Err` carrying its message.

Modules:

- `Results`: `Option`, `Result` and `Outcome`.
- `Text`: the Kotlin string functions the code relies on: `split`, `split(limit = 2)`,
  `joinToString`, `removePrefix`, `uppercase`, `toIntOrNull`/`toInt` and `Int.toString`.
- `OrderedSets`: `toSet` as `Dedup`.
- `RRuleSyntax`, `Weeks`, `Frequencies` and `Validators`.
- `RRules`: the data class, the checks, the serialiser and the parser.
- `RRuleProperties`: what the serialised line holds, and the round trips.
- `ParseProperties`: the parser's leniency and error order.
- `SampleRules`: the serialiser on the library's test rules.
- `SampleLines`: the parser on lines from the library's tests, and on two lines showing its leniency.

Where the documentation and the code disagree, the model follows the code:

- An interval of 0 is valid (`interval >= 0`), even though the error message says
  "positive".
- The serialiser omits INTERVAL unless the interval exceeds 1. So a rule with interval 0
  reads back with interval 1 (`RRuleProperties.ParseSerialize`).

## Model

| member | source | states |
|---|---|---|
| RRules.DefaultRule | rrule/src/main/kotlin/com/uchan/rrule/RRule.kt:15-21 | the defaults are DAILY, interval 1 and four empty sets, and that rule is valid |
| RRules.IsIntervalValid | rrule/src/main/kotlin/com/uchan/rrule/RRule.kt:23-24 | valid exactly when the interval is at least 0 |
| RRules.IsByMonthValid | rrule/src/main/kotlin/com/uchan/rrule/RRule.kt:25-26 | valid exactly when every month lies in 1..12 |
| RRules.IsByMonthDayValid | rrule/src/main/kotlin/com/uchan/rrule/RRule.kt:27-28 | valid exactly when every month day lies in -31..-1 or 1..31 |
| RRules.IsBySetPosValid | rrule/src/main/kotlin/com/uchan/rrule/RRule.kt:29-30 | valid exactly when every set position lies in -366..-1 or 1..366 |
| RRules.IsValid | rrule/src/main/kotlin/com/uchan/rrule/RRule.kt:31-32 | valid exactly when all four ranges hold, stated on the raw field values |
| RRules.FrequencyEntries | rrule/src/main/kotlin/com/uchan/rrule/RRule.kt:161 | the frequency names joined by `,` are `DAILY,WEEKLY,MONTHLY,YEARLY` |
| RRules.FrequencyEntriesAccepted | rrule/src/main/kotlin/com/uchan/rrule/RRule.kt:161 | the names listed are exactly those the FREQ lookup accepts |
| RRules.WeekEntries | rrule/src/main/kotlin/com/uchan/rrule/RRule.kt:162 | the day codes joined by `,` are `MO,TU,WE,TH,FR,SA,SU` |
| RRules.FrequencyValidateErrorMessage | rrule/src/main/kotlin/com/uchan/rrule/RRule.kt:164 | the FREQ error text is `FREQ must be in format DAILY,WEEKLY,MONTHLY,YEARLY` |
| RRules.ByDayValidateErrorMessage | rrule/src/main/kotlin/com/uchan/rrule/RRule.kt:165 | the BYDAY error text is `BYDAY must be in format MO,TU,WE,TH,FR,SA,SU` |
| RRules.RequirePrecondition | rrule/src/main/kotlin/com/uchan/rrule/RRule.kt:149-154 | passes exactly when the rule is valid; otherwise it fails with the message of the first violated range, in the order INTERVAL, BYMONTH, BYMONTHDAY, BYSETPOS |
| RRules.Segments | rrule/src/main/kotlin/com/uchan/rrule/RRule.kt:40-70 | one part for FREQ plus one for each of INTERVAL (when above 1) and each non-empty set, so the part count is fixed by the rule; no part has an empty value |
| RRules.SegmentsOrdered | rrule/src/main/kotlin/com/uchan/rrule/RRule.kt:40-70 | the written parts follow the fixed order FREQ, INTERVAL, BYDAY, BYMONTH, BYMONTHDAY, BYSETPOS, with none repeated |
| RRules.SegmentsStartWithFreq | rrule/src/main/kotlin/com/uchan/rrule/RRule.kt:43-44 | the first part is always FREQ with the frequency's name |
| RRules.Line | rrule/src/main/kotlin/com/uchan/rrule/RRule.kt:41 | every written line starts with `RRULE:` |
| RRules.LineStartsWithFirst | rrule/src/main/kotlin/com/uchan/rrule/RRule.kt:41-44 | the line of some parts starts with `RRULE:` and the first part as `key=value` |
| RRules.Render | rrule/src/main/kotlin/com/uchan/rrule/RRule.kt:40-44 | the written line of any rule starts with `RRULE:FREQ=` and the frequency's name |
| RRules.Serialize | rrule/src/main/kotlin/com/uchan/rrule/RRule.kt:37-71 | succeeds exactly when the rule is valid; a failure carries the precondition's first message |
| RRules.LineSnoc | rrule/src/main/kotlin/com/uchan/rrule/RRule.kt:47-48 | appending `;key=value` to the line of some parts gives the line of one more part |
| RRules.AppendPart | rrule/src/main/kotlin/com/uchan/rrule/RRule.kt:47-48 | the two `append` calls extend the buffer from the line of the parts written so far to the line with one more part |
| RRules.BuildLine | rrule/src/main/kotlin/com/uchan/rrule/RRule.kt:40-70 | the buffer built part by part equals the line of the rule's parts |
| RRules.ToRFC5545String | rrule/src/main/kotlin/com/uchan/rrule/RRule.kt:37-71 | the method's result equals `Serialize`: the first range error, or the full line |
| RRules.KeyValue | rrule/src/main/kotlin/com/uchan/rrule/RRule.kt:93-94 | a segment without `=` maps to the empty key and value; otherwise the key holds no `=` and key, `=`, value rebuild the segment |
| RRules.Associate | rrule/src/main/kotlin/com/uchan/rrule/RRule.kt:92-95 | the map has exactly the keys of the pairs |
| RRules.AssociateFrom | rrule/src/main/kotlin/com/uchan/rrule/RRule.kt:92-95 | every key the map keeps comes, with its value, from one of the pairs |
| RRules.KeyValuePairs | rrule/src/main/kotlin/com/uchan/rrule/RRule.kt:92-95 | one pair per segment, in order, each the segment split at its first `=` |
| RRules.ComponentsShape | rrule/src/main/kotlin/com/uchan/rrule/RRule.kt:89-95 | a line's key/value map is never empty (even the empty line yields the pair of empty texts); no key holds `;` or `=`, and no value holds `;` |
| RRules.ResolveFreq | rrule/src/main/kotlin/com/uchan/rrule/RRule.kt:97-100 | absent means DAILY; present resolves exactly when its upper case names a frequency, which is then the result; otherwise the FREQ message |
| RRules.ResolveInterval | rrule/src/main/kotlin/com/uchan/rrule/RRule.kt:102-105 | absent means 1; present resolves exactly when it parses as a 32-bit integer of at least 0, which is then the result; otherwise the INTERVAL message |
| RRules.ResolveByDay | rrule/src/main/kotlin/com/uchan/rrule/RRule.kt:107-110 | absent means the empty set; success means every comma token is a day code and the result is the days without repeats in first-occurrence order; failure means some token is not a code, and carries the BYDAY message |
| RRules.ParseSet | rrule/src/main/kotlin/com/uchan/rrule/RRule.kt:113-116 | absent means the empty set; success means every comma token parses and passes the validator, and the result is the numbers without repeats in first-occurrence order; otherwise the given message |
| RRules.Resolve | rrule/src/main/kotlin/com/uchan/rrule/RRule.kt:118-125 | a resolved rule is always valid |
| RRules.Parse | rrule/src/main/kotlin/com/uchan/rrule/RRule.kt:88-126 | a successfully parsed rule is always valid |
| RRuleProperties.AssociateLastWins | rrule/src/main/kotlin/com/uchan/rrule/RRule.kt:92-95 | a later pair overrides an earlier one with the same key |
| RRuleProperties.FieldsOfRule | rrule/src/main/kotlin/com/uchan/rrule/RRule.kt:40-70 | the written line has FREQ; INTERVAL exactly when the interval exceeds 1; each set-valued part exactly when its set is non-empty, its elements joined by `,`; and no other key |
| RRuleProperties.ComponentsOfRender | rrule/src/main/kotlin/com/uchan/rrule/RRule.kt:89-95 | reading the written line back into a key/value map gives exactly those parts |
| RRuleProperties.Canonical | rrule/src/main/kotlin/com/uchan/rrule/RRule.kt:46-49 | the rule as the parser sees it after a round trip: an interval of 0 becomes 1, and nothing else changes |
| RRuleProperties.ResolveFreqOfName | rrule/src/main/kotlin/com/uchan/rrule/RRule.kt:97-100 | a frequency's written name resolves to that frequency |
| RRuleProperties.ResolveFreqIgnoresCase | rrule/src/main/kotlin/com/uchan/rrule/RRule.kt:97-100 | FREQ is case-insensitive: any upper/lower-case spelling of a frequency's name resolves to that frequency |
| RRuleProperties.ResolveIntervalOfNumber | rrule/src/main/kotlin/com/uchan/rrule/RRule.kt:102-105 | a written interval resolves to itself, and an omitted one to 1 |
| RRuleProperties.ResolveByDayOfInitials | rrule/src/main/kotlin/com/uchan/rrule/RRule.kt:107-110 | days written as joined codes resolve to those days, without repeats, in first-occurrence order |
| RRuleProperties.ParseSetOfNumbers | rrule/src/main/kotlin/com/uchan/rrule/RRule.kt:113-116 | numbers written joined by `,` that pass the validator resolve to those numbers, without repeats, in first-occurrence order |
| RRuleProperties.ResolveOfResolved | rrule/src/main/kotlin/com/uchan/rrule/RRule.kt:118-125 | when every part resolves to a field's value, the map resolves to the rule with those fields; this includes an interval of 0 |
| RRuleProperties.ResolveOfParts | rrule/src/main/kotlin/com/uchan/rrule/RRule.kt:97-125 | a map holding a valid rule's parts as the serialiser writes them resolves to that rule, with interval 0 read as 1 |
| RRuleProperties.ParseSerialize | rrule/src/main/kotlin/com/uchan/rrule/RRule.kt:88-126 | a valid rule serialises, and parsing the line gives the rule back, with interval 0 read as 1 |
| RRuleProperties.SerializeCanonical | rrule/src/main/kotlin/com/uchan/rrule/RRule.kt:46-49 | intervals 0 and 1 serialise alike |
| RRuleProperties.SerializeParse | rrule/src/main/kotlin/com/uchan/rrule/RRule.kt:37-71 | a line the serialiser wrote is parsed and written back unchanged |
| ParseProperties.ResolveReadsOnlyFields | rrule/src/main/kotlin/com/uchan/rrule/RRule.kt:97-125 | two maps that agree on the six rule keys resolve alike, errors included |
| ParseProperties.ResolveIgnoresOtherKeys | rrule/src/main/kotlin/com/uchan/rrule/RRule.kt:97-125 | an entry under any other key, the empty key included, changes nothing |
| ParseProperties.ResolveErrorOrder | rrule/src/main/kotlin/com/uchan/rrule/RRule.kt:118-125 | the map resolves exactly when every part does; otherwise the first failing part, in the order FREQ, INTERVAL, BYDAY, BYMONTH, BYMONTHDAY, BYSETPOS, gives the error |
| ParseProperties.ComponentsSnoc | rrule/src/main/kotlin/com/uchan/rrule/RRule.kt:89-95 | a segment appended after `;` enters its key/value pair over whatever the line already held under that key |
| ParseProperties.ComponentsLastWins | rrule/src/main/kotlin/com/uchan/rrule/RRule.kt:92-95 | when a key occurs in the last two segments, the map keeps the later value |
| ParseProperties.ParsePrefixOptional | rrule/src/main/kotlin/com/uchan/rrule/RRule.kt:90 | a line reads the same with or without the leading `RRULE:` |
| ParseProperties.ParsePrefixDroppedOnce | rrule/src/main/kotlin/com/uchan/rrule/RRule.kt:90 | only one `RRULE:` is dropped; the rest of the line is read as it stands |
| ParseProperties.ParseIgnoresSegment | rrule/src/main/kotlin/com/uchan/rrule/RRule.kt:92-95 | a final segment without `=`, or with a key that is not a rule key, does not change the result |
| ParseProperties.ParseLastWins | rrule/src/main/kotlin/com/uchan/rrule/RRule.kt:92-95 | when a key occurs in the last two segments, the earlier value has no effect on the result, errors included |
| ParseProperties.ComponentsAppend | rrule/src/main/kotlin/com/uchan/rrule/RRule.kt:89-95 | reading `t;s1;...;sn` files the pairs of s1..sn, in order, over the map of `t` |
| ParseProperties.ComponentsAppendText | rrule/src/main/kotlin/com/uchan/rrule/RRule.kt:89-95 | reading `t;rest` files the pairs of the segments of `rest`, in order, over the map of `t` |
| ParseProperties.ApplyAgreeExcept | rrule/src/main/kotlin/com/uchan/rrule/RRule.kt:92-95 | filing the same segments over two maps keeps every key they agreed on |
| ParseProperties.AgreeExceptUpdate | rrule/src/main/kotlin/com/uchan/rrule/RRule.kt:92-95 | maps that differ at most under one key become equal once that key is set |
| ParseProperties.ResolveAgreeExcept | rrule/src/main/kotlin/com/uchan/rrule/RRule.kt:97-125 | maps that differ at most under a key other than the six rule keys resolve alike |
| ParseProperties.ComponentsSegmentAnywhere | rrule/src/main/kotlin/com/uchan/rrule/RRule.kt:89-95 | a segment after the first, followed by any further text, changes the map at most under its own key |
| ParseProperties.ComponentsAfterSegment | rrule/src/main/kotlin/com/uchan/rrule/RRule.kt:89-95 | `t;segment;rest` and `t;rest` both file the segments of `rest` over the map of what precedes them |
| ParseProperties.ParseIgnoresSegmentAnywhere | rrule/src/main/kotlin/com/uchan/rrule/RRule.kt:89-125 | a segment after the first, without `=` or with a key that is not a rule key, has no effect whatever follows it: `t;segment;rest` parses as `t;rest` |
| ParseProperties.ApplyOverrides | rrule/src/main/kotlin/com/uchan/rrule/RRule.kt:92-95 | filing segments of which one sets a key makes two maps that differed only under that key equal |
| ParseProperties.ApplyOverridesUpdate | rrule/src/main/kotlin/com/uchan/rrule/RRule.kt:92-95 | a value set under a key is lost when a later segment sets that key |
| ParseProperties.ComponentsLastWinsAnywhere | rrule/src/main/kotlin/com/uchan/rrule/RRule.kt:89-95 | when a key set after the first segment is set again anywhere later, `t;k=a;rest` and `t;rest` have the same map, whatever lies between or after |
| ParseProperties.ParseLastWinsAnywhere | rrule/src/main/kotlin/com/uchan/rrule/RRule.kt:89-125 | when a key set after the first segment is set again anywhere later, `t;k=a;rest` parses as `t;rest`, errors included |
| ParseProperties.AssociateApply | rrule/src/main/kotlin/com/uchan/rrule/RRule.kt:89-95 | associating the pairs of some segments is filing them, in order, over the empty map |
| ParseProperties.ComponentsOfPrefixed | rrule/src/main/kotlin/com/uchan/rrule/RRule.kt:89-95 | after `RRULE:`, a line's map is its segments filed over the empty map |
| ParseProperties.ComponentsFirstSegment | rrule/src/main/kotlin/com/uchan/rrule/RRule.kt:89-95 | `RRULE:segment;rest` files the segments of `rest` over a map holding only the first segment's pair; `RRULE:rest` files them over the empty map |
| ParseProperties.ParseIgnoresFirstSegment | rrule/src/main/kotlin/com/uchan/rrule/RRule.kt:89-125 | a first segment without `=`, or with a key that is not a rule key, has no effect: `RRULE:segment;rest` parses as `RRULE:rest` |
| ParseProperties.ComponentsLastWinsFirst | rrule/src/main/kotlin/com/uchan/rrule/RRule.kt:89-95 | when the first segment's key is set again anywhere later, `RRULE:k=a;rest` and `RRULE:rest` have the same map |
| ParseProperties.ParseLastWinsFirst | rrule/src/main/kotlin/com/uchan/rrule/RRule.kt:89-125 | when the first segment's key is set again anywhere later, `RRULE:k=a;rest` parses as `RRULE:rest`, errors included |
| ParseProperties.ParseEmpty | rrule/src/test/kotlin/com/uchan/rrule/RRuleTest.kt:22-25 | the empty line parses to the default rule |
| SampleRules.SerializeDefault | rrule/src/test/kotlin/com/uchan/rrule/RRuleTest.kt:22-25 | the default rule is written as `RRULE:FREQ=DAILY` |
| SampleRules.SerializeRejectsInterval | rrule/src/test/kotlin/com/uchan/rrule/RRuleTest.kt:53-58 | interval -1 fails with the INTERVAL message |
| SampleRules.SerializeRejectsByMonth | rrule/src/test/kotlin/com/uchan/rrule/RRuleTest.kt:89-96 | a month outside 1..12 fails with the BYMONTH message |
| SampleRules.SerializeRejectsByMonthDay | rrule/src/test/kotlin/com/uchan/rrule/RRuleTest.kt:113-120 | a month day of 0 or beyond ±31 fails with the BYMONTHDAY message |
| SampleRules.SerializeRejectsBySetPos | rrule/src/test/kotlin/com/uchan/rrule/RRuleTest.kt:137-144 | a set position of 0 or beyond ±366 fails with the BYSETPOS message |
| SampleRules.EmptyLineRoundTrip | rrule/src/test/kotlin/com/uchan/rrule/RRuleTest.kt:22-25 | reading the empty line and writing it back gives `RRULE:FREQ=DAILY` |
| SampleLines.ComponentsOfOne | rrule/src/main/kotlin/com/uchan/rrule/RRule.kt:89-95 | `RRULE:key=value` maps exactly that key to that value |
| SampleLines.ParseLowerCaseFrequency | rrule/src/test/kotlin/com/uchan/rrule/RRuleTest.kt:36-39 | the line is `RRULE:FREQ=monthly`, and it parses to the default rule with frequency MONTHLY |
| SampleLines.ParseUnknownFrequency | rrule/src/test/kotlin/com/uchan/rrule/RRuleTest.kt:223-228 | the line is `RRULE:FREQ=day`, and it fails with `FREQ must be in format DAILY,WEEKLY,MONTHLY,YEARLY` |
| SampleLines.ParseMonthOutOfRange | rrule/src/test/kotlin/com/uchan/rrule/RRuleTest.kt:255-260 | the line is `RRULE:FREQ=YEARLY;BYMONTH=13`, and it fails with `BYMONTH must be number in range 1-12` |
| SampleLines.ParseRepeatedDay | rrule/src/test/kotlin/com/uchan/rrule/RRuleTest.kt:69-72 | the line is `RRULE:FREQ=WEEKLY;BYDAY=MO,TU,MO`, and it parses to WEEKLY with the days MO, TU, the repeat dropped |
| SampleLines.ParseUnknownFirstSegment | rrule/src/main/kotlin/com/uchan/rrule/RRule.kt:89-125 | the line is `RRULE:X-FOO=bar;FREQ=WEEKLY`, and it parses to WEEKLY: an unknown first segment is ignored |
| SampleLines.ParseRepeatedFrequency | rrule/src/main/kotlin/com/uchan/rrule/RRule.kt:89-125 | the line is `RRULE:FREQ=DAILY;FREQ=WEEKLY;INTERVAL=2`, and it parses to WEEKLY with interval 2: the later FREQ wins though it is not last |
| SampleLines.ParseIntervalZero | rrule/src/main/kotlin/com/uchan/rrule/RRule.kt:102-105 | the line is `RRULE:INTERVAL=0`, and it parses to the default rule with interval 0: only negative intervals are rejected |
| Validators.InRangeNonZero | rrule/src/main/kotlin/com/uchan/rrule/RRuleValidators.kt:22-24 | 0 is rejected; any other number is accepted exactly when it lies in the range |
| Validators.ByMonthValidator | rrule/src/main/kotlin/com/uchan/rrule/RRuleValidators.kt:8 | accepts exactly 1..12 |
| Validators.ByMonthDayValidator | rrule/src/main/kotlin/com/uchan/rrule/RRuleValidators.kt:9 | accepts exactly -31..-1 and 1..31 |
| Validators.BySetPosValidator | rrule/src/main/kotlin/com/uchan/rrule/RRuleValidators.kt:10 | accepts exactly -366..-1 and 1..366 |
| Validators.MapAll | rrule/src/main/kotlin/com/uchan/rrule/RRuleValidators.kt:16 | succeeds exactly when every token transforms; the result lists the transformed tokens in order |
| Validators.MapToSet | rrule/src/main/kotlin/com/uchan/rrule/RRuleValidators.kt:12-20 | succeeds exactly when every token transforms and passes `validate`; the result is non-empty, holds only values that pass, covers every token, and is the transformed list without repeats |
| Validators.MapToSetJoin | rrule/src/main/kotlin/com/uchan/rrule/RRuleValidators.kt:12-20 | reading back a `,`-joined list of renderings gives the elements without repeats, in first-occurrence order |
| OrderedSets.Dedup | rrule/src/main/kotlin/com/uchan/rrule/RRuleValidators.kt:19 | `toSet` keeps exactly the elements of the list, is no longer, and is empty only for the empty list |
| OrderedSets.DedupOfDistinct | rrule/src/main/kotlin/com/uchan/rrule/RRuleValidators.kt:19 | a list without repeats is its own set |
| OrderedSets.DedupIdempotent | rrule/src/main/kotlin/com/uchan/rrule/RRuleValidators.kt:19 | taking the set twice changes nothing |
| OrderedSets.DedupKeepsFirstOccurrenceOrder | rrule/src/main/kotlin/com/uchan/rrule/RRuleValidators.kt:19 | the set lists elements in the order of their first occurrences |
| Text.Split | rrule/src/main/kotlin/com/uchan/rrule/RRule.kt:91 | at least one piece; no piece holds the separator; joining the pieces gives the text back |
| Text.Join | rrule/src/main/kotlin/com/uchan/rrule/RRule.kt:53 | `joinToString` of no pieces is the empty text |
| Text.JoinStartsWithFirst | rrule/src/main/kotlin/com/uchan/rrule/RRule.kt:53 | the joined text starts with the first piece, followed by the separator when more pieces follow |
| Text.SplitJoin | rrule/src/main/kotlin/com/uchan/rrule/RRuleValidators.kt:16 | splitting the join of separator-free pieces gives the pieces back |
| Text.SplitSnoc | rrule/src/main/kotlin/com/uchan/rrule/RRule.kt:91 | one more separator-free segment adds one more piece |
| Text.SplitOnce | rrule/src/main/kotlin/com/uchan/rrule/RRule.kt:93 | one piece exactly when the separator is absent; otherwise a separator-free head and a tail that rebuild the text |
| Text.SplitOnceAt | rrule/src/main/kotlin/com/uchan/rrule/RRule.kt:93 | a separator-free key, the separator and a value split into key and value |
| Text.RemovePrefix | rrule/src/main/kotlin/com/uchan/rrule/RRule.kt:90 | with the prefix present, the prefix plus the result is the text; otherwise the text is unchanged |
| Text.UpperChar | rrule/src/main/kotlin/com/uchan/rrule/RRule.kt:98 | the upper case is an ASCII capital exactly for ASCII letters, dotless `ı` and long `ſ`; a-z move down by 32; every other character is unchanged |
| Text.UpperCase | rrule/src/main/kotlin/com/uchan/rrule/RRule.kt:98 | the same length, each character upper-cased on its own |
| Text.UpperCaseIgnoresAsciiCase | rrule/src/main/kotlin/com/uchan/rrule/RRule.kt:98 | any upper/lower-case spelling of an upper-case ASCII word upper-cases to that word |
| Text.UpperCaseKeepsUpper | rrule/src/main/kotlin/com/uchan/rrule/RRule.kt:98 | upper-casing leaves upper-case ASCII text unchanged |
| Text.IntToString | rrule/src/main/kotlin/com/uchan/rrule/RRule.kt:48 | the decimal text is a `-` exactly for negative numbers, then digits whose value is the magnitude, with no leading zero |
| Text.ParseInt | rrule/src/main/kotlin/com/uchan/rrule/RRule.kt:103 | a text parses only if it is an optional sign and at least one digit; such a text parses exactly when its signed value fits in 32 bits, and then to that value |
| Text.ParseIntToString | rrule/src/main/kotlin/com/uchan/rrule/RRule.kt:103 | every 32-bit integer's decimal text parses back to it |
| RRuleSyntax.KeywordsAreUpperWords | rrule/src/main/kotlin/com/uchan/rrule/RRuleSyntax.kt:5-11 | every keyword is a non-empty run of upper-case letters |
| RRuleSyntax.KeywordsAvoidSeparators | rrule/src/main/kotlin/com/uchan/rrule/RRuleSyntax.kt:5-17 | no keyword contains a separator |
| RRuleSyntax.SeparatorsDistinct | rrule/src/main/kotlin/com/uchan/rrule/RRuleSyntax.kt:14-17 | the four separators are distinct |
| RRuleSyntax.FieldKeywordsDistinct | rrule/src/main/kotlin/com/uchan/rrule/RRuleSyntax.kt:6-11 | the six rule keys are distinct and none is empty |
| Weeks.Initial | rrule/src/main/kotlin/com/uchan/rrule/Week.kt:3-10 | every day's code is two upper-case ASCII letters |
| Weeks.FindByInitial | rrule/src/main/kotlin/com/uchan/rrule/Week.kt:17-19 | finds a day of the list with that code, or reports that none has it |
| Weeks.InitialValueOf | rrule/src/main/kotlin/com/uchan/rrule/Week.kt:17-19 | returns the day whose code is exactly the text; fails exactly when no day has that code |
| Weeks.EntriesComplete | rrule/src/main/kotlin/com/uchan/rrule/Week.kt:3-11 | the entries list every day once |
| Weeks.InitialsDistinct | rrule/src/main/kotlin/com/uchan/rrule/Week.kt:3-11 | the codes in entry order are MO, TU, WE, TH, FR, SA, SU, and no two days share one |
| Weeks.InitialValueOfInitial | rrule/src/main/kotlin/com/uchan/rrule/Week.kt:3-19 | looking up a day's own code gives that day |
| Weeks.InitialValueOfRejects | rrule/src/main/kotlin/com/uchan/rrule/Week.kt:17-19 | `mo`, `NA` and the empty text are rejected |
| Weeks.WeekdaysAndWeekendPartition | rrule/src/main/kotlin/com/uchan/rrule/Week.kt:14-15 | WEEKDAYS and WEEKEND are disjoint and together hold every day |
| Frequencies.Name | rrule/src/main/kotlin/com/uchan/rrule/RRule.kt:44 | every name is a non-empty word of upper-case ASCII letters |
| Frequencies.ValueOf | rrule/src/main/kotlin/com/uchan/rrule/RRule.kt:98 | returns the frequency with exactly that name; fails exactly when no frequency has it |
| Frequencies.ValueOfName | rrule/src/main/kotlin/com/uchan/rrule/RRule.kt:98 | looking up a frequency's own name gives that frequency |
| Frequencies.EntriesComplete | rrule/src/main/kotlin/com/uchan/rrule/RRule.kt:161 | the entries list every frequency once |

## Left out

- The `Frequency` enum's source file is not part of this model. Its constants are taken as DAILY, WEEKLY, MONTHLY, YEARLY in that order, with `toString()` equal to the name.
- Text.ParseInt: Kotlin's `toIntOrNull` and `toInt` also accept the decimal digits of other scripts (`Character.digit`). The model accepts only ASCII digits.
- Text.UpperChar: maps only `a`-`z`, dotless `ı` and long `ſ`, the characters whose upper case is one ASCII letter, and leaves every other character unchanged, where Kotlin's `uppercase()` maps `é` to `É`. Such mappings cannot produce a frequency name, so they do not change the parse result.
- Text.UpperCase: applies `Text.UpperChar` to each character, so it has the same limits, and it leaves out expansions such as `ß` to `SS`, which cannot produce a frequency name either.
- Exceptions: only the message of the thrown `IllegalArgumentException` is modelled, not its type or stack. `Week.initialValueOf`'s message-less exception and `enumValueOf`'s exception are `None`.
- Sets: Kotlin compares sets regardless of order. The model's sequences compare order too, so its round-trip equalities are stronger than the library's `equals`.
- `StringBuilder` is modelled as a `string` value that the buffer methods reassign. `BuildLine` and `AppendPart` split `toRFC5545String`'s `buildString` block into two methods.
- The `RRule` companion object has private copies of the keywords, the validators and `mapToSet` that behave like those in `RRuleSyntax.kt` and `RRuleValidators.kt`. They are modelled once.
- The default constructor `RRule()` is the constant `RRules.Default`, and the data class's generated `copy`, `equals` and `toString` are datatype operations. Only the default rule and the test rules are stated as lemmas.
- Concurrency and JVM details, such as string identity, are not modelled.
