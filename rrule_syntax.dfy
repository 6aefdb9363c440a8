/** The tokens of the RRULE grammar (RFC 5545, section 3.3.10): the property
    name, the rule-part keywords and the four one-character separators.
    The same keywords are repeated in the `RRule` companion object; the model
    keeps one copy. */
module RRuleSyntax {

  // Keywords
  const PROPERTY_NAME: string := "RRULE"
  const FREQ: string := "FREQ"
  const INTERVAL: string := "INTERVAL"
  const BYDAY: string := "BYDAY"
  const BYMONTH: string := "BYMONTH"
  const BYMONTHDAY: string := "BYMONTHDAY"
  const BYSETPOS: string := "BYSETPOS"

  // Separators: one-character strings in the source, characters here.
  const PROPERTY_SEPARATOR: char := ':'
  const KEY_VALUE_SEPARATOR: char := '='
  const PARTS_SEPARATOR: char := ';'
  const LIST_SEPARATOR: char := ','

  /** The rule parts, in the order the serialiser writes them. */
  const FieldKeywords: seq<string> := [FREQ, INTERVAL, BYDAY, BYMONTH, BYMONTHDAY, BYSETPOS]

  const Keywords: seq<string> := [PROPERTY_NAME] + FieldKeywords

  const Separators: seq<char> :=
    [PROPERTY_SEPARATOR, KEY_VALUE_SEPARATOR, PARTS_SEPARATOR, LIST_SEPARATOR]

  /** Every keyword is a non-empty run of upper-case ASCII letters. */
  lemma KeywordsAreUpperWords()
    ensures forall k :: k in Keywords ==> |k| > 0 && forall i :: 0 <= i < |k| ==> 'A' <= k[i] <= 'Z'
  {
  }

  /** No keyword contains a separator, so splitting on `;` and then on `=`
      gives back the keys the serialiser wrote. */
  lemma KeywordsAvoidSeparators()
    ensures forall k, c :: k in Keywords && c in Separators ==> c !in k
  {
    KeywordsAreUpperWords();
  }

  lemma SeparatorsDistinct()
    ensures forall i, j :: 0 <= i < j < |Separators| ==> Separators[i] != Separators[j]
  {
  }

  /** The rule-part keywords are pairwise distinct, and none is the empty key
      that a segment without `=` is filed under. */
  lemma FieldKeywordsDistinct()
    ensures forall i, j :: 0 <= i < j < |FieldKeywords| ==> FieldKeywords[i] != FieldKeywords[j]
    ensures "" !in FieldKeywords
  {
  }
}
