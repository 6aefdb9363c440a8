/** The recurrence frequencies the rule supports: a subset of RFC 5545's seven. */
module Frequencies {
  import opened Results

  datatype Frequency = DAILY | WEEKLY | MONTHLY | YEARLY

  /** The enum constant's name, which is also its `toString()`: a word of
      upper-case ASCII letters. */
  function Name(f: Frequency): (s: string)
    ensures |s| > 0
    ensures forall i :: 0 <= i < |s| ==> 'A' <= s[i] <= 'Z'
  {
    match f
    case DAILY => "DAILY"
    case WEEKLY => "WEEKLY"
    case MONTHLY => "MONTHLY"
    case YEARLY => "YEARLY"
  }

  /** `Frequency.entries`, in declaration order. */
  const Entries: seq<Frequency> := [DAILY, WEEKLY, MONTHLY, YEARLY]

  /** `enumValueOf<Frequency>(name)`: exact, case-sensitive lookup by name;
      `None` stands for the thrown `IllegalArgumentException`. */
  function ValueOf(name: string): (r: Option<Frequency>)
    ensures r.Some? ==> Name(r.value) == name
    ensures r.None? <==> forall f: Frequency :: Name(f) != name
  {
    if name == "DAILY" then Some(DAILY)
    else if name == "WEEKLY" then Some(WEEKLY)
    else if name == "MONTHLY" then Some(MONTHLY)
    else if name == "YEARLY" then Some(YEARLY)
    else None
  }

  /** Looking up a frequency's own name gives that frequency back. */
  lemma ValueOfName(f: Frequency)
    ensures ValueOf(Name(f)) == Some(f)
  {
  }

  /** `Entries` lists every frequency exactly once. */
  lemma EntriesComplete()
    ensures forall f: Frequency :: f in Entries
    ensures forall i, j :: 0 <= i < j < |Entries| ==> Entries[i] != Entries[j]
  {
    forall f: Frequency ensures f in Entries {
      match f
      case DAILY => assert Entries[0] == f;
      case WEEKLY => assert Entries[1] == f;
      case MONTHLY => assert Entries[2] == f;
      case YEARLY => assert Entries[3] == f;
    }
  }
}
