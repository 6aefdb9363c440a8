/** The days of the week and their two-letter RFC 5545 codes. */
module Weeks {
  import opened Results

  datatype Week = MONDAY | TUESDAY | WEDNESDAY | THURSDAY | FRIDAY | SATURDAY | SUNDAY

  /** The `initial` property: the two-letter code, in upper-case ASCII. */
  function Initial(w: Week): (s: string)
    ensures |s| == 2 && 'A' <= s[0] <= 'Z' && 'A' <= s[1] <= 'Z'
  {
    match w
    case MONDAY => "MO"
    case TUESDAY => "TU"
    case WEDNESDAY => "WE"
    case THURSDAY => "TH"
    case FRIDAY => "FR"
    case SATURDAY => "SA"
    case SUNDAY => "SU"
  }

  /** `Week.entries`, in declaration order. */
  const Entries: seq<Week> := [MONDAY, TUESDAY, WEDNESDAY, THURSDAY, FRIDAY, SATURDAY, SUNDAY]

  const WEEKDAYS: seq<Week> := [MONDAY, TUESDAY, WEDNESDAY, THURSDAY, FRIDAY]
  const WEEKEND: seq<Week> := [SATURDAY, SUNDAY]

  /** `ws.find { it.initial == initial }`: the first entry with that code. */
  function FindByInitial(ws: seq<Week>, initial: string): (r: Option<Week>)
    ensures r.Some? ==> r.value in ws && Initial(r.value) == initial
    ensures r.None? <==> forall w :: w in ws ==> Initial(w) != initial
  {
    if ws == [] then None
    else if Initial(ws[0]) == initial then Some(ws[0])
    else
      assert forall w :: w in ws ==> w == ws[0] || w in ws[1..];
      FindByInitial(ws[1..], initial)
  }

  /** `initialValueOf`: the day whose code is exactly `initial` (case-sensitive);
      `None` stands for the thrown `IllegalArgumentException`. */
  function InitialValueOf(initial: string): (r: Option<Week>)
    ensures r.Some? ==> Initial(r.value) == initial
    ensures r.None? <==> forall w: Week :: Initial(w) != initial
  {
    EntriesComplete();
    FindByInitial(Entries, initial)
  }

  /** `Entries` lists every day exactly once. */
  lemma EntriesComplete()
    ensures forall w: Week :: w in Entries
    ensures forall i, j :: 0 <= i < j < |Entries| ==> Entries[i] != Entries[j]
  {
    forall w: Week ensures w in Entries {
      match w
      case MONDAY => assert Entries[0] == w;
      case TUESDAY => assert Entries[1] == w;
      case WEDNESDAY => assert Entries[2] == w;
      case THURSDAY => assert Entries[3] == w;
      case FRIDAY => assert Entries[4] == w;
      case SATURDAY => assert Entries[5] == w;
      case SUNDAY => assert Entries[6] == w;
    }
  }

  /** The codes, in entry order, are MO, TU, WE, TH, FR, SA, SU; no two days share one. */
  lemma InitialsDistinct()
    ensures forall v, w :: Initial(v) == Initial(w) ==> v == w
    ensures seq(|Entries|, i requires 0 <= i < |Entries| => Initial(Entries[i]))
            == ["MO", "TU", "WE", "TH", "FR", "SA", "SU"]
  {
    forall v, w | Initial(v) == Initial(w) ensures v == w {
      assert Initial(v)[0] == Initial(w)[0] && Initial(v)[1] == Initial(w)[1];
    }
  }

  /** Looking up a day's own code gives that day back. */
  lemma InitialValueOfInitial(w: Week)
    ensures InitialValueOf(Initial(w)) == Some(w)
  {
    InitialsDistinct();
  }

  /** Lower-case codes and unknown codes are rejected. */
  lemma InitialValueOfRejects()
    ensures InitialValueOf("mo") == None
    ensures InitialValueOf("NA") == None
    ensures InitialValueOf("") == None
  {
    forall w: Week ensures Initial(w) != "mo" && Initial(w) != "NA" {
      assert Initial(w)[0] != "mo"[0] && Initial(w) != "NA";
    }
  }

  /** WEEKDAYS and WEEKEND split the week in two. */
  lemma WeekdaysAndWeekendPartition()
    ensures forall w: Week :: (w in WEEKDAYS) != (w in WEEKEND)
    ensures forall w: Week :: w in WEEKDAYS + WEEKEND
  {
    forall w: Week ensures (w in WEEKDAYS) != (w in WEEKEND) && w in WEEKDAYS + WEEKEND {
      match w
      case MONDAY => assert WEEKDAYS[0] == w;
      case TUESDAY => assert WEEKDAYS[1] == w;
      case WEDNESDAY => assert WEEKDAYS[2] == w;
      case THURSDAY => assert WEEKDAYS[3] == w;
      case FRIDAY => assert WEEKDAYS[4] == w;
      case SATURDAY => assert WEEKEND[0] == w;
      case SUNDAY => assert WEEKEND[1] == w;
    }
  }
}
