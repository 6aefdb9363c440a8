/** The range checks for the integer-valued rule parts and `mapToSet`, which
    turns a comma-separated value into a set. The `RRule` companion object
    has private copies of all of these that behave the same; the model keeps
    one. */
module Validators {
  import opened Results
  import opened Text
  import opened OrderedSets
  import opened RRuleSyntax

  const MAX_MONTH_DAYS: int := 31
  const MAX_YEAR_DAYS: int := 366

  /** A Kotlin `IntRange` `first..last` (both ends included). */
  datatype IntRange = IntRange(first: int, last: int)

  predicate Contains(range: IntRange, n: int)
  {
    range.first <= n <= range.last
  }

  /** Membership in `range`, except that 0 is always rejected. */
  function InRangeNonZero(range: IntRange, n: int): (ok: bool)
    ensures n == 0 ==> !ok
    ensures n != 0 ==> (ok <==> range.first <= n <= range.last)
  {
    n != 0 && Contains(range, n)
  }

  /** BYMONTH: a month number, 1 to 12. */
  function ByMonthValidator(n: Int32): (ok: bool)
    ensures ok <==> 1 <= n <= 12
  {
    Contains(IntRange(1, 12), n)
  }

  /** BYMONTHDAY: a day of the month counted from either end, -31..-1 or 1..31. */
  function ByMonthDayValidator(n: Int32): (ok: bool)
    ensures ok <==> (-31 <= n <= -1 || 1 <= n <= 31)
  {
    InRangeNonZero(IntRange(-MAX_MONTH_DAYS, MAX_MONTH_DAYS), n)
  }

  /** BYSETPOS: a position in the occurrence set counted from either end,
      -366..-1 or 1..366. */
  function BySetPosValidator(n: Int32): (ok: bool)
    ensures ok <==> (-366 <= n <= -1 || 1 <= n <= 366)
  {
    InRangeNonZero(IntRange(-MAX_YEAR_DAYS, MAX_YEAR_DAYS), n)
  }

  /** `tokens.map(transform)` where `transform` may throw: `None` as soon as
      one token fails. */
  function MapAll<R>(tokens: seq<string>, transform: string -> Option<R>): (r: Option<seq<R>>)
    ensures r.Some? <==> forall i :: 0 <= i < |tokens| ==> transform(tokens[i]).Some?
    ensures r.Some? ==> |r.value| == |tokens|
    ensures r.Some? ==> forall i :: 0 <= i < |tokens| ==> transform(tokens[i]) == Some(r.value[i])
    decreases |tokens|
  {
    if tokens == [] then Some([])
    else
      match transform(tokens[0])
      case None => None
      case Some(x) =>
        match MapAll(tokens[1..], transform)
        case None => None
        case Some(xs) =>
          assert forall i :: 1 <= i < |tokens| ==> tokens[i] == tokens[1..][i - 1];
          Some([x] + xs)
  }

  /** Every token transforms, and every transformed value passes `validate`. */
  predicate Accepts<R>(tokens: seq<string>, validate: R -> bool, transform: string -> Option<R>)
  {
    forall i :: 0 <= i < |tokens| ==>
      transform(tokens[i]).Some? && validate(transform(tokens[i]).value)
  }

  /** `xs` holds exactly the transformed tokens (all of which transform). */
  predicate Covers<R(==)>(xs: seq<R>, tokens: seq<string>, transform: string -> Option<R>)
  {
    && (forall i :: 0 <= i < |tokens| ==> transform(tokens[i]).Some? && transform(tokens[i]).value in xs)
    && (forall k :: 0 <= k < |xs| ==> exists i :: 0 <= i < |tokens| && transform(tokens[i]) == Some(xs[k]))
  }

  /** `s.mapToSet(validate, transform)`: split on `,`, transform every token,
      require every transformed value to pass `validate`, and collect them into
      a set in first-occurrence order. `None` stands for the thrown exception. */
  function MapToSet<R(==)>(s: string, validate: R -> bool, transform: string -> Option<R>)
    : (r: Option<OrderedSet<R>>)
    ensures r.Some? <==> Accepts(Split(s, LIST_SEPARATOR), validate, transform)
    ensures r.Some? ==> |r.value| >= 1
    ensures r.Some? ==> forall i :: 0 <= i < |r.value| ==> validate(r.value[i])
    ensures r.Some? ==> Covers(r.value, Split(s, LIST_SEPARATOR), transform)
    ensures r.Some? ==> r.value == Dedup(MapAll(Split(s, LIST_SEPARATOR), transform).value)
  {
    var tokens := Split(s, LIST_SEPARATOR);
    var mapped := MapAll(tokens, transform);
    if mapped.None? then
      var i :| 0 <= i < |tokens| && !transform(tokens[i]).Some?;
      None
    else
      var list := mapped.value;
      assert forall i :: 0 <= i < |tokens| ==> transform(tokens[i]).value == list[i];
      if forall i :: 0 <= i < |list| ==> validate(list[i]) then
        var r := Dedup(list);
        assert Covers(r, tokens, transform) by {
          forall k | 0 <= k < |r| ensures exists i :: 0 <= i < |tokens| && transform(tokens[i]) == Some(r[k]) {
            var i :| 0 <= i < |list| && list[i] == r[k];
            assert transform(tokens[i]) == Some(r[k]);
          }
        }
        Some(r)
      else
        None
  }

  /** Reading back a joined list of renderings gives the elements back, each
      once and where it first occurs, provided each rendering reads back to
      its element, holds no `,`, and the element passes `validate`. */
  lemma MapToSetJoin<R>(xs: seq<R>, rendered: seq<string>, validate: R -> bool, transform: string -> Option<R>)
    requires |xs| >= 1 && |rendered| == |xs|
    requires forall i :: 0 <= i < |xs| ==> transform(rendered[i]) == Some(xs[i])
    requires forall i :: 0 <= i < |xs| ==> LIST_SEPARATOR !in rendered[i]
    requires forall i :: 0 <= i < |xs| ==> validate(xs[i])
    ensures MapToSet(Join(rendered, LIST_SEPARATOR), validate, transform) == Some(Dedup(xs))
  {
    SplitJoin(rendered, LIST_SEPARATOR);
    var list := MapAll(rendered, transform);
    assert list.Some?;
    assert list.value == xs;
  }
}
