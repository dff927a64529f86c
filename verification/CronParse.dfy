/** Expanding parsed tokens into field sets.

    Characters are already tokens here: a name or number is its value, and a token that is neither is
    `Bad`. `None` stands for `CronParseError`. */
module CronParse {
  import opened CronExpression
  import opened Ranges
  import opened Wrappers

  datatype Token = Number(value: int) | Bad

  /** The part of a list entry before any `/`. */
  datatype Body = Any | Single(token: Token) | Span(first: Token, second: Token)

  /** One entry of a comma-separated list. */
  datatype Item = Item(body: Body, step: Option<Token>) | Empty

  /** A whole field: `*` or `?`, or a list. */
  datatype Spec = Star | List(items: seq<Item>)

  // ---- one entry -----------------------------------------------------------------------------

  /** `range(start, end, step)` as a set. */
  function Stepped(start: int, end: int, step: int): (values: set<int>)
    requires step > 0
    ensures forall v :: v in values ==> start <= v < end
    ensures start < end ==> start in values
    decreases end - start
  {
    if start >= end then {} else {start} + Stepped(start + step, end, step)
  }

  ghost predicate StepAt(start: int, step: int, v: int, k: int) {
    k >= 0 && v == start + k * step
  }

  /** A stepped range holds exactly the multiples of the step counted from its start. */
  lemma {:induction false} SteppedMeans(start: int, end: int, step: int, v: int)
    requires step > 0
    ensures v in Stepped(start, end, step) <==> v < end && exists k :: StepAt(start, step, v, k)
    decreases end - start
  {
    if start < end {
      var next := start + step;
      SteppedMeans(next, end, step, v);
      if v == start {
        assert StepAt(start, step, v, 0);
      }
      if k :| StepAt(next, step, v, k) {
        assert v == start + (k + 1) * step;
        assert StepAt(start, step, v, k + 1);
      }
      if k :| StepAt(start, step, v, k) {
        if k > 0 {
          assert v == start + step + (k - 1) * step;
          assert StepAt(next, step, v, k - 1);
        }
      }
    } else if k :| StepAt(start, step, v, k) {
      assert k * step >= 0;
    }
  }

  function FieldValue(token: Token, lo: int, hi: int): Option<int> {
    if token.Number? && lo <= token.value <= hi then Some(token.value) else None
  }

  /** The step and whether one was written. */
  function StepOf(step: Option<Token>): Option<int> {
    match step
    case None => Some(1)
    case Some(Number(n)) => if n > 0 then Some(n) else None
    case Some(Bad) => None
  }

  /** The first and last value of an entry, before wrapping. */
  function Ends(body: Body, stepped: bool, lo: int, hi: int): Option<(int, int)> {
    match body
    case Any => Some((lo, hi))
    case Single(token) =>
      var value := FieldValue(token, lo, hi);
      if value.None? then None else Some((value.value, if stepped then hi else value.value))
    case Span(first, second) =>
      var a, b := FieldValue(first, lo, hi), FieldValue(second, lo, hi);
      if a.None? || b.None? then None else Some((a.value, b.value))
  }

  /** Expand from `start` to `end`, through the top of the range and around when they are in that order. */
  function Expand(start: int, end: int, lo: int, hi: int, step: int): set<int>
    requires step > 0
  {
    if start > end then Stepped(start, hi + 1, step) + Stepped(lo, end + 1, step)
    else Stepped(start, end + 1, step)
  }

  function ItemValues(item: Item, lo: int, hi: int): (values: Option<set<int>>)
    requires lo <= hi
    ensures values.Some? ==> values.value != {} && forall v :: v in values.value ==> lo <= v <= hi
  {
    if item.Empty? then None
    else
      var step := StepOf(item.step);
      var ends := Ends(item.body, item.step.Some?, lo, hi);
      if step.None? || ends.None? then None
      else
        var values := Expand(ends.value.0, ends.value.1, lo, hi, step.value);
        assert ends.value.0 in values;
        Some(values)
  }

  predicate InBounds(token: Token, lo: int, hi: int) { token.Number? && lo <= token.value <= hi }

  /** An entry parses exactly when it is not empty, its numbers are numbers within bounds, and its step, if it
      has one, is a number above 0. */
  lemma EntryParsesIff(item: Item, lo: int, hi: int)
    requires lo <= hi
    ensures ItemValues(item, lo, hi).Some? <==>
      && item.Item?
      && (item.step.Some? ==> item.step.value.Number? && item.step.value.value > 0)
      && (match item.body
          case Any => true
          case Single(token) => InBounds(token, lo, hi)
          case Span(first, second) => InBounds(first, lo, hi) && InBounds(second, lo, hi))
  {
  }

  /** Without a step `*` denotes all values and a number itself. */
  lemma PlainEntryMeans(a: int, lo: int, hi: int, v: int)
    requires lo <= a <= hi
    ensures var all := ItemValues(Item(Any, None), lo, hi); all.Some? && (v in all.value <==> lo <= v <= hi)
    ensures var one := ItemValues(Item(Single(Number(a)), None), lo, hi); one.Some? && (v in one.value <==> v == a)
  {
    StepOneIsBetween(lo, hi + 1);
    StepOneIsBetween(a, a + 1);
  }

  /** With a step `*` denotes every step-th value from the bottom to the top, and a number every step-th value
      from itself to the top. */
  lemma SteppedEntryMeans(a: int, step: int, lo: int, hi: int, v: int)
    requires lo <= a <= hi && step > 0
    ensures var all := ItemValues(Item(Any, Some(Number(step))), lo, hi);
            all.Some? && (v in all.value <==> v <= hi && exists k :: StepAt(lo, step, v, k))
    ensures var some := ItemValues(Item(Single(Number(a)), Some(Number(step))), lo, hi);
            some.Some? && (v in some.value <==> v <= hi && exists k :: StepAt(a, step, v, k))
  {
    SteppedMeans(lo, hi + 1, step, v);
    SteppedMeans(a, hi + 1, step, v);
  }

  /** Over minutes every fifteenth is 0, 15, 30 and 45, and `5/15` is 5, 20, 35 and 50. */
  lemma Quarters()
    ensures ItemValues(Item(Any, Some(Number(15))), 0, 59) == Some({0, 15, 30, 45})
    ensures ItemValues(Item(Single(Number(5)), Some(Number(15))), 0, 59) == Some({5, 20, 35, 50})
  {
    assert Stepped(0, 60, 15) == {0, 15, 30, 45} by { assert Stepped(45, 60, 15) == {45}; }
    assert Stepped(5, 60, 15) == {5, 20, 35, 50} by { assert Stepped(50, 60, 15) == {50}; }
  }

  // ---- one field -----------------------------------------------------------------------------

  predicate Parses(spec: Spec, lo: int, hi: int)
    requires lo <= hi
  {
    spec == Star || (spec.items != [] && forall i :: 0 <= i < |spec.items| ==> ItemValues(spec.items[i], lo, hi).Some?)
  }

  /** `v` is among the values of the field: `*` has them all, a list the union of its entries. */
  ghost predicate Denotes(spec: Spec, lo: int, hi: int, v: int)
    requires lo <= hi && Parses(spec, lo, hi)
  {
    if spec == Star then lo <= v <= hi
    else exists i :: 0 <= i < |spec.items| && v in ItemValues(spec.items[i], lo, hi).value
  }

  /** `values` is what the field denotes: neither empty nor out of bounds. */
  ghost predicate FieldOf(spec: Spec, lo: int, hi: int, values: set<int>)
    requires lo <= hi
  {
    && Parses(spec, lo, hi) && values != {}
    && (forall v :: v in values ==> lo <= v <= hi)
    && (forall v :: v in values <==> Denotes(spec, lo, hi, v))
  }

  /** Expand one plain field: `*`, or a list of values, ranges and steps. */
  method ParseField(spec: Spec, lo: int, hi: int) returns (field: Option<set<int>>)
    requires lo <= hi
    ensures field.Some? <==> Parses(spec, lo, hi)
    ensures field.Some? ==> FieldOf(spec, lo, hi, field.value)
  {
    hide ItemValues, Between;
    if spec == Star {
      assert lo in Between(lo, hi);
      return Some(Between(lo, hi));
    }
    var values := {};
    for i := 0 to |spec.items|
      invariant forall j :: 0 <= j < i ==> ItemValues(spec.items[j], lo, hi).Some?
      invariant forall v :: v in values <==> exists j :: 0 <= j < i && v in ItemValues(spec.items[j], lo, hi).value
      invariant values != {} <==> i > 0
    {
      var expanded := ItemValues(spec.items[i], lo, hi);
      if expanded.None? {
        return None;
      }
      values := values + expanded.value;
    }
    if values == {} {
      return None;
    }
    assert spec.items != [];
    return Some(values);
  }

  /** `*` alone is every value of its field. */
  lemma StarMeans(lo: int, hi: int, values: set<int>, v: int)
    requires lo <= hi && FieldOf(Star, lo, hi, values)
    ensures v in values <==> lo <= v <= hi
  {
  }

  /** A list is the union of its entries. */
  lemma ListMeans(items: seq<Item>, lo: int, hi: int, values: set<int>, v: int)
    requires lo <= hi && FieldOf(List(items), lo, hi, values)
    ensures v in values <==>
      exists item :: item in items && ItemValues(item, lo, hi).Some? && v in ItemValues(item, lo, hi).value
  {
    hide ItemValues;
    assert v in values <==> Denotes(List(items), lo, hi, v);
    if item :| item in items && ItemValues(item, lo, hi).Some? && v in ItemValues(item, lo, hi).value {
      var i :| 0 <= i < |items| && items[i] == item;
    }
  }

  // ---- ranges walk up and around -------------------------------------------------------------

  /** The values met walking up from `a` to `b` in steps of one, from the top of the range back to its
      bottom. */
  function WalkUp(a: int, b: int, lo: int, hi: int): set<int>
    requires lo <= a <= hi && lo <= b <= hi
    decreases if a <= b then b - a else hi + 1 - a + (b - lo)
  {
    {a} + (if a == b then {} else WalkUp(if a == hi then lo else a + 1, b, lo, hi))
  }

  lemma {:induction false} StraightWalk(a: int, b: int, lo: int, hi: int)
    requires lo <= a <= b <= hi
    ensures WalkUp(a, b, lo, hi) == Between(a, b)
    decreases b - a
  {
    if a == b {
    } else {
      StraightWalk(a + 1, b, lo, hi);
    }
  }

  lemma {:induction false} WrappingWalk(a: int, b: int, lo: int, hi: int)
    requires lo <= b < a <= hi
    ensures WalkUp(a, b, lo, hi) == Between(a, hi) + Between(lo, b)
    decreases hi - a
  {
    if a < hi { WrappingWalk(a + 1, b, lo, hi); } else { StraightWalk(lo, b, lo, hi); }
  }

  lemma {:induction false} StepOneIsBetween(start: int, end: int)
    ensures Stepped(start, end, 1) == Between(start, end - 1)
    decreases end - start
  {
    if start >= end {
    } else {
      StepOneIsBetween(start + 1, end);
    }
  }

  /** A range `a-b` written without a step denotes exactly the values met walking up from `a` and round
      to `b`. */
  lemma SpanWalksUp(a: int, b: int, lo: int, hi: int)
    requires lo <= a <= hi && lo <= b <= hi
    ensures ItemValues(Item(Span(Number(a), Number(b)), None), lo, hi) == Some(WalkUp(a, b, lo, hi))
  {
    StepOneIsBetween(a, hi + 1);
    StepOneIsBetween(lo, b + 1);
    StepOneIsBetween(a, b + 1);
    if a <= b { StraightWalk(a, b, lo, hi); } else { WrappingWalk(a, b, lo, hi); }
  }

  // ---- ranges with a step --------------------------------------------------------------------

  /** How many values lie after `start` on the way up and round to `end`. */
  function WayRound(start: int, end: int, lo: int, hi: int): int {
    if start <= end then end - start else (hi + 1 - start) + (end - lo)
  }

  /** `v` is reached from `start` by `k` strides of `step`, going on from the bottom after the top. */
  ghost predicate Reached(start: int, lo: int, hi: int, step: int, v: int, k: int) {
    var at := start + k * step;
    k >= 0 && v == if at <= hi then at else at - (hi + 1 - lo)
  }

  /** `v` is met walking up from `start` and round to `end` in strides of `step`. */
  ghost predicate Met(start: int, end: int, lo: int, hi: int, step: int, v: int) {
    exists k :: Reached(start, lo, hi, step, v, k) && k * step <= WayRound(start, end, lo, hi)
  }

  lemma ExpandMeans(start: int, end: int, lo: int, hi: int, step: int, v: int)
    requires step > 0
    ensures v in Expand(start, end, lo, hi, step) <==>
      if start > end
      then (v <= hi && exists k :: StepAt(start, step, v, k)) || (v <= end && exists k :: StepAt(lo, step, v, k))
      else v <= end && exists k :: StepAt(start, step, v, k)
  {
    SteppedMeans(start, hi + 1, step, v);
    SteppedMeans(lo, end + 1, step, v);
    SteppedMeans(start, end + 1, step, v);
  }

  lemma StraightStrides(start: int, end: int, lo: int, hi: int, step: int, v: int)
    requires lo <= start <= end <= hi && step > 0
    ensures v in Expand(start, end, lo, hi, step) <==> Met(start, end, lo, hi, step, v)
  {
    ExpandMeans(start, end, lo, hi, step, v);
    if v in Expand(start, end, lo, hi, step) {
      var k :| StepAt(start, step, v, k);
      assert Reached(start, lo, hi, step, v, k);
    }
    if k :| Reached(start, lo, hi, step, v, k) && k * step <= WayRound(start, end, lo, hi) {
      assert StepAt(start, step, v, k);
    }
  }

  lemma WrappingStrides(start: int, end: int, lo: int, hi: int, step: int, q: int, v: int)
    requires lo <= end < start <= hi && step > 0 && hi + 1 - start == q * step
    ensures v in Expand(start, end, lo, hi, step) <==> Met(start, end, lo, hi, step, v)
  {
    ExpandMeans(start, end, lo, hi, step, v);
    if v <= hi && exists k :: StepAt(start, step, v, k) {
      var k :| StepAt(start, step, v, k);
      assert Reached(start, lo, hi, step, v, k);
    }
    if v <= end && exists k :: StepAt(lo, step, v, k) {
      var k :| StepAt(lo, step, v, k);
      Strides(q, k, step);
      assert Reached(start, lo, hi, step, v, q + k);
    }
    if k :| Reached(start, lo, hi, step, v, k) && k * step <= WayRound(start, end, lo, hi) {
      if start + k * step <= hi {
        assert StepAt(start, step, v, k);
      } else {
        Strides(q, k - q, step);
        assert StepAt(lo, step, v, k - q);
      }
    }
  }

  lemma Strides(a: int, b: int, step: int)
    requires step > 0
    ensures (a + b) * step == a * step + b * step
    ensures b * step >= 0 <==> b >= 0
  {
  }

  /** A range with a step denotes the values met walking up from its first value and round to its second in
      strides of the step, unless it wraps and a stride does not end exactly on the bottom of the range: the
      count restarts there. */
  lemma SteppedWalkIff(start: int, end: int, lo: int, hi: int, step: int)
    requires lo <= start <= hi && lo <= end <= hi && step > 0
    ensures ItemValues(Item(Span(Number(start), Number(end)), Some(Number(step))), lo, hi)
            == Some(Expand(start, end, lo, hi, step))
    ensures (forall v :: v in Expand(start, end, lo, hi, step) <==> Met(start, end, lo, hi, step, v)) <==>
      start <= end || (hi + 1 - start) % step == 0
  {
    hide Expand, Met;
    if start <= end {
      forall v ensures v in Expand(start, end, lo, hi, step) <==> Met(start, end, lo, hi, step, v) {
        StraightStrides(start, end, lo, hi, step, v);
      }
    } else if (hi + 1 - start) % step == 0 {
      forall v ensures v in Expand(start, end, lo, hi, step) <==> Met(start, end, lo, hi, step, v) {
        WrappingStrides(start, end, lo, hi, step, (hi + 1 - start) / step, v);
      }
    } else {
      BottomIsNotMet(start, end, lo, hi, step);
    }
  }

  lemma BottomIsNotMet(start: int, end: int, lo: int, hi: int, step: int)
    requires lo <= end < start <= hi && step > 0 && (hi + 1 - start) % step != 0
    ensures lo in Expand(start, end, lo, hi, step) && !Met(start, end, lo, hi, step, lo)
  {
    ExpandMeans(start, end, lo, hi, step, lo);
    assert StepAt(lo, step, lo, 0);
    if k :| Reached(start, lo, hi, step, lo, k) && k * step <= WayRound(start, end, lo, hi) {
      assert k * step == hi + 1 - start;
      MultipleHasNoRemainder(k, step);
    }
  }

  lemma MultipleHasNoRemainder(k: int, step: int)
    requires step > 0
    ensures (k * step) % step == 0
  {
    var r, q := (k * step) % step, (k * step) / step;
    assert (k - q) * step == k * step - q * step == r;
    if k - q >= 1 {
      Strides(1, k - q - 1, step);
    } else if k - q <= -1 {
      Strides(-1, k - q + 1, step);
    }
  }

  /** `22-4/3` over hours is 22, 0 and 3; strides of three from 22 would meet 22, 1 and 4. */
  lemma HoursRestartAtMidnight()
    ensures ItemValues(Item(Span(Number(22), Number(4)), Some(Number(3))), 0, 23) == Some({22, 0, 3})
    ensures Met(22, 4, 0, 23, 3, 1) && Met(22, 4, 0, 23, 3, 4) && !Met(22, 4, 0, 23, 3, 0)
  {
    assert Stepped(22, 24, 3) == {22} && Stepped(0, 5, 3) == {0, 3};
    assert Expand(22, 4, 0, 23, 3) == {22, 0, 3};
    assert Reached(22, 0, 23, 3, 1, 1) && Reached(22, 0, 23, 3, 4, 2);
    BottomIsNotMet(22, 4, 0, 23, 3);
  }

  // ---- weekdays ------------------------------------------------------------------------------

  /** Fold 7, the other name of Sunday, onto 0. */
  function Normalised(values: set<int>): set<int> {
    set v | v in values :: v % 7
  }

  lemma NormalisedMeans(values: set<int>, v: int)
    requires forall x :: x in values ==> 0 <= x <= 7
    ensures v in Normalised(values) <==> (v in values && v < 7) || (v == 0 && 7 in values)
  {
    if v in values { assert v < 7 ==> v % 7 == v; }
    assert 7 % 7 == 0;
  }

  /** Whether `v` is met walking up from `a` and round to `b`. */
  lemma WalkMeans(a: int, b: int, lo: int, hi: int, v: int)
    requires lo <= a <= hi && lo <= b <= hi
    ensures v in WalkUp(a, b, lo, hi) <==> if a <= b then a <= v <= b else a <= v <= hi || lo <= v <= b
  {
    if a <= b { StraightWalk(a, b, lo, hi); } else { WrappingWalk(a, b, lo, hi); }
  }

  lemma WeekdayWalk(a: int, b: int)
    requires 0 <= a <= 7 && 0 <= b <= 7 && a % 7 != b % 7
    ensures Normalised(WalkUp(a, b, 0, 7)) == WalkUp(a % 7, b % 7, 0, 6)
  {
    hide WalkUp, Normalised;
    var walked, wanted := WalkUp(a, b, 0, 7), WalkUp(a % 7, b % 7, 0, 6);
    forall v ensures v in walked <==> if a <= b then a <= v <= b else a <= v <= 7 || 0 <= v <= b {
      WalkMeans(a, b, 0, 7, v);
    }
    forall v ensures v in Normalised(walked) <==> v in wanted {
      NormalisedMeans(walked, v);
      WalkMeans(a % 7, b % 7, 0, 6, v);
    }
  }

  lemma SameWeekdayWalk(a: int, b: int)
    requires 0 <= b <= a <= 7 && a % 7 == b % 7
    ensures Normalised(WalkUp(a, b, 0, 7)) == WalkUp(a % 7, b % 7, 0, 6)
  {
    hide WalkUp, Normalised;
    var walked, wanted := WalkUp(a, b, 0, 7), WalkUp(a % 7, b % 7, 0, 6);
    assert a == b || (a == 7 && b == 0);
    forall v ensures v in walked <==> v == a || v == b {
      WalkMeans(a, b, 0, 7, v);
    }
    forall v ensures v in Normalised(walked) <==> v in wanted {
      NormalisedMeans(walked, v);
      WalkMeans(a % 7, b % 7, 0, 6, v);
    }
  }

  /** With 7 read as 0, a weekday range denotes the days met walking up from `a` and round to `b` unless it
      is `0-7`, which denotes the whole week instead of Sunday. */
  lemma WeekdaySpanWalksUpIff(a: int, b: int)
    requires 0 <= a <= 7 && 0 <= b <= 7
    ensures var values := ItemValues(Item(Span(Number(a), Number(b)), None), 0, 7);
            values.Some? && (Normalised(values.value) == WalkUp(a % 7, b % 7, 0, 6) <==> !(a == 0 && b == 7))
  {
    hide WalkUp, Normalised, ItemValues;
    SpanWalksUp(a, b, 0, 7);
    if a % 7 != b % 7 {
      WeekdayWalk(a, b);
    } else if b <= a {
      SameWeekdayWalk(a, b);
    } else {
      WalkMeans(0, 7, 0, 7, 1);
      WalkMeans(0, 0, 0, 6, 1);
      HasItsWeekdays(WalkUp(0, 7, 0, 7), 1);
    }
  }

  /** Below the second name of Sunday, folding 7 onto 0 gives the range over seven days. */
  lemma FoldedRange(a: int, b: int, step: int, v: int)
    requires 0 <= a <= 7 && 0 <= b < 7 && step > 0
    ensures v in Normalised(Expand(a, b, 0, 7, step)) <==> v in Expand(a % 7, b, 0, 6, step)
  {
    hide Expand, Normalised;
    ExpandBounds(a, b, 0, 7, step);
    NormalisedMeans(Expand(a, b, 0, 7, step), v);
    ExpandMeans(a, b, 0, 7, step, v);
    ExpandMeans(a, b, 0, 7, step, 7);
    ExpandMeans(a % 7, b, 0, 6, step, v);
    assert StepAt(0, step, 0, 0);
    if k :| StepAt(a, step, 7, k) && a == 7 {
      AtLeastTheStart(a, step, v);
    }
    AtLeastTheStart(a, step, v);
  }

  lemma ExpandBounds(a: int, b: int, lo: int, hi: int, step: int)
    requires lo <= a <= hi && lo <= b <= hi && step > 0
    ensures forall v :: v in Expand(a, b, lo, hi, step) ==> lo <= v <= hi
  {
  }

  lemma AtLeastTheStart(start: int, step: int, v: int)
    requires step > 0
    ensures (exists k :: StepAt(start, step, v, k)) ==> start <= v
    ensures start == v ==> StepAt(start, step, v, 0)
  {
    if k :| StepAt(start, step, v, k) {
      Strides(k, 0, step);
    }
  }

  /** A range up to the second name of Sunday, walked round to Sunday. */
  lemma FoldedTail(a: int, step: int, v: int)
    requires 0 < a < 7 && step > 0
    ensures v in Normalised(Expand(a, 7, 0, 7, step)) <==> Met(a, 0, 0, 6, step, v)
  {
    hide Expand, Normalised;
    ExpandBounds(a, 7, 0, 7, step);
    NormalisedMeans(Expand(a, 7, 0, 7, step), v);
    ExpandMeans(a, 7, 0, 7, step, v);
    ExpandMeans(a, 7, 0, 7, step, 7);
    AtLeastTheStart(a, step, v);
    if k :| StepAt(a, step, v, k) && v < 7 {
      assert Reached(a, 0, 6, step, v, k);
    }
    if k :| StepAt(a, step, 7, k) {
      assert Reached(a, 0, 6, step, 0, k);
    }
    if k :| Reached(a, 0, 6, step, v, k) && k * step <= WayRound(a, 0, 0, 6) {
      assert StepAt(a, step, a + k * step, k);
    }
  }

  /** All of a week's worth of steps from Sunday to Sunday. */
  lemma FoldedWeek(a: int, step: int)
    requires (a == 0 || a == 7) && step > 0
    ensures (forall v :: v in Normalised(Expand(a, 7, 0, 7, step)) <==> Met(0, 0, 0, 6, step, v)) <==>
      !(a == 0 && step < 7)
  {
    hide Expand, Normalised, Met;
    forall v ensures Met(0, 0, 0, 6, step, v) <==> v == 0 {
      OnlyTheStart(step, v);
    }
    forall v
      ensures v in Normalised(Expand(a, 7, 0, 7, step)) <==>
        v == 0 || (a == 0 && 0 < v < 7 && v in Expand(0, 7, 0, 7, step))
    {
      ExpandBounds(a, 7, 0, 7, step);
      NormalisedMeans(Expand(a, 7, 0, 7, step), v);
      ExpandMeans(a, 7, 0, 7, step, v);
      ExpandMeans(a, 7, 0, 7, step, 7);
      AtLeastTheStart(a, step, v);
      assert StepAt(a, step, a, 0);
    }
    if a == 0 && step < 7 {
      ExpandMeans(0, 7, 0, 7, step, step);
      assert StepAt(0, step, step, 1);
    } else if a == 0 {
      forall v | 0 < v < 7 ensures v !in Expand(0, 7, 0, 7, step) {
        ExpandMeans(0, 7, 0, 7, step, v);
        NothingBelowOneStep(step, v);
      }
    }
  }

  lemma OnlyTheStart(step: int, v: int)
    requires step > 0
    ensures Met(0, 0, 0, 6, step, v) <==> v == 0
  {
    assert Reached(0, 0, 6, step, 0, 0);
    if k :| Reached(0, 0, 6, step, v, k) && k * step <= WayRound(0, 0, 0, 6) {
      Strides(1, k - 1, step);
    }
  }

  lemma NothingBelowOneStep(step: int, v: int)
    requires 0 < v < step
    ensures !exists k :: StepAt(0, step, v, k)
  {
    if k :| StepAt(0, step, v, k) {
      Strides(1, k - 1, step);
    }
  }

  /** With 7 read as 0, a weekday range with a step denotes the days met walking up from `a` and round to `b`
      in strides of the step if and only if it does not wrap, and is not `0-7` with a step below 7, or wraps
      and a stride ends exactly on Sunday. */
  lemma SteppedWeekdayWalkIff(a: int, b: int, step: int)
    requires 0 <= a <= 7 && 0 <= b <= 7 && step > 0
    ensures ItemValues(Item(Span(Number(a), Number(b)), Some(Number(step))), 0, 7) == Some(Expand(a, b, 0, 7, step))
    ensures (forall v :: v in Normalised(Expand(a, b, 0, 7, step)) <==> Met(a % 7, b % 7, 0, 6, step, v)) <==>
      if a <= b then !(a == 0 && b == 7 && step < 7) else (7 - a) % step == 0
  {
    hide Expand, Normalised, Met;
    if b < 7 {
      forall v ensures v in Normalised(Expand(a, b, 0, 7, step)) <==> v in Expand(a % 7, b, 0, 6, step) {
        FoldedRange(a, b, step, v);
      }
      SteppedWalkIff(a % 7, b, 0, 6, step);
    } else if a == 0 || a == 7 {
      FoldedWeek(a, step);
    } else {
      forall v ensures v in Normalised(Expand(a, 7, 0, 7, step)) <==> Met(a, 0, 0, 6, step, v) {
        FoldedTail(a, step, v);
      }
    }
  }

  /** `SAT-TUE/2` denotes Saturday, Sunday and Tuesday; strides of two from Saturday would meet Saturday and
      Monday. */
  lemma SaturdayToTuesdayByTwo()
    ensures Normalised(Expand(6, 2, 0, 7, 2)) == {6, 0, 2}
    ensures Met(6, 2, 0, 6, 2, 6) && Met(6, 2, 0, 6, 2, 1) && !Met(6, 2, 0, 6, 2, 0)
  {
    assert Stepped(6, 8, 2) == {6} && Stepped(0, 3, 2) == {0, 2};
    assert Expand(6, 2, 0, 7, 2) == {6, 0, 2};
    assert Reached(6, 0, 6, 2, 6, 0) && Reached(6, 0, 6, 2, 1, 1);
    BottomIsNotMet(6, 2, 0, 6, 2);
  }

  lemma HasItsWeekdays(values: set<int>, v: int)
    requires v in values && 0 <= v < 7
    ensures v in Normalised(values)
  {
    assert v % 7 == v;
  }

  /** `0-7` denotes all seven days. */
  lemma SundayToSundayIsTheWholeWeek()
    ensures var values := ItemValues(Item(Span(Number(0), Number(7)), None), 0, 7);
            values.Some? && Normalised(values.value) == Between(0, 6)
  {
    hide WalkUp, Between;
    SpanWalksUp(0, 7, 0, 7);
    StraightWalk(0, 7, 0, 7);
    forall v ensures v in Normalised(Between(0, 7)) <==> v in Between(0, 6) {
      if v in Between(0, 6) { assert v % 7 == v && v in Between(0, 7); }
    }
  }

  // ---- the day fields ------------------------------------------------------------------------

  /** One entry of the day-of-week field. */
  datatype DowItem = DowPlain(item: Item) | Nth(dow: Token, nth: Token) | LastOf(dow: Token)

  /** One entry of the day-of-month field. */
  datatype DomItem = DomPlain(item: Item) | LastDay | LastDayMinus(n: Token) | Nearest(n: Token)

  datatype DowField = DowField(values: set<int>, lastDow: Option<int>, nthDow: Option<(int, int)>)

  datatype DomField = DomField(values: set<int>, last: bool, lastOffset: Option<int>, nearest: Option<int>)

  predicate DowItemParses(item: DowItem) {
    match item
    case DowPlain(plain) => ItemValues(plain, 0, 7).Some?
    case Nth(dow, nth) => FieldValue(dow, 0, 7).Some? && nth.Number? && 1 <= nth.value <= 5
    case LastOf(dow) => FieldValue(dow, 0, 7).Some?
  }

  predicate DomItemParses(item: DomItem) {
    match item
    case DomPlain(plain) => ItemValues(plain, 1, 31).Some?
    case LastDay => true
    case LastDayMinus(n) => n.Number?
    case Nearest(n) => n.Number?
  }

  /** A weekday entry parses exactly when its weekday is a number from 0 to 7 and, for `n#k`, its k one from 1
      to 5; plain entries as in any field. */
  lemma DowEntryParsesIff(item: DowItem)
    ensures DowItemParses(item) <==>
      match item
      case DowPlain(plain) => ItemValues(plain, 0, 7).Some?
      case Nth(dow, nth) => InBounds(dow, 0, 7) && InBounds(nth, 1, 5)
      case LastOf(dow) => InBounds(dow, 0, 7)
  {
  }

  /** A day-of-month entry with a number parses whatever the number is. */
  lemma DomEntryParsesIff(item: DomItem)
    ensures DomItemParses(item) <==>
      match item
      case DomPlain(plain) => ItemValues(plain, 1, 31).Some?
      case LastDay => true
      case LastDayMinus(n) => exists v :: n == Number(v)
      case Nearest(n) => exists v :: n == Number(v)
  {
  }

  /** Entry `i` is the last `n#k` among the first `n`. */
  ghost predicate LastNth(items: seq<DowItem>, i: int, n: int) {
    0 <= i < n <= |items| && items[i].Nth? && forall j :: i < j < n ==> !items[j].Nth?
  }

  /** Entry `i` is the last `nL` among the first `n`. */
  ghost predicate LastLastOf(items: seq<DowItem>, i: int, n: int) {
    0 <= i < n <= |items| && items[i].LastOf? && forall j :: i < j < n ==> !items[j].LastOf?
  }

  ghost predicate NthRecorded(items: seq<DowItem>, n: int, nthDow: Option<(int, int)>)
    requires 0 <= n <= |items|
  {
    match nthDow
    case None => forall j :: 0 <= j < n ==> !items[j].Nth?
    case Some(p) => exists i :: LastNth(items, i, n) && DowItemParses(items[i])
                                && p == (items[i].dow.value % 7, items[i].nth.value)
  }

  ghost predicate LastOfRecorded(items: seq<DowItem>, n: int, lastDow: Option<int>)
    requires 0 <= n <= |items|
  {
    match lastDow
    case None => forall j :: 0 <= j < n ==> !items[j].LastOf?
    case Some(dow) => exists i :: LastLastOf(items, i, n) && DowItemParses(items[i]) && dow == items[i].dow.value % 7
  }

  /** An entry of another kind leaves what is recorded alone. */
  lemma NthStays(items: seq<DowItem>, i: nat, nthDow: Option<(int, int)>)
    requires i < |items| && !items[i].Nth? && NthRecorded(items, i, nthDow)
    ensures NthRecorded(items, i + 1, nthDow)
  {
    if nthDow.Some? {
      var k :| LastNth(items, k, i) && DowItemParses(items[k])
               && nthDow.value == (items[k].dow.value % 7, items[k].nth.value);
      assert LastNth(items, k, i + 1);
    }
  }

  lemma LastOfStays(items: seq<DowItem>, i: nat, lastDow: Option<int>)
    requires i < |items| && !items[i].LastOf? && LastOfRecorded(items, i, lastDow)
    ensures LastOfRecorded(items, i + 1, lastDow)
  {
    if lastDow.Some? {
      var k :| LastLastOf(items, k, i) && DowItemParses(items[k]) && lastDow.value == items[k].dow.value % 7;
      assert LastLastOf(items, k, i + 1);
    }
  }

  /** Entry `i` is a plain one denoting the weekday `v`, with 7 read as 0. */
  ghost predicate DowDenotes(items: seq<DowItem>, i: int, v: int) {
    0 <= i < |items| && items[i].DowPlain? && ItemValues(items[i].item, 0, 7).Some?
    && v in Normalised(ItemValues(items[i].item, 0, 7).value)
  }

  /** The plain entries among the first `n` are those collected. */
  ghost predicate DowCollected(items: seq<DowItem>, n: int, plain: seq<Item>)
    requires 0 <= n <= |items|
  {
    && (forall k :: 0 <= k < |plain| ==> DowPlain(plain[k]) in items[..n])
    && (forall j :: 0 <= j < n && items[j].DowPlain? ==> items[j].item in plain)
  }

  lemma CollectedDenote(items: seq<DowItem>, plain: seq<Item>, raw: set<int>)
    requires DowCollected(items, |items|, plain) && FieldOf(List(plain), 0, 7, raw)
    ensures forall v :: v in Normalised(raw) <==> exists i :: DowDenotes(items, i, v)
    ensures forall i :: 0 <= i < |items| && items[i].DowPlain? ==> DowItemParses(items[i])
  {
    forall v ensures v in Normalised(raw) <==> exists i :: DowDenotes(items, i, v) {
      if v in Normalised(raw) {
        var x :| x in raw && x % 7 == v;
        assert Denotes(List(plain), 0, 7, x);
        var k :| 0 <= k < |plain| && x in ItemValues(plain[k], 0, 7).value;
        assert DowPlain(plain[k]) in items[..|items|];
        var i :| 0 <= i < |items| && items[i] == DowPlain(plain[k]);
        assert DowDenotes(items, i, v);
      }
      if i :| DowDenotes(items, i, v) {
        var k :| 0 <= k < |plain| && plain[k] == items[i].item;
        var x :| x in ItemValues(plain[k], 0, 7).value && x % 7 == v;
        assert Denotes(List(plain), 0, 7, x);
      }
    }
    forall i | 0 <= i < |items| && items[i].DowPlain? ensures DowItemParses(items[i]) {
      var k :| 0 <= k < |plain| && plain[k] == items[i].item;
    }
  }

  /** Parse a day-of-week list. It succeeds exactly when every entry parses; then the values are the union
      of its plain entries, with 7 read as 0, and of the positional forms the last of each kind counts. */
  method ParseDowList(items: seq<DowItem>) returns (field: Option<DowField>)
    ensures field.Some? <==> forall i :: 0 <= i < |items| ==> DowItemParses(items[i])
    ensures field.Some? ==>
              && (forall v :: v in field.value.values <==> exists i :: DowDenotes(items, i, v))
              && NthRecorded(items, |items|, field.value.nthDow)
              && LastOfRecorded(items, |items|, field.value.lastDow)
  {
    hide Normalised, ItemValues;
    var lastDow, nthDow := None, None;
    var plain: seq<Item> := [];
    for i := 0 to |items|
      invariant forall j :: 0 <= j < i && !items[j].DowPlain? ==> DowItemParses(items[j])
      invariant DowCollected(items, i, plain)
      invariant NthRecorded(items, i, nthDow)
      invariant LastOfRecorded(items, i, lastDow)
    {
      assert items[..i + 1] == items[..i] + [items[i]];
      match items[i]
      case Nth(day, nth) =>
        var dow := FieldValue(day, 0, 7);
        if dow.None? || nth == Bad || !(1 <= nth.value <= 5) {
          return None;
        }
        nthDow := Some((dow.value % 7, nth.value));
        assert LastNth(items, i, i + 1);
        LastOfStays(items, i, lastDow);
      case LastOf(day) =>
        var dow := FieldValue(day, 0, 7);
        if dow.None? {
          return None;
        }
        lastDow := Some(dow.value % 7);
        assert LastLastOf(items, i, i + 1);
        NthStays(items, i, nthDow);
      case DowPlain(item) =>
        plain := plain + [item];
        LastOfStays(items, i, lastDow);
        NthStays(items, i, nthDow);
    }
    if plain == [] {
      return Some(DowField({}, lastDow, nthDow));
    }
    var raw := ParseField(List(plain), 0, 7);
    if raw.None? {
      var k :| 0 <= k < |plain| && ItemValues(plain[k], 0, 7).None?;
      assert DowPlain(plain[k]) in items[..|items|];
      return None;
    }
    CollectedDenote(items, plain, raw.value);
    return Some(DowField(Normalised(raw.value), lastDow, nthDow));
  }

  /** Entry `i` is the last `L-n` among the first `n`. */
  ghost predicate LastMinus(items: seq<DomItem>, i: int, n: int) {
    0 <= i < n <= |items| && items[i].LastDayMinus? && forall j :: i < j < n ==> !items[j].LastDayMinus?
  }

  /** Entry `i` is the last `nW` among the first `n`. */
  ghost predicate LastNearest(items: seq<DomItem>, i: int, n: int) {
    0 <= i < n <= |items| && items[i].Nearest? && forall j :: i < j < n ==> !items[j].Nearest?
  }

  ghost predicate MinusRecorded(items: seq<DomItem>, n: int, offset: Option<int>)
    requires 0 <= n <= |items|
  {
    match offset
    case None => forall j :: 0 <= j < n ==> !items[j].LastDayMinus?
    case Some(v) => exists i :: LastMinus(items, i, n) && items[i] == LastDayMinus(Number(v))
  }

  ghost predicate NearestRecorded(items: seq<DomItem>, n: int, nearest: Option<int>)
    requires 0 <= n <= |items|
  {
    match nearest
    case None => forall j :: 0 <= j < n ==> !items[j].Nearest?
    case Some(v) => exists i :: LastNearest(items, i, n) && items[i] == Nearest(Number(v))
  }

  lemma MinusStays(items: seq<DomItem>, i: nat, offset: Option<int>)
    requires i < |items| && !items[i].LastDayMinus? && MinusRecorded(items, i, offset)
    ensures MinusRecorded(items, i + 1, offset)
  {
    if offset.Some? {
      var k :| LastMinus(items, k, i) && items[k] == LastDayMinus(Number(offset.value));
      assert LastMinus(items, k, i + 1);
    }
  }

  lemma NearestStays(items: seq<DomItem>, i: nat, nearest: Option<int>)
    requires i < |items| && !items[i].Nearest? && NearestRecorded(items, i, nearest)
    ensures NearestRecorded(items, i + 1, nearest)
  {
    if nearest.Some? {
      var k :| LastNearest(items, k, i) && items[k] == Nearest(Number(nearest.value));
      assert LastNearest(items, k, i + 1);
    }
  }

  ghost predicate DomDenotes(items: seq<DomItem>, i: int, v: int) {
    0 <= i < |items| && items[i].DomPlain? && ItemValues(items[i].item, 1, 31).Some?
    && v in ItemValues(items[i].item, 1, 31).value
  }

  ghost predicate DomCollected(items: seq<DomItem>, n: int, plain: seq<Item>)
    requires 0 <= n <= |items|
  {
    && (forall k :: 0 <= k < |plain| ==> DomPlain(plain[k]) in items[..n])
    && (forall j :: 0 <= j < n && items[j].DomPlain? ==> items[j].item in plain)
  }

  lemma CollectedDaysDenote(items: seq<DomItem>, plain: seq<Item>, raw: set<int>)
    requires DomCollected(items, |items|, plain) && FieldOf(List(plain), 1, 31, raw)
    ensures forall v :: v in raw <==> exists i :: DomDenotes(items, i, v)
    ensures forall i :: 0 <= i < |items| && items[i].DomPlain? ==> DomItemParses(items[i])
  {
    forall v ensures v in raw <==> exists i :: DomDenotes(items, i, v) {
      if v in raw {
        assert Denotes(List(plain), 1, 31, v);
        var k :| 0 <= k < |plain| && v in ItemValues(plain[k], 1, 31).value;
        assert DomPlain(plain[k]) in items[..|items|];
        var i :| 0 <= i < |items| && items[i] == DomPlain(plain[k]);
        assert DomDenotes(items, i, v);
      }
      if i :| DomDenotes(items, i, v) {
        var k :| 0 <= k < |plain| && plain[k] == items[i].item;
        assert Denotes(List(plain), 1, 31, v);
      }
    }
    forall i | 0 <= i < |items| && items[i].DomPlain? ensures DomItemParses(items[i]) {
      var k :| 0 <= k < |plain| && plain[k] == items[i].item;
    }
  }

  /** Parse a day-of-month list. It succeeds exactly when every entry parses; the numbers of `L-n` and `nW`
      are recorded as written, whatever their range, and the last of each kind counts. */
  method ParseDomList(items: seq<DomItem>) returns (field: Option<DomField>)
    ensures field.Some? <==> forall i :: 0 <= i < |items| ==> DomItemParses(items[i])
    ensures field.Some? ==>
              && (forall v :: v in field.value.values <==> exists i :: DomDenotes(items, i, v))
              && (field.value.last <==> LastDay in items)
              && MinusRecorded(items, |items|, field.value.lastOffset)
              && NearestRecorded(items, |items|, field.value.nearest)
  {
    hide ItemValues;
    var last, lastOffset, nearest := false, None, None;
    var plain: seq<Item> := [];
    for i := 0 to |items|
      invariant forall j :: 0 <= j < i && !items[j].DomPlain? ==> DomItemParses(items[j])
      invariant DomCollected(items, i, plain)
      invariant last <==> LastDay in items[..i]
      invariant MinusRecorded(items, i, lastOffset)
      invariant NearestRecorded(items, i, nearest)
    {
      assert items[..i + 1] == items[..i] + [items[i]];
      match items[i]
      case LastDay =>
        last := true;
        MinusStays(items, i, lastOffset);
        NearestStays(items, i, nearest);
      case LastDayMinus(n) =>
        if n == Bad {
          return None;
        }
        lastOffset := Some(n.value);
        assert LastMinus(items, i, i + 1);
        NearestStays(items, i, nearest);
      case Nearest(n) =>
        if n == Bad {
          return None;
        }
        nearest := Some(n.value);
        assert LastNearest(items, i, i + 1);
        MinusStays(items, i, lastOffset);
      case DomPlain(item) =>
        plain := plain + [item];
        MinusStays(items, i, lastOffset);
        NearestStays(items, i, nearest);
    }
    assert items[..|items|] == items;
    if plain == [] {
      return Some(DomField({}, last, lastOffset, nearest));
    }
    var raw := ParseField(List(plain), 1, 31);
    if raw.None? {
      var k :| 0 <= k < |plain| && ItemValues(plain[k], 1, 31).None?;
      assert DomPlain(plain[k]) in items[..|items|];
      return None;
    }
    CollectedDaysDenote(items, plain, raw.value);
    return Some(DomField(raw.value, last, lastOffset, nearest));
  }

  /** `0W` parses, and then every day that no other form accepts makes the day test raise. */
  lemma ZeroNearestParsesButRaises(e: Fields, n: int)
    requires NearestRecorded([Nearest(Number(0))], 1, e.nearestWeekday)
    requires e.domRestricted && e.daysOfMonth == {} && !e.lastDayOfMonth && e.lastDomOffset == None
    ensures DomItemParses(Nearest(Number(0))) && e.nearestWeekday == Some(0) && DayMatches(e, n) == Raises
  {
    assert [Nearest(Number(0))][0].Nearest?;
    RaisesExactlyWhen(e, n);
  }

  // ---- the whole expression ------------------------------------------------------------------

  datatype DowSpec = DowStar | DowList(dowItems: seq<DowItem>)

  datatype DomSpec = DomStar | DomList(domItems: seq<DomItem>)

  const FIRE_AT_ZERO: Spec := List([Item(Single(Number(0)), None)])

  predicate AllParse(seconds: Spec, minutes: Spec, hours: Spec, dom: DomSpec, months: Spec, dow: DowSpec) {
    && Parses(seconds, 0, 59) && Parses(minutes, 0, 59) && Parses(hours, 0, 23) && Parses(months, 1, 12)
    && (dom.DomList? ==> forall i :: 0 <= i < |dom.domItems| ==> DomItemParses(dom.domItems[i]))
    && (dow.DowList? ==> forall i :: 0 <= i < |dow.dowItems| ==> DowItemParses(dow.dowItems[i]))
  }

  ghost predicate DomRecorded(e: Fields, dom: DomSpec) {
    && (e.domRestricted <==> dom.DomList?)
    && (dom == DomStar ==> e.nearestWeekday == None)
    && (dom.DomList? ==>
          && (forall v :: v in e.daysOfMonth <==> exists i :: DomDenotes(dom.domItems, i, v))
          && (e.lastDayOfMonth <==> LastDay in dom.domItems)
          && MinusRecorded(dom.domItems, |dom.domItems|, e.lastDomOffset)
          && NearestRecorded(dom.domItems, |dom.domItems|, e.nearestWeekday))
  }

  ghost predicate DowRecorded(e: Fields, dow: DowSpec) {
    && (e.dowRestricted <==> dow.DowList?)
    && (dow.DowList? ==>
          && (forall v :: v in e.daysOfWeek <==> exists i :: DowDenotes(dow.dowItems, i, v))
          && NthRecorded(dow.dowItems, |dow.dowItems|, e.nthDow)
          && LastOfRecorded(dow.dowItems, |dow.dowItems|, e.lastDow))
  }

  /** Parse six fields, the first defaulting to second 0. It succeeds exactly when every field does, and
      every field of the result is what its part denotes. */
  method ParseFields(leading: Option<Spec>, minutes: Spec, hours: Spec, dom: DomSpec, months: Spec, dow: DowSpec)
    returns (e: Option<Fields>)
    ensures var seconds := if leading.Some? then leading.value else FIRE_AT_ZERO;
            && (e.Some? <==> AllParse(seconds, minutes, hours, dom, months, dow))
            && (e.Some? ==> FieldOf(seconds, 0, 59, e.value.seconds))
    ensures e.Some? ==>
              && FieldOf(minutes, 0, 59, e.value.minutes)
              && FieldOf(hours, 0, 23, e.value.hours)
              && FieldOf(months, 1, 12, e.value.months)
              && DomRecorded(e.value, dom) && DowRecorded(e.value, dow) && InRange(e.value)
  {
    hide ItemValues, Normalised, Between, Parses, Denotes;
    var parsedSeconds := ParseField(if leading.Some? then leading.value else FIRE_AT_ZERO, 0, 59);
    var parsedMinutes := ParseField(minutes, 0, 59);
    var parsedHours := ParseField(hours, 0, 23);
    var parsedMonths := ParseField(months, 1, 12);
    if parsedSeconds.None? || parsedMinutes.None? || parsedHours.None? || parsedMonths.None? {
      return None;
    }
    var domField := Some(DomField(Between(1, 31), false, None, None));
    if dom.DomList? {
      domField := ParseDomList(dom.domItems);
    }
    var dowField := Some(DowField(Between(0, 6), None, None));
    if dow.DowList? {
      dowField := ParseDowList(dow.dowItems);
    }
    if domField.None? || dowField.None? {
      return None;
    }
    return Some(Fields(
      parsedSeconds.value, parsedMinutes.value, parsedHours.value,
      domField.value.values, parsedMonths.value, dowField.value.values,
      dom.DomList?, dow.DowList?,
      domField.value.last, domField.value.lastOffset,
      dowField.value.lastDow, dowField.value.nthDow, domField.value.nearest));
  }

  /** A five-field expression fires at second 0 only. */
  lemma FiveFieldsFireAtZero(values: set<int>)
    requires FieldOf(FIRE_AT_ZERO, 0, 59, values)
    ensures values == {0}
  {
    StepOneIsBetween(0, 1);
    assert ItemValues(FIRE_AT_ZERO.items[0], 0, 59).value == {0};
    forall v | v in values ensures v == 0 {
      assert Denotes(FIRE_AT_ZERO, 0, 59, v);
    }
  }
}
