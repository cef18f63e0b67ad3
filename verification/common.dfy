/**
 * The numeric helpers and date grouping of src/utils/common.ts:
 * `isValidNumber`, `calculateBMI`, `calculateAverage` and `groupByDate`.
 */
module Common {
  import opened Options
  import opened Numbers
  import Grouping

  /** The JavaScript values a numeric field can hold. */
  datatype JsNumber = Null | Undefined | NaN | Num(x: real)

  /**
   * JavaScript's global `isNaN`, which converts its argument to a number
   * first: `null` becomes 0 (not NaN), `undefined` becomes NaN.
   */
  predicate IsNaN(v: JsNumber)
  {
    v == Undefined || v == NaN
  }

  /** `isValidNumber`: not NaN after conversion, and neither null nor undefined. */
  function IsValidNumber(v: JsNumber): (ok: bool)
    ensures ok ==> !IsNaN(v)
    ensures v == Null ==> !ok
  {
    !IsNaN(v) && v != Null && v != Undefined
  }

  /** Exactly the finite numbers are valid; the explicit null test is what rejects `null`. */
  lemma ValidIffNumber(v: JsNumber)
    ensures IsValidNumber(v) <==> v.Num?
    ensures !IsNaN(Null)
  {
  }

  /** weight (kg) / (height (cm) / 100)^2, unrounded. */
  function BodyMassIndex(weight: real, height: real): real
    requires height > 0.0
  {
    var meters := height / 100.0;
    weight / (meters * meters)
  }

  /**
   * `calculateBMI(weight, height)`: null for an invalid input or a
   * non-positive height (cm); otherwise the body-mass index rounded to one
   * decimal.
   */
  function CalculateBmi(weight: JsNumber, height: JsNumber): (r: Option<real>)
    ensures r == None <==> !IsValidNumber(weight) || !IsValidNumber(height) || height.x <= 0.0
    ensures r.Some? ==>
      && Abs(r.value - BodyMassIndex(weight.x, height.x)) <= 0.05
      && (r.value * 10.0).Floor as real == r.value * 10.0
  {
    if !IsValidNumber(weight) || !IsValidNumber(height) || height.x <= 0.0 then None
    else
      Some(RoundToTenth(BodyMassIndex(weight.x, height.x)))
  }

  /** The valid entries of `ns`, in order. */
  function ValidNumbers(ns: seq<JsNumber>): (vs: seq<real>)
    ensures |vs| <= |ns|
  {
    if |ns| == 0 then []
    else
      var v := ns[|ns| - 1];
      ValidNumbers(ns[..|ns| - 1]) + (if IsValidNumber(v) then [v.x] else [])
  }

  /** Filtering valid entries distributes over concatenation. */
  lemma {:induction false} ValidNumbersAppend(a: seq<JsNumber>, b: seq<JsNumber>)
    ensures ValidNumbers(a + b) == ValidNumbers(a) + ValidNumbers(b)
  {
    if |b| == 0 {
      assert a + b == a;
    } else {
      var q := b[..|b| - 1];
      assert (a + b)[..|a + b| - 1] == a + q;
      ValidNumbersAppend(a, q);
    }
  }

  /**
   * `calculateAverage`: null when no entry is valid, otherwise the mean of
   * the valid entries rounded to one decimal.
   */
  function CalculateAverage(ns: seq<JsNumber>): (r: Option<real>)
    ensures r == None <==> |ValidNumbers(ns)| == 0
    ensures r.Some? ==> Abs(r.value - Mean(ValidNumbers(ns))) <= 0.05
    ensures r.Some? ==> (r.value * 10.0).Floor as real == r.value * 10.0
  {
    var valid := ValidNumbers(ns);
    if |valid| == 0 then None
    else Some(RoundToTenth(Sum(valid) / (|valid| as real)))
  }

  /**
   * The unrounded mean lies between the smallest and the largest valid
   * entry, so the average is at most 0.05 outside that range.
   */
  lemma AverageWithinValidRange(ns: seq<JsNumber>)
    requires |ValidNumbers(ns)| > 0
    ensures var vs := ValidNumbers(ns);
      && MinOf(vs) <= Mean(vs) <= MaxOf(vs)
      && MinOf(vs) - 0.05 <= CalculateAverage(ns).value <= MaxOf(vs) + 0.05
  {
    MeanBetweenMinAndMax(ValidNumbers(ns));
  }

  /** An invalid entry, wherever it sits, does not change the average. */
  lemma AverageIgnoresInvalid(a: seq<JsNumber>, v: JsNumber, b: seq<JsNumber>)
    requires !IsValidNumber(v)
    ensures CalculateAverage(a + [v] + b) == CalculateAverage(a + b)
  {
    assert ValidNumbers([v]) == [] by {
      assert [v][..0] == [];
    }
    assert ValidNumbers(a + [v] + b) == ValidNumbers(a + b) by {
      ValidNumbersAppend(a + [v], b);
      ValidNumbersAppend(a, [v]);
      ValidNumbersAppend(a, b);
    }
  }

  /** The grouping key of an item: its formatted measurement date. */
  function DateKey<T>(measuredAt: T -> string, formatter: string -> string): T -> string
  {
    (item: T) => formatter(measuredAt(item))
  }

  /**
   * `groupByDate`: the items grouped by `formatter(item.measured_at)`, each
   * group in input order, with a group only for a date that occurs.
   */
  function GroupByDate<T>(items: seq<T>, measuredAt: T -> string, formatter: string -> string)
    : (groups: map<string, seq<T>>)
    ensures forall k :: k in groups <==> exists i :: 0 <= i < |items| && formatter(measuredAt(items[i])) == k
    ensures forall k :: k in groups ==> groups[k] == Grouping.Select(items, DateKey(measuredAt, formatter), k)
  {
    Grouping.GroupBy(items, DateKey(measuredAt, formatter))
  }

  /**
   * Every item is in the group of its own formatted date, every member of a
   * group carries that group's date, and no group is empty.
   */
  lemma {:induction false} GroupByDatePlacement<T>(items: seq<T>, measuredAt: T -> string, formatter: string -> string)
    ensures var groups := GroupByDate(items, measuredAt, formatter);
      && (forall i :: 0 <= i < |items| ==>
            formatter(measuredAt(items[i])) in groups && items[i] in groups[formatter(measuredAt(items[i]))])
      && (forall k :: k in groups ==>
            && |groups[k]| > 0
            && forall j :: 0 <= j < |groups[k]| ==> formatter(measuredAt(groups[k][j])) == k)
  {
    var key := DateKey(measuredAt, formatter);
    var groups := Grouping.GroupBy(items, key);
    forall i | 0 <= i < |items|
      ensures key(items[i]) in groups && items[i] in groups[key(items[i])]
    {
      assert Grouping.HasKey(items, key, key(items[i]));
      Grouping.SelectMembers(items, key, key(items[i]), items[i]);
    }
  }

  /** Every item sits in one group only, so the group sizes add up to the number of items. */
  lemma {:induction false} GroupByDateSizes<T>(items: seq<T>, measuredAt: T -> string, formatter: string -> string)
    ensures var groups := GroupByDate(items, measuredAt, formatter);
      && (forall k :: k in groups <==> k in Grouping.DistinctKeys(items, DateKey(measuredAt, formatter)))
      && Grouping.SelectedTotal(items, DateKey(measuredAt, formatter),
                                Grouping.DistinctKeys(items, DateKey(measuredAt, formatter))) == |items|
  {
    Grouping.GroupSizesSum(items, DateKey(measuredAt, formatter));
  }

  /**
   * Grouping keeps input order: grouping a concatenation appends each
   * date's later items after its earlier ones.
   */
  lemma GroupByDateKeepsOrder<T>(a: seq<T>, b: seq<T>, measuredAt: T -> string,
                                 formatter: string -> string, k: string)
    requires Grouping.HasKey(a, DateKey(measuredAt, formatter), k)
    requires Grouping.HasKey(b, DateKey(measuredAt, formatter), k)
    ensures k in GroupByDate(a, measuredAt, formatter) && k in GroupByDate(b, measuredAt, formatter)
    ensures k in GroupByDate(a + b, measuredAt, formatter)
    ensures GroupByDate(a + b, measuredAt, formatter)[k]
         == GroupByDate(a, measuredAt, formatter)[k] + GroupByDate(b, measuredAt, formatter)[k]
  {
    Grouping.GroupByAppend(a, b, DateKey(measuredAt, formatter), k);
  }
}
