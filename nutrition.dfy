/** Macro arithmetic of app/utils/nutrition.py: per-100g scaling, meal totals,
    remaining against the daily target and the coaching message. */
module Nutrition {
  import opened Wrappers
  import opened Rounding

  /** A JSON number: a real, or NaN/Infinity (which `isfinite` rejects). */
  datatype Num = Finite(r: real) | NonFinite

  /** A nutrient mapping as it comes from the catalog or from scaling. */
  type MacroMap = map<string, Num>

  /** A nutrient mapping of finite values: meal totals, targets, remaining. */
  type Totals = map<string, real>

  const Fields: seq<string> := ["calories", "protein", "carbs", "fat", "fiber"]
  const FieldSet: set<string> := {"calories", "protein", "carbs", "fat", "fiber"}

  const DefaultTargets: Totals :=
    map["calories" := 1800.0, "protein" := 110.0, "carbs" := 200.0, "fat" := 60.0, "fiber" := 25.0]

  const GreatProtein := "Great protein hit!"
  const EasyOnFats := "Go easy on the fats!"
  const Balanced := "Nice balanced meal!"

  lemma FieldsEnumerateFieldSet()
    ensures |Fields| == 5 && FieldSet == set k | k in Fields
    ensures forall i, j :: 0 <= i < j < |Fields| ==> Fields[i] != Fields[j]
  {
  }

  /** `m.get(k, 0.0)` */
  function ValueOr0(m: MacroMap, k: string): (v: Num)
    ensures k !in m ==> v == Finite(0.0)
    ensures k in m ==> v == m[k]
  {
    if k in m then m[k] else Finite(0.0)
  }

  /** `round(v * grams / 100.0, 1)`; NaN and infinities stay non-finite
      (`inf * 0` is NaN). */
  function ScaleValue(v: Num, grams: int): (s: Num)
    ensures s.Finite? <==> v.Finite?
    ensures v.Finite? ==> s.r == Round1(v.r * grams as real / 100.0)
  {
    if v.Finite? then Finite(Round1(v.r * grams as real / 100.0)) else NonFinite
  }

  /** `scale_macros`: exactly the five fields, each scaled from the per-100g
      value, a missing field scaling from 0.0. */
  function ScaleMacros(per100g: MacroMap, grams: int): (r: MacroMap)
    ensures r.Keys == FieldSet
    ensures forall k :: k in FieldSet && k !in per100g ==> r[k] == Finite(0.0)
    ensures forall k :: k in FieldSet && k in per100g ==> r[k] == ScaleValue(per100g[k], grams)
  {
    ScaleZero(grams);
    map k | k in FieldSet :: ScaleValue(ValueOr0(per100g, k), grams)
  }

  /** A missing field scales to 0.0 for every weight. */
  lemma ScaleZero(grams: int)
    ensures ScaleValue(Finite(0.0), grams) == Finite(0.0)
  {
    assert 0.0 * grams as real / 100.0 == 0.0;
    Round1OfTenths(0);
  }

  /** Every finite value is non-negative. */
  ghost predicate NonNegative(m: MacroMap) {
    forall k :: k in m && m[k].Finite? ==> m[k].r >= 0.0
  }

  lemma ScaleMacrosNonNegative(per100g: MacroMap, grams: int)
    requires NonNegative(per100g) && grams >= 0
    ensures NonNegative(ScaleMacros(per100g, grams))
  {
    var m := ScaleMacros(per100g, grams);
    forall k | k in m && m[k].Finite? ensures m[k].r >= 0.0 {
      assert k in FieldSet;
      ScaleValueNonNegative(ValueOr0(per100g, k), grams);
    }
  }

  /** Scaling is linear up to rounding: twice the portion gives twice the
      scaled value, within 0.15. */
  lemma ScaleLinear(v: Num, grams: int)
    requires v.Finite?
    ensures -0.15 <= ScaleValue(v, 2 * grams).r - 2.0 * ScaleValue(v, grams).r <= 0.15
  {
    ScaleValueClose(v, grams);
    ScaleValueClose(v, 2 * grams);
    DoubleWeight(v.r, grams);
    TwiceWithinSlack(ScaleValue(v, 2 * grams).r, ScaleValue(v, grams).r,
      v.r * (2 * grams) as real / 100.0, v.r * grams as real / 100.0);
  }

  lemma TwiceWithinSlack(a: real, b: real, p: real, q: real)
    requires -0.05 <= a - p <= 0.05 && -0.05 <= b - q <= 0.05 && p == 2.0 * q
    ensures -0.15 <= a - 2.0 * b <= 0.15
  {
  }

  /** A scaled value is within 0.05 of the exact product. */
  lemma ScaleValueClose(v: Num, grams: int)
    requires v.Finite?
    ensures -0.05 <= ScaleValue(v, grams).r - v.r * grams as real / 100.0 <= 0.05
  {
  }

  lemma DoubleWeight(x: real, grams: int)
    ensures x * (2 * grams) as real / 100.0 == 2.0 * (x * grams as real / 100.0)
  {
  }

  /** A non-negative value scaled by a non-negative weight stays non-negative. */
  lemma ScaleValueNonNegative(v: Num, grams: int)
    requires v.Finite? ==> v.r >= 0.0
    requires grams >= 0
    ensures ScaleValue(v, grams).Finite? ==> ScaleValue(v, grams).r >= 0.0
  {
    if v.Finite? {
      assert v.r * grams as real >= 0.0;
    }
  }

  /** What one item adds to field `k`: its finite value, 0 when the field is
      missing, nothing when the value is NaN or infinite. */
  function Contribution(m: MacroMap, k: string): (c: real)
    ensures k in m && m[k].NonFinite? ==> c == 0.0
    ensures k !in m ==> c == 0.0
    ensures k in m && m[k].Finite? ==> c == m[k].r
  {
    if k in m && m[k].Finite? then m[k].r else 0.0
  }

  /** The unrounded total of field `k` over `items`, in list order. */
  function FieldSum(items: seq<MacroMap>, k: string): real
  {
    if items == [] then 0.0
    else FieldSum(items[..|items| - 1], k) + Contribution(items[|items| - 1], k)
  }

  /** `sum_macros` as a value: every field rounded once, after summing. */
  function MealTotals(items: seq<MacroMap>): (t: Totals)
    ensures t.Keys == FieldSet
    ensures forall k :: k in t ==> t[k] == Round1(FieldSum(items, k))
  {
    map k | k in FieldSet :: Round1(FieldSum(items, k))
  }

  /** One pass of the inner loop of `sum_macros` over the fields `ks`: each
      finite value of `m` is added to its running total. */
  function AddItem(out: Totals, m: MacroMap, ks: seq<string>): (o: Totals)
    requires forall i :: 0 <= i < |ks| ==> ks[i] in out
    ensures o.Keys == out.Keys
  {
    if ks == [] then out
    else
      var o := AddItem(out, m, ks[..|ks| - 1]);
      var k := ks[|ks| - 1];
      var v := ValueOr0(m, k);
      if v.Finite? then o[k := o[k] + v.r] else o
  }

  lemma {:induction false} AddItemField(out: Totals, m: MacroMap, ks: seq<string>, k: string)
    requires forall i :: 0 <= i < |ks| ==> ks[i] in out
    requires forall i, j :: 0 <= i < j < |ks| ==> ks[i] != ks[j]
    requires k in out
    ensures AddItem(out, m, ks)[k] == out[k] + (if k in ks then Contribution(m, k) else 0.0)
    decreases |ks|
  {
    if ks != [] {
      var ks' := ks[..|ks| - 1];
      AddItemField(out, m, ks', k);
      assert k in ks <==> k in ks' || k == ks[|ks| - 1];
      assert k == ks[|ks| - 1] ==> k !in ks';
    }
  }

  /** The running totals of `sum_macros` after the items `items`. */
  function Accumulated(items: seq<MacroMap>): (out: Totals)
    ensures out.Keys == FieldSet
  {
    if items == [] then map k | k in FieldSet :: 0.0
    else AddItem(Accumulated(items[..|items| - 1]), items[|items| - 1], Fields)
  }

  lemma {:induction false} AccumulatedIsFieldSum(items: seq<MacroMap>, k: string)
    requires k in FieldSet
    ensures Accumulated(items)[k] == FieldSum(items, k)
    decreases |items|
  {
    if items != [] {
      FieldsEnumerateFieldSet();
      AccumulatedIsFieldSum(items[..|items| - 1], k);
      AddItemField(Accumulated(items[..|items| - 1]), items[|items| - 1], Fields, k);
    }
  }

  /** `sum_macros`: fills `out` field by field, item by item, skipping
      non-finite values, then rounds each field. */
  method SumMacros(items: seq<MacroMap>) returns (totals: Totals)
    ensures totals == MealTotals(items)
  {
    var out: Totals := map k | k in FieldSet :: 0.0;
    for i := 0 to |items|
      invariant out == Accumulated(items[..i])
    {
      var m := items[i];
      ghost var before := out;
      FieldsAreKeys(before);
      for j := 0 to |Fields|
        invariant out == AddItem(before, m, Fields[..j])
      {
        AddItemStep(before, m, Fields, j);
        var k := Fields[j];
        var v := ValueOr0(m, k);
        if v.Finite? {
          out := out[k := out[k] + v.r];
        }
      }
      assert Fields[..|Fields|] == Fields;
      assert items[..i + 1][..i] == items[..i];
    }
    assert items[..|items|] == items;
    totals := map k | k in out :: Round1(out[k]);
    RoundedAccumulated(items);
  }

  /** One pass of the inner loop: field `ks[j]` is added to the running totals. */
  lemma AddItemStep(before: Totals, m: MacroMap, ks: seq<string>, j: int)
    requires forall i :: 0 <= i < |ks| ==> ks[i] in before
    requires 0 <= j < |ks|
    ensures var o := AddItem(before, m, ks[..j]);
      var v := ValueOr0(m, ks[j]);
      ks[j] in o &&
      AddItem(before, m, ks[..j + 1]) == if v.Finite? then o[ks[j] := o[ks[j]] + v.r] else o
  {
    assert ks[..j + 1][..j] == ks[..j];
  }

  /** Every field is a key of a mapping keyed by the field set. */
  lemma FieldsAreKeys(t: Totals)
    requires t.Keys == FieldSet
    ensures forall i :: 0 <= i < |Fields| ==> Fields[i] in t
  {
    FieldsEnumerateFieldSet();
  }

  lemma RoundedAccumulated(items: seq<MacroMap>)
    ensures (map k | k in Accumulated(items) :: Round1(Accumulated(items)[k])) == MealTotals(items)
  {
    forall k | k in FieldSet ensures Accumulated(items)[k] == FieldSum(items, k) {
      AccumulatedIsFieldSum(items, k);
    }
  }

  lemma {:induction false} FieldSumConcat(a: seq<MacroMap>, b: seq<MacroMap>, k: string)
    ensures FieldSum(a + b, k) == FieldSum(a, k) + FieldSum(b, k)
    decreases |b|
  {
    if b == [] {
      assert a + b == a;
    } else {
      var b' := b[..|b| - 1];
      assert (a + b)[..|a + b| - 1] == a + b';
      FieldSumConcat(a, b', k);
    }
  }

  /** Summing an empty meal gives 0.0 in every field. */
  lemma MealTotalsEmpty()
    ensures forall k :: k in FieldSet ==> MealTotals([])[k] == 0.0
  {
    Round1OfTenths(0);
  }

  /** A NaN or infinite value adds nothing to its own field's total. */
  lemma NonFiniteSkipped(items: seq<MacroMap>, m: MacroMap, k: string)
    requires k in FieldSet
    ensures MealTotals(items + [m[k := NonFinite]])[k] == MealTotals(items)[k]
  {
    var s := items + [m[k := NonFinite]];
    assert s[..|items|] == items;
    assert FieldSum(s, k) == FieldSum(items, k) + Contribution(m[k := NonFinite], k);
  }

  /** Turning one field of an item into NaN or an infinity leaves every other
      field's total as it was. */
  lemma NonFiniteIsolated(items: seq<MacroMap>, m: MacroMap, k: string, f: string)
    requires f in FieldSet && f != k
    ensures MealTotals(items + [m[k := NonFinite]])[f] == MealTotals(items + [m])[f]
  {
    var m' := m[k := NonFinite];
    assert Contribution(m', f) == Contribution(m, f);
    FieldSumSnoc(items, m', f);
    FieldSumSnoc(items, m, f);
    assert FieldSum(items + [m'], f) == FieldSum(items + [m], f);
  }

  /** One more item adds its own contribution to the sum. */
  lemma FieldSumSnoc(items: seq<MacroMap>, m: MacroMap, k: string)
    ensures FieldSum(items + [m], k) == FieldSum(items, k) + Contribution(m, k)
  {
    assert (items + [m])[..|items|] == items;
  }

  /** Taking item `i` out of the list takes exactly its contribution out of
      the sum. */
  lemma FieldSumWithout(b: seq<MacroMap>, i: int, k: string)
    requires 0 <= i < |b|
    ensures FieldSum(b, k) == FieldSum(b[..i] + b[i + 1..], k) + Contribution(b[i], k)
  {
    FieldSumConcat(b[..i], [b[i]] + b[i + 1..], k);
    FieldSumConcat([b[i]], b[i + 1..], k);
    FieldSumConcat(b[..i], b[i + 1..], k);
    assert b[..i] + ([b[i]] + b[i + 1..]) == b;
    assert [b[i]][..0] == [];
  }

  lemma {:induction false} FieldSumPermutation(a: seq<MacroMap>, b: seq<MacroMap>, k: string)
    requires multiset(a) == multiset(b)
    ensures FieldSum(a, k) == FieldSum(b, k)
    decreases |a|
  {
    if a != [] {
      var a', x := a[..|a| - 1], a[|a| - 1];
      assert multiset(a) == multiset(a') + multiset{x} by {
        assert a == a' + [x];
      }
      assert x in multiset(b);
      var i :| 0 <= i < |b| && b[i] == x;
      var b' := b[..i] + b[i + 1..];
      RemoveOne(b, i);
      assert multiset(a') == multiset(b');
      FieldSumPermutation(a', b', k);
      FieldSumWithout(b, i, k);
    }
  }

  lemma RemoveOne<T>(s: seq<T>, i: int)
    requires 0 <= i < |s|
    ensures multiset(s[..i] + s[i + 1..]) == multiset(s) - multiset{s[i]}
  {
    assert s == s[..i] + [s[i]] + s[i + 1..];
  }

  /** The meal totals do not depend on the order of the items: rounding
      happens once, on the exact sums. */
  lemma MealTotalsPermutation(a: seq<MacroMap>, b: seq<MacroMap>)
    requires multiset(a) == multiset(b)
    ensures MealTotals(a) == MealTotals(b)
  {
    forall k | k in FieldSet ensures FieldSum(a, k) == FieldSum(b, k) {
      FieldSumPermutation(a, b, k);
    }
  }

  lemma {:induction false} FieldSumNonNegative(items: seq<MacroMap>, k: string)
    requires forall i :: 0 <= i < |items| ==> NonNegative(items[i])
    ensures FieldSum(items, k) >= 0.0
    decreases |items|
  {
    if items != [] {
      FieldSumNonNegative(items[..|items| - 1], k);
    }
  }

  /** Items with non-negative values give non-negative totals. */
  lemma MealTotalsNonNegative(items: seq<MacroMap>)
    requires forall i :: 0 <= i < |items| ==> NonNegative(items[i])
    ensures forall k :: k in FieldSet ==> MealTotals(items)[k] >= 0.0
  {
    forall k | k in FieldSet ensures FieldSum(items, k) >= 0.0 {
      FieldSumNonNegative(items, k);
    }
  }

  /** `targets or DEFAULT_TARGETS`: None and an empty mapping both fall back
      to the defaults; otherwise the mapping is used as given, however few
      fields it has. */
  function EffectiveTargets(targets: Option<Totals>): (t: Totals)
    ensures targets == None || targets == Some(map[]) ==> t == DefaultTargets
    ensures targets.Some? && targets.value != map[] ==> t == targets.value
  {
    if targets.None? || targets.value == map[] then DefaultTargets else targets.value
  }

  /** `d.get(k, 0.0)` on a finite mapping. */
  function Get(t: Totals, k: string): (v: real)
    ensures k in t ==> v == t[k]
    ensures k !in t ==> v == 0.0
  {
    if k in t then t[k] else 0.0
  }

  function Max(a: real, b: real): (m: real)
    ensures m >= a && m >= b && (m == a || m == b)
  {
    if a >= b then a else b
  }

  /** `remaining`: for each of the five fields, the rounded target minus the
      total, floored at 0. */
  function Remaining(totals: Totals, targets: Option<Totals>): (r: Totals)
    ensures r.Keys == FieldSet
  {
    var t := EffectiveTargets(targets);
    map k | k in FieldSet :: Shortfall(Get(t, k), Get(totals, k))
  }

  /** `round(max(target - total, 0.0), 1)` */
  function Shortfall(target: real, total: real): (v: real)
    ensures v >= 0.0
  {
    Round1(Max(target - total, 0.0))
  }

  /** Nothing that remains is negative. */
  lemma RemainingNonNegative(totals: Totals, targets: Option<Totals>)
    ensures forall k :: k in Remaining(totals, targets) ==> Remaining(totals, targets)[k] >= 0.0
  {
    var r := Remaining(totals, targets);
    var t := EffectiveTargets(targets);
    forall k | k in r ensures r[k] >= 0.0 {
      assert k in FieldSet;
      assert r[k] == Shortfall(Get(t, k), Get(totals, k));
    }
  }

  /** Under the target, the remainder is the rounded difference; at or over
      it, the remainder is 0.0. */
  lemma RemainingAgainstTarget(totals: Totals, targets: Option<Totals>, k: string)
    requires k in FieldSet
    ensures var target := Get(EffectiveTargets(targets), k);
            var total := Get(totals, k);
            && (total <= target ==> Remaining(totals, targets)[k] == Round1(target - total))
            && (total >= target ==> Remaining(totals, targets)[k] == 0.0)
  {
    Round1OfTenths(0);
  }

  /** `simple_coach_reply`: the protein rule is tried before the fat rule.
      The source indexes `totals["protein"]` always and `totals["fat"]` only
      when the protein rule fails. */
  function CoachReply(totals: Totals): (r: string)
    requires "protein" in totals
    requires totals["protein"] < 25.0 ==> "fat" in totals
    ensures r in {GreatProtein, EasyOnFats, Balanced}
    ensures r == GreatProtein <==> totals["protein"] >= 25.0
    ensures r == EasyOnFats <==> totals["protein"] < 25.0 && totals["fat"] >= 20.0
    ensures r == Balanced <==> totals["protein"] < 25.0 && totals["fat"] < 20.0
  {
    if totals["protein"] >= 25.0 then GreatProtein
    else if totals["fat"] >= 20.0 then EasyOnFats
    else Balanced
  }

  /** Protein wins over fat: totals {protein: 30, fat: 25}. */
  lemma ProteinRuleFirst()
    ensures CoachReply(map["protein" := 30.0, "fat" := 25.0]) == GreatProtein
  {
  }
}
