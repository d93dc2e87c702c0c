/** The worked meal of the coach route: one Greek Salad of 200 g against a
    catalog entry of 50/2/4/3/1 per 100 g, followed step by step through
    scaling, summing, the daily remainder and the reply, and then through
    the whole resolution section of `coach_photo`. */
module Scenarios {
  import opened Wrappers
  import opened Rounding
  import opened Nutrition
  import opened Catalog
  import opened Coach
  import UtilsTaxonomy

  const SaladPer100g: MacroMap := map[
    "calories" := Finite(50.0), "protein" := Finite(2.0), "carbs" := Finite(4.0),
    "fat" := Finite(3.0), "fiber" := Finite(1.0)]

  const SaladPortion: MacroMap := map[
    "calories" := Finite(100.0), "protein" := Finite(4.0), "carbs" := Finite(8.0),
    "fat" := Finite(6.0), "fiber" := Finite(2.0)]

  const SaladTotals: Totals := map[
    "calories" := 100.0, "protein" := 4.0, "carbs" := 8.0, "fat" := 6.0, "fiber" := 2.0]

  const SaladRemaining: Totals := map[
    "calories" := 1700.0, "protein" := 106.0, "carbs" := 192.0, "fat" := 54.0, "fiber" := 23.0]

  /** Two mappings keyed by the five fields agree when each field does. */
  lemma SameOnFields<V>(a: map<string, V>, b: map<string, V>)
    requires a.Keys == FieldSet && b.Keys == FieldSet
    requires a["calories"] == b["calories"] && a["protein"] == b["protein"] && a["carbs"] == b["carbs"]
    requires a["fat"] == b["fat"] && a["fiber"] == b["fiber"]
    ensures a == b
  {
    forall k | k in FieldSet ensures a[k] == b[k] {
    }
  }

  /** A product that is already a whole number of tenths is kept as it is. */
  lemma ScaleToTenths(w: Num, grams: int, n: int)
    requires w.Finite? && w.r * grams as real / 100.0 == n as real / 10.0
    ensures ScaleValue(w, grams) == Finite(n as real / 10.0)
  {
    Round1OfTenths(n);
  }

  /** 200 g of the salad: every field doubles. */
  lemma SaladScaled()
    ensures ScaleMacros(SaladPer100g, 200) == SaladPortion
  {
    var m := ScaleMacros(SaladPer100g, 200);
    ScaleToTenths(Finite(50.0), 200, 1000);
    ScaleToTenths(Finite(2.0), 200, 40);
    ScaleToTenths(Finite(4.0), 200, 80);
    ScaleToTenths(Finite(3.0), 200, 60);
    ScaleToTenths(Finite(1.0), 200, 20);
    SameOnFields(m, SaladPortion);
  }

  /** A single item whose fields are finite whole numbers of tenths is its
      own total. */
  lemma SingleItemTotals(m: MacroMap)
    requires m.Keys == FieldSet
    requires forall k :: k in m ==> m[k].Finite? && IsTenths(m[k].r)
    ensures MealTotals([m]) == map k | k in m :: m[k].r
  {
    assert [m][..0] == [];
    forall k | k in FieldSet ensures MealTotals([m])[k] == m[k].r {
      assert FieldSum([m], k) == m[k].r;
      Round1Fixed(m[k].r);
    }
  }

  /** The salad alone: the totals are its portion's values. */
  lemma SaladSummed()
    ensures MealTotals([SaladPortion]) == SaladTotals
  {
    SingleItemTotals(SaladPortion);
    var t := map k | k in SaladPortion :: SaladPortion[k].r;
    SameOnFields(t, SaladTotals);
  }

  /** Under the target by a whole number of tenths, that difference remains. */
  lemma ShortfallTenths(target: real, total: real, n: nat)
    requires target - total == n as real / 10.0
    ensures Shortfall(target, total) == n as real / 10.0
  {
    Round1OfTenths(n);
  }

  /** What the salad leaves of the default daily targets. */
  lemma SaladRemainder()
    ensures Remaining(SaladTotals, None) == SaladRemaining
  {
    var r := Remaining(SaladTotals, None);
    ShortfallTenths(1800.0, 100.0, 17000);
    ShortfallTenths(110.0, 4.0, 1060);
    ShortfallTenths(200.0, 8.0, 1920);
    ShortfallTenths(60.0, 6.0, 540);
    ShortfallTenths(25.0, 2.0, 230);
    assert r["calories"] == 1700.0 && r["protein"] == 106.0 && r["carbs"] == 192.0;
    assert r["fat"] == 54.0 && r["fiber"] == 23.0;
    SameOnFields(r, SaladRemaining);
  }

  /** Neither rule fires for the salad: it is a balanced meal. */
  lemma SaladReply()
    ensures CoachReply(SaladTotals) == Balanced
  {
  }

  lemma MacrosOfSingle(item: CoachItem)
    ensures MacrosOf([item]) == [item.macros]
  {
  }

  /** The stubbed photo route on a catalog whose entry for the stub's
      "Greek Salad" has 50/2/4/3/1 per 100 g: one item of 200 g, whose
      macros are also the totals, the remainder of the default targets, and
      the balanced-meal reply. */
  lemma SaladMeal(tax: UtilsTaxonomy.Taxonomy, raw: seq<ImageIO.Byte>, dish: Dish, mealId: string)
    requires tax.Valid()
    requires MapToTaxonomy(tax, "Greek Salad") == Some(dish)
    requires dish.macrosPer100g == SaladPer100g
    ensures MealOutcome(tax, VisionStub(raw), mealId) == Success(CoachPayload(
      mealId, "lunch",
      [CoachItem(dish.name, 200, 0.94, ["salad", "vegetarian"], dish.ingredients.GetOr([]), SaladPortion)],
      SaladTotals, SaladRemaining, Balanced))
  {
    var dets := VisionStub(raw);
    var det := dets[0];
    var item := CoachItem(dish.name, 200, 0.94, ["salad", "vegetarian"], dish.ingredients.GetOr([]), SaladPortion);
    assert ResolveItems(tax, dets) == [item] by {
      assert dets == [det];
      ResolveItemsSingle(tax, det);
      SaladScaled();
    }
    MealOutcomeOf(tax, dets, mealId);
    MacrosOfSingle(item);
    SaladSummed();
    SaladRemainder();
    SaladReply();
  }
}
