/** app/routes/coach.py: detections are looked up in the taxonomy, matched
    ones become meal items with scaled macros, and the meal's totals,
    remaining daily amounts and coaching reply are computed from them. The
    taxonomy is passed in rather than read from a module global. */
module Coach {
  import opened Wrappers
  import opened Text
  import opened Rounding
  import opened Nutrition
  import opened Catalog
  import opened ImageIO
  import UtilsTaxonomy

  /** One guess of the vision component. */
  datatype Detection = Detection(name: string, grams: int, confidence: real, tags: Option<seq<string>>)

  /** `CoachItem` of app/models.py. */
  datatype CoachItem = CoachItem(
    name: string,
    grams: int,
    confidence: real,
    tags: seq<string>,
    ingredients: seq<string>,
    macros: MacroMap)

  /** `CoachPayload` of app/models.py; the meal id is supplied by the caller. */
  datatype CoachPayload = CoachPayload(
    mealId: string,
    mealSlot: string,
    items: seq<CoachItem>,
    totals: Totals,
    remainingDaily: Totals,
    coachReply: string)

  datatype HttpError = HttpError(status: int, detail: string)

  const NoFoodDetail := "No recognizable foods for nutrition mapping."
  const DefaultMealSlot := "lunch"
  const DefaultUploadName := "upload.jpg"

  /** `_map_to_taxonomy`: the query as given, then trimmed and lower-cased.
      A dish record is never empty, so Python's `or` only skips a miss. */
  function MapToTaxonomy(tax: UtilsTaxonomy.Taxonomy, name: string): (r: Option<Dish>)
    reads tax
    requires tax.Valid()
    ensures r.Some? ==> r.value in tax.dishes
    ensures tax.Match(name).Some? ==> r == tax.Match(name)
    ensures tax.Match(name).None? ==> r == tax.Match(Lower(Strip(name)))
  {
    var m := tax.Match(name);
    if m.Some? then m else tax.Match(Lower(Strip(name)))
  }

  /** A detection name matches when its lower-cased form, or its trimmed
      lower-cased form, is a name or alias of some dish. */
  lemma MapToTaxonomyHits(tax: UtilsTaxonomy.Taxonomy, name: string)
    requires tax.Valid()
    ensures MapToTaxonomy(tax, name).Some? <==>
      exists j :: 0 <= j < |tax.dishes| && (Lower(name) in DishKeys(tax.dishes[j]) || Lower(Strip(name)) in DishKeys(tax.dishes[j]))
  {
    LowerIdempotent(Strip(name));
  }

  /** `_vision_stub`: the same single detection for every image. */
  function VisionStub(raw: seq<Byte>): (d: seq<Detection>)
    ensures |d| == 1
  {
    [Detection("Greek Salad", 200, 0.94, Some(["salad", "vegetarian"]))]
  }

  /** The stub does not look at the image: every upload gets the same
      detection. */
  lemma VisionStubIgnoresImage(a: seq<Byte>, b: seq<Byte>)
    ensures VisionStub(a) == VisionStub(b)
  {
  }

  /** The item for a detection matched to `dish`: name and ingredients from
      the dish, grams, confidence and tags from the detection. */
  function ItemFor(det: Detection, dish: Dish): CoachItem {
    CoachItem(
      dish.name, det.grams, det.confidence, det.tags.GetOr([]),
      dish.ingredients.GetOr([]), Nutrition.ScaleMacros(dish.macrosPer100g, det.grams))
  }

  /** The items of the detections `dets`, in detection order, misses left out. */
  function ResolveItems(tax: UtilsTaxonomy.Taxonomy, dets: seq<Detection>): (items: seq<CoachItem>)
    reads tax
    requires tax.Valid()
    ensures |items| <= |dets|
  {
    if dets == [] then []
    else
      ResolveItems(tax, dets[..|dets| - 1]) + ItemsOf(tax, dets[|dets| - 1])
  }

  /** What one detection contributes: its item when it matches, else nothing. */
  function ItemsOf(tax: UtilsTaxonomy.Taxonomy, det: Detection): (s: seq<CoachItem>)
    reads tax
    requires tax.Valid()
    ensures |s| <= 1
    ensures s == [] <==> MapToTaxonomy(tax, det.name).None?
    ensures s != [] ==> s[0] == ItemFor(det, MapToTaxonomy(tax, det.name).value)
  {
    match MapToTaxonomy(tax, det.name)
    case Some(dish) => [ItemFor(det, dish)]
    case None => []
  }

  function MacrosOf(items: seq<CoachItem>): (ms: seq<MacroMap>)
    ensures |ms| == |items| && forall i :: 0 <= i < |items| ==> ms[i] == items[i].macros
  {
    seq(|items|, i requires 0 <= i < |items| => items[i].macros)
  }

  /** The outcome of the detection section of `coach_photo`: 422 when nothing
      matched, otherwise the items with their totals, what remains of the
      default daily targets, and the reply for those totals. */
  function MealOutcome(tax: UtilsTaxonomy.Taxonomy, dets: seq<Detection>, mealId: string): (r: Result<CoachPayload, HttpError>)
    reads tax
    requires tax.Valid()
    ensures r.Failure? <==> forall j :: 0 <= j < |dets| ==> MapToTaxonomy(tax, dets[j].name).None?
    ensures r.Failure? ==> r.error == HttpError(422, NoFoodDetail)
    ensures r.Success? ==> r.value.items == ResolveItems(tax, dets) && |r.value.items| >= 1
    ensures r.Success? ==> r.value.totals == MealTotals(MacrosOf(r.value.items))
    ensures r.Success? ==> r.value.remainingDaily == Remaining(r.value.totals, None)
    ensures r.Success? ==> r.value.coachReply == CoachReply(r.value.totals)
    ensures r.Success? ==> r.value.coachReply in {GreatProtein, EasyOnFats, Balanced}
    ensures r.Success? ==> r.value.mealId == mealId && r.value.mealSlot == DefaultMealSlot
  {
    NothingMatched(tax, dets);
    var items := ResolveItems(tax, dets);
    if items == [] then Failure(HttpError(422, NoFoodDetail))
    else
      var totals := MealTotals(MacrosOf(items));
      Success(CoachPayload(mealId, DefaultMealSlot, items, totals, Remaining(totals, None), CoachReply(totals)))
  }

  /** The outcome in terms of the resolved items: 422 when there are none,
      else the payload assembled from them. */
  lemma MealOutcomeOf(tax: UtilsTaxonomy.Taxonomy, dets: seq<Detection>, mealId: string)
    requires tax.Valid()
    ensures ResolveItems(tax, dets) == [] ==>
      MealOutcome(tax, dets, mealId) == Failure(HttpError(422, NoFoodDetail))
    ensures ResolveItems(tax, dets) != [] ==>
      var items := ResolveItems(tax, dets);
      var totals := MealTotals(MacrosOf(items));
      MealOutcome(tax, dets, mealId) ==
        Success(CoachPayload(mealId, DefaultMealSlot, items, totals, Remaining(totals, None), CoachReply(totals)))
  {
  }

  /** The loop of `coach_photo` over the detections: `items` and
      `macro_list` grow together, a miss is skipped, an empty result is 422. */
  method ResolveMeal(tax: UtilsTaxonomy.Taxonomy, detections: seq<Detection>, mealId: string)
    returns (r: Result<CoachPayload, HttpError>)
    requires tax.Valid()
    ensures r == MealOutcome(tax, detections, mealId)
  {
    var items: seq<CoachItem> := [];
    var macroList: seq<MacroMap> := [];
    for i := 0 to |detections|
      invariant items == ResolveItems(tax, detections[..i])
      invariant macroList == MacrosOf(items)
    {
      var det := detections[i];
      ResolveStep(tax, detections, i);
      var found := MapToTaxonomy(tax, det.name);
      if found.None? {
        continue;
      }
      var dish := found.value;
      var macros := Nutrition.ScaleMacros(dish.macrosPer100g, det.grams);
      var item := CoachItem(
        dish.name, det.grams, det.confidence, det.tags.GetOr([]),
        dish.ingredients.GetOr([]), macros);
      MacrosOfAppend(items, item);
      macroList := macroList + [macros];
      items := items + [item];
    }
    assert detections[..|detections|] == detections;
    MealOutcomeOf(tax, detections, mealId);
    if items == [] {
      return Failure(HttpError(422, NoFoodDetail));
    }
    var totals := SumMacros(macroList);
    var rem := Remaining(totals, None);
    var reply := CoachReply(totals);
    r := Success(CoachPayload(mealId, DefaultMealSlot, items, totals, rem, reply));
  }

  /** One more detection adds what it contributes after the items so far. */
  lemma ResolveStep(tax: UtilsTaxonomy.Taxonomy, dets: seq<Detection>, i: int)
    requires tax.Valid() && 0 <= i < |dets|
    ensures ResolveItems(tax, dets[..i + 1]) == ResolveItems(tax, dets[..i]) + ItemsOf(tax, dets[i])
  {
    assert dets[..i + 1][..i] == dets[..i];
  }

  /** Appending an item appends its macros. */
  lemma MacrosOfAppend(items: seq<CoachItem>, item: CoachItem)
    ensures MacrosOf(items + [item]) == MacrosOf(items) + [item.macros]
  {
  }

  /** `coach_photo` without its file writes: 415 with the validator's message,
      otherwise the stub's detections resolved against `tax`. */
  method CoachPhoto(tax: UtilsTaxonomy.Taxonomy, raw: seq<Byte>, decoding: Decoding, mealId: string)
    returns (r: Result<CoachPayload, HttpError>)
    requires tax.Valid()
    ensures |raw| > MaxBytes ==> r == Failure(HttpError(415, TooLargeMessage))
    ensures ValidateImage(raw, decoding).Failure? ==>
      r == Failure(HttpError(415, ValidateImage(raw, decoding).error))
    ensures ValidateImage(raw, decoding).Success? ==> r == MealOutcome(tax, VisionStub(raw), mealId)
  {
    var checked := ValidateImage(raw, decoding);
    if checked.Failure? {
      return Failure(HttpError(415, checked.error));
    }
    var detections := VisionStub(raw);
    r := ResolveMeal(tax, detections, mealId);
  }

  /** `file.filename or "upload.jpg"` */
  function UploadName(filename: Option<string>): (name: string)
    ensures filename.None? || filename == Some("") ==> name == DefaultUploadName
    ensures filename.Some? && filename.value != "" ==> name == filename.value
  {
    if filename.None? || filename.value == "" then DefaultUploadName else filename.value
  }

  /** The name the upload is stored under: the digest prefix, a "." and the
      stored extension of the upload's name; ".jpg" when it has no name. */
  function StoredName(hexDigest: string, filename: Option<string>): (r: string)
    ensures var h := DigestPrefix(hexDigest);
      var e := StoredExtension(UploadName(filename));
      e in AllowedExtensions && |r| == |h| + 1 + |e| && r[..|h|] == h && r[|h|] == '.' && r[|h| + 1..] == e
    ensures filename.None? || filename == Some("") ==> r == DigestPrefix(hexDigest) + ".jpg"
  {
    var h := DigestPrefix(hexDigest);
    UploadNameIsJpg();
    assert h + "." + "jpg" == h + ".jpg";
    HashedFilename(hexDigest, UploadName(filename))
  }

  lemma UploadNameIsJpg()
    ensures StoredExtension(DefaultUploadName) == "jpg"
  {
    assert DefaultUploadName == "upload" + "." + "jpg";
    LastSegmentAfterDot("upload", "jpg");
    AllowedExtensionIsPlain("jpg");
  }

  /** Resolving a concatenation resolves the parts in order: items keep
      detection order. */
  lemma {:induction false} ResolveItemsAppend(tax: UtilsTaxonomy.Taxonomy, a: seq<Detection>, b: seq<Detection>)
    requires tax.Valid()
    ensures ResolveItems(tax, a + b) == ResolveItems(tax, a) + ResolveItems(tax, b)
    decreases |b|
  {
    if b == [] {
      assert a + b == a;
    } else {
      var b' := b[..|b| - 1];
      var last := b[|b| - 1];
      assert a + b == (a + b') + [last] && b == b' + [last];
      ResolveItemsSnoc(tax, a + b', last);
      ResolveItemsSnoc(tax, b', last);
      ResolveItemsAppend(tax, a, b');
      ConcatAssoc(ResolveItems(tax, a), ResolveItems(tax, b'), ItemsOf(tax, last));
    }
  }

  lemma ConcatAssoc<T>(x: seq<T>, y: seq<T>, z: seq<T>)
    ensures (x + y) + z == x + (y + z)
  {
  }

  /** One more detection at the end appends exactly its own items. */
  lemma ResolveItemsSnoc(tax: UtilsTaxonomy.Taxonomy, dets: seq<Detection>, det: Detection)
    requires tax.Valid()
    ensures ResolveItems(tax, dets + [det]) == ResolveItems(tax, dets) + ItemsOf(tax, det)
  {
    assert (dets + [det])[..|dets|] == dets;
  }

  /** One detection yields its item when it matches and nothing otherwise. */
  lemma ResolveItemsSingle(tax: UtilsTaxonomy.Taxonomy, det: Detection)
    requires tax.Valid()
    ensures MapToTaxonomy(tax, det.name).None? ==> ResolveItems(tax, [det]) == []
    ensures MapToTaxonomy(tax, det.name).Some? ==>
      ResolveItems(tax, [det]) == [ItemFor(det, MapToTaxonomy(tax, det.name).value)]
  {
    assert [det][..0] == [];
  }

  /** Every item comes from a matched detection and the dish it matched. */
  lemma {:induction false} ItemsFromMatches(tax: UtilsTaxonomy.Taxonomy, dets: seq<Detection>, i: int)
    requires tax.Valid()
    requires 0 <= i < |ResolveItems(tax, dets)|
    ensures exists j :: (0 <= j < |dets| && MapToTaxonomy(tax, dets[j].name).Some? &&
      ResolveItems(tax, dets)[i] == ItemFor(dets[j], MapToTaxonomy(tax, dets[j].name).value))
    decreases |dets|
  {
    var dets' := dets[..|dets| - 1];
    var last := |dets| - 1;
    var prefix := ResolveItems(tax, dets');
    var tail := ItemsOf(tax, dets[last]);
    assert ResolveItems(tax, dets) == prefix + tail;
    if i < |prefix| {
      ItemsFromMatches(tax, dets', i);
      var j :| 0 <= j < |dets'| && MapToTaxonomy(tax, dets'[j].name).Some? &&
        prefix[i] == ItemFor(dets'[j], MapToTaxonomy(tax, dets'[j].name).value);
      assert dets[j] == dets'[j];
    } else {
      assert ResolveItems(tax, dets)[i] == tail[0];
    }
  }

  /** No item at all exactly when no detection matched. */
  lemma {:induction false} NothingMatched(tax: UtilsTaxonomy.Taxonomy, dets: seq<Detection>)
    requires tax.Valid()
    ensures ResolveItems(tax, dets) == [] <==>
      forall j :: 0 <= j < |dets| ==> MapToTaxonomy(tax, dets[j].name).None?
    decreases |dets|
  {
    if dets != [] {
      var dets' := dets[..|dets| - 1];
      var last := |dets| - 1;
      var prefix := ResolveItems(tax, dets');
      var tail := ItemsOf(tax, dets[last]);
      assert ResolveItems(tax, dets) == prefix + tail;
      NothingMatched(tax, dets');
      if prefix == [] && tail == [] {
        assert MapToTaxonomy(tax, dets[last].name).None?;
        forall j | 0 <= j < |dets| ensures MapToTaxonomy(tax, dets[j].name).None? {
          if j < last {
            assert dets[j] == dets'[j];
            assert MapToTaxonomy(tax, dets'[j].name).None?;
          } else {
            assert j == last;
          }
        }
      } else if prefix != [] {
        var j :| 0 <= j < |dets'| && MapToTaxonomy(tax, dets'[j].name).Some?;
        assert dets[j] == dets'[j];
      } else {
        assert MapToTaxonomy(tax, dets[last].name).Some?;
      }
    }
  }

  /** With non-negative catalog values and non-negative portions, every
      total of a meal is non-negative. */
  lemma MealTotalsNonNegativeFromCatalog(tax: UtilsTaxonomy.Taxonomy, dets: seq<Detection>, mealId: string)
    requires tax.Valid()
    requires forall d :: d in tax.dishes ==> NonNegative(d.macrosPer100g)
    requires forall j :: 0 <= j < |dets| ==> dets[j].grams >= 0
    ensures var r := MealOutcome(tax, dets, mealId);
      r.Success? ==> forall k :: k in FieldSet ==> r.value.totals[k] >= 0.0
  {
    var items := ResolveItems(tax, dets);
    forall i | 0 <= i < |items| ensures NonNegative(items[i].macros) {
      ItemsFromMatches(tax, dets, i);
      var j :| 0 <= j < |dets| && MapToTaxonomy(tax, dets[j].name).Some? &&
        items[i] == ItemFor(dets[j], MapToTaxonomy(tax, dets[j].name).value);
      var dish := MapToTaxonomy(tax, dets[j].name).value;
      ScaleMacrosNonNegative(dish.macrosPer100g, dets[j].grams);
    }
    MealTotalsNonNegative(MacrosOf(items));
  }

  /** A detection nobody knows: the route answers 422. */
  lemma UnknownDishRejected(tax: UtilsTaxonomy.Taxonomy, mealId: string)
    requires tax.Valid()
    requires MapToTaxonomy(tax, "Unknown Dish").None?
    ensures MealOutcome(tax, [Detection("Unknown Dish", 150, 0.6, Some([]))], mealId)
      == Failure(HttpError(422, NoFoodDetail))
  {
  }
}
