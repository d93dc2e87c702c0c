# Food coach: nutrition resolution pipeline

This project is a Dafny model of the food-coach backend's photo route. The route
maps detected food names to a dish catalog and scales each matched dish's
per-100 g nutrients to the detected portion. It then sums the portions into meal
totals, computes what remains of the daily targets, and picks a coaching message.
The model covers:

- **Nutrition arithmetic** (`Nutrition`, `Rounding`): `scale_macros`,
  `sum_macros`, `remaining` and `simple_coach_reply` over the five fields
  calories, protein, carbs, fat and fiber.
  - Nutrient values are exact reals, or `NonFinite` for NaN and infinities.
  - Python's `round(x, 1)` is `Round1`: the nearest tenth, with a tie going to
    the even tenth.
  - `sum_macros` is written as the nested loop it is (`SumMacros`). It is proved
    equal to `MealTotals`, a function that rounds each field's exact sum once.
- **Catalog index** (`Catalog`): what both Taxonomy classes build.
  - For each dish, in catalog order, the lower-cased name is written first and
    then each lower-cased alias.
  - When two writes hit the same key, the later one wins.
- **The two Taxonomy classes** (`UtilsTaxonomy`, `AppTaxonomy`). Each is a class
  whose constructor fills its index field in nested loops, proved against the
  index function.
  - The `app/utils/taxonomy.py` variant lower-cases the query and does not trim
    it. It tolerates a document without "dishes" or "version".
  - The `app/taxonomy.py` variant rejects the empty string, and trims and
    lower-cases the query. It lists names with Python's slice rule. Its static
    scaler keeps the input's own keys.
- **The coach route** (`Coach`):
  - the two-step lookup fallback;
  - the deterministic vision stub;
  - the loop that builds the `items` and `macro_list` lists side by side, with
    a 422 when nothing matched;
  - the totals, remainder and reply;
  - the 415 from image validation;
  - the stored upload's name.
- **Image helpers** (`ImageIO`):
  - the 8 MB size gate, followed by every later error collapsing into one
    message;
  - the depth coverage percentage;
  - the extension rule of `hashed_filename`.
- **Shared helpers**: `Text` holds ASCII `lower`, `strip` and
  `split(".")[-1]`. `Wrappers` holds `Option` and `Result`.
- **Worked example** (`Scenarios`): one Greek Salad of 200 g followed through
  every stage.

Inputs the model takes instead of computing or fetching them:
- the parsed catalog document (not the JSON file);
- what the image library decodes, or the pixel values it reads;
- the SHA-256 hex digest;
- the meal id.

## Model

| member | source | states |
|---|---|---|
| Nutrition.FieldsEnumerateFieldSet | app/utils/nutrition.py:5 | FIELDS lists five distinct names, and they are exactly the field set |
| Nutrition.ValueOr0 | app/utils/nutrition.py:8 | `.get(k, 0.0)`: a missing key reads as finite 0.0, a present key as its value |
| Nutrition.ScaleValue | app/utils/nutrition.py:8 | a scaled value is finite iff its input is; a finite one is `Round1(v * grams / 100)` |
| Nutrition.ScaleMacros | app/utils/nutrition.py:7-8 | the result has exactly the five fields; a field missing from the input is 0.0; a present field is its scaled value |
| Nutrition.ScaleZero | app/utils/nutrition.py:8 | a missing field scales to 0.0 for every weight |
| Nutrition.ScaleValueNonNegative | app/utils/nutrition.py:8 | a non-negative value at a non-negative weight scales to a non-negative value |
| Nutrition.ScaleMacrosNonNegative | app/utils/nutrition.py:8 | non-negative per-100 g values and grams >= 0 give non-negative scaled fields |
| Nutrition.ScaleValueClose | app/utils/nutrition.py:8 | a scaled value lies within 0.05 of the exact product |
| Nutrition.ScaleLinear | app/utils/nutrition.py:8 | doubling the portion doubles a scaled value, within 0.15 of rounding slack |
| Nutrition.Contribution | app/utils/nutrition.py:14-16 | an item adds its finite value to a field, and 0 when the field is missing or NaN/infinite |
| Nutrition.MealTotals | app/utils/nutrition.py:10-17 | the totals have exactly the five fields, each the rounded exact sum of the finite contributions |
| Nutrition.AddItem | app/utils/nutrition.py:13-16 | one pass of the inner loop keeps the key set of the running totals |
| Nutrition.AddItemField | app/utils/nutrition.py:13-16 | over distinct fields, one pass adds to field k exactly its contribution when k is visited, and nothing otherwise |
| Nutrition.Accumulated | app/utils/nutrition.py:11-16 | the running totals always have exactly the five fields |
| Nutrition.AccumulatedIsFieldSum | app/utils/nutrition.py:11-16 | after any prefix of items, each running total is that prefix's exact field sum |
| Nutrition.AddItemStep | app/utils/nutrition.py:13-16 | one step of the inner loop adds field `ks[j]` of the item when it is finite |
| Nutrition.FieldsAreKeys | app/utils/nutrition.py:11-13 | every field the inner loop visits is a key of the running totals |
| Nutrition.SumMacros | app/utils/nutrition.py:10-17 | the nested loop followed by the final rounding computes exactly `MealTotals(items)` |
| Nutrition.RoundedAccumulated | app/utils/nutrition.py:17 | rounding the accumulated totals field by field gives `MealTotals` |
| Nutrition.FieldSum | app/utils/nutrition.py:12-16 | the exact, unrounded sum of the items' contributions to field k, in list order; its properties are the FieldSum lemmas below |
| Nutrition.FieldSumSnoc | app/utils/nutrition.py:12-16 | one more item adds exactly its contribution to the field sum |
| Nutrition.FieldSumConcat | app/utils/nutrition.py:12-16 | the exact field sum of `a + b` is the sum of `a` plus the sum of `b` |
| Nutrition.MealTotalsEmpty | app/utils/nutrition.py:11-17 | summing no items gives 0.0 in every field |
| Nutrition.NonFiniteSkipped | app/utils/nutrition.py:14-16 | an item whose field is NaN/infinite leaves that field's total unchanged |
| Nutrition.NonFiniteIsolated | app/utils/nutrition.py:14-16 | making one field of an item non-finite leaves every other field's total as it was |
| Nutrition.FieldSumWithout | app/utils/nutrition.py:12-16 | removing item i removes exactly its contribution from the field sum |
| Nutrition.FieldSumPermutation | app/utils/nutrition.py:10-16 | two item lists with the same multiset have the same exact field sums |
| Nutrition.MealTotalsPermutation | app/utils/nutrition.py:10-17 | the meal totals do not depend on item order |
| Nutrition.FieldSumNonNegative | app/utils/nutrition.py:12-16 | items whose finite values are all non-negative have a non-negative field sum |
| Nutrition.MealTotalsNonNegative | app/utils/nutrition.py:10-17 | items whose finite values are all non-negative give non-negative totals |
| Nutrition.EffectiveTargets | app/utils/nutrition.py:20 | `targets or DEFAULT_TARGETS`: None or an empty mapping gives the defaults; any other mapping is used as given |
| Nutrition.Get | app/utils/nutrition.py:21 | `.get(k, 0.0)` on finite mappings |
| Nutrition.Max | app/utils/nutrition.py:21 | `max` is an upper bound of both arguments and equal to one of them |
| Nutrition.Remaining | app/utils/nutrition.py:19-21 | the remainder has exactly the five fields, whatever keys the targets or totals have |
| Nutrition.Shortfall | app/utils/nutrition.py:21 | the rounded, floored difference is never negative |
| Nutrition.RemainingNonNegative | app/utils/nutrition.py:21 | no remaining value is negative |
| Nutrition.RemainingAgainstTarget | app/utils/nutrition.py:20-21 | under the target the remainder is `Round1(target - total)`; once the total reaches the target it is 0.0; a missing key counts as 0 |
| Nutrition.CoachReply | app/utils/nutrition.py:23-28 | the reply is one of the three messages; protein >= 25 iff "Great protein hit!"; protein < 25 and fat >= 20 iff "Go easy on the fats!"; both under iff "Nice balanced meal!" |
| Nutrition.ProteinRuleFirst | app/utils/nutrition.py:24-27 | protein 30 with fat 25 gets the protein message: the protein rule wins |
| Rounding.Round1 | app/utils/nutrition.py:8 | `round(x, 1)` gives a whole number of tenths within 0.05 of x, and keeps x >= 0 non-negative |
| Rounding.Round1OfTenths | app/utils/nutrition.py:17 | a value with one decimal is a fixed point of rounding |
| Rounding.Round1Fixed | app/utils/nutrition.py:17 | every whole number of tenths is a fixed point of rounding |
| Rounding.Round1Idempotent | app/utils/nutrition.py:17 | rounding twice is rounding once |
| Rounding.Round1Monotone | app/utils/image_io.py:35 | rounding preserves order |
| Text.IsSpace | app/taxonomy.py:17 | Python's whitespace among ASCII characters: space, tab to carriage return (9-13) and the separators 28-31 |
| Text.LowerChar | app/utils/taxonomy.py:20 | ASCII lower-casing of one character: upper-case letters shift by 32, everything else is kept, whitespace is preserved |
| Text.Lower | app/utils/taxonomy.py:20 | `str.lower` keeps the length and lower-cases each character |
| Text.LowerIdempotent | app/utils/taxonomy.py:20 | lower-casing twice is lower-casing once |
| Text.LowerSlice | app/utils/taxonomy.py:20 | lower-casing commutes with slicing |
| Text.LowerPadded | app/utils/taxonomy.py:20 | lower-casing a word padded with one space on each side pads the lower-cased word |
| Text.StripStart | app/taxonomy.py:17 | `lstrip` removes exactly the leading whitespace: a suffix, all whitespace before it, and a non-space first character |
| Text.StripEnd | app/taxonomy.py:17 | `rstrip` removes exactly the trailing whitespace: a prefix, all whitespace after it, and a non-space last character |
| Text.Strip | app/taxonomy.py:17 | a stripped string is empty or starts and ends with non-whitespace |
| Text.StripSlice | app/taxonomy.py:17 | `strip` keeps a contiguous slice of the input that starts after the leading whitespace, with only whitespace before and after it |
| Text.Core | app/taxonomy.py:17 | a prefix of a suffix of s, with whitespace before the suffix and after the prefix, is a slice of s with only whitespace outside it |
| Text.StripStartLower | app/taxonomy.py:17 | `lstrip` and `lower` commute |
| Text.StripEndLower | app/taxonomy.py:17 | `rstrip` and `lower` commute |
| Text.StripLowerCommute | app/taxonomy.py:17 | `strip` and `lower` commute |
| Text.StripIdempotent | app/taxonomy.py:17 | stripping twice is stripping once |
| Text.LastSegment | app/utils/image_io.py:47 | `split(".")[-1]` is the longest dot-free suffix: it is all of the name, or it directly follows a "." |
| Text.LastSegmentAfterDot | app/utils/image_io.py:47 | the text after a final "." is the last segment, whatever comes before |
| Catalog.AliasesOf | app/utils/taxonomy.py:16 | `d.get("aliases", [])`: no aliases field gives [], otherwise its list |
| Catalog.AliasKeys | app/utils/taxonomy.py:16-17 | the alias keys are exactly the lower-cased aliases |
| Catalog.DishKeys | app/utils/taxonomy.py:15-17 | the keys the build writes for one dish; stated by `DishKeysOf` |
| Catalog.DishKeysOf | app/utils/taxonomy.py:15-17 | a key belongs to a dish iff it is the lower-cased name or some lower-cased alias |
| Catalog.Entries | app/utils/taxonomy.py:15-17 | one dish writes its lower-cased name and aliases, each pointing at that dish |
| Catalog.IndexOf | app/utils/taxonomy.py:14-17 | the index built by writing the dishes in catalog order, name before aliases, a later write replacing an earlier one; its properties are `IndexKeys`, `IndexLastWriteWins` and `IndexValues` |
| Catalog.WriteName | app/utils/taxonomy.py:15 | writing the name starts the dish's entries |
| Catalog.WriteAlias | app/utils/taxonomy.py:16-17 | writing alias j extends the dish's entries by that alias |
| Catalog.WriteDish | app/utils/taxonomy.py:14-17 | writing dish i turns the index of the dishes before it into the index up to it |
| Catalog.IndexKeySet | app/utils/taxonomy.py:14-17 | the index keys are the union of all dishes' keys |
| Catalog.AllKeysMembership | app/utils/taxonomy.py:14-17 | a key was written iff some dish writes it |
| Catalog.AllKeysHas | app/utils/taxonomy.py:14-17 | every key of every dish is written |
| Catalog.AllKeysWitness | app/utils/taxonomy.py:14-17 | every written key is a key of some dish |
| Catalog.IndexKeys | app/utils/taxonomy.py:14-17 | a string is an index key iff it is some dish's lower-cased name or alias |
| Catalog.IndexLastWriteWins | app/utils/taxonomy.py:14-17 | a key maps to the last dish, in catalog order, that writes it |
| Catalog.IndexValues | app/utils/taxonomy.py:14-17 | every index value is a dish of the catalog |
| Catalog.IndexOfDisjoint | app/utils/taxonomy.py:14-17 | in a catalog without key collisions every name and alias is indexed to its own dish |
| Catalog.Names | app/utils/taxonomy.py:23 | one name per dish, in catalog order |
| Catalog.TakePrefix | app/taxonomy.py:20 | Python's `[:k]`: the first min(k, n) elements for k >= 0; for negative k, all but the last -k |
| UtilsTaxonomy.Taxonomy.constructor | app/utils/taxonomy.py:10-17 | version defaults to "test-1"; dishes default to []; the lookup table is the index of the dishes, built in catalog order with the name before the aliases |
| UtilsTaxonomy.Taxonomy.Match | app/utils/taxonomy.py:19-20 | there is a hit iff the lower-cased query is some dish's name or alias key; a hit is a catalog dish |
| UtilsTaxonomy.Taxonomy.ListNames | app/utils/taxonomy.py:22-23 | one name per dish, in catalog order |
| UtilsTaxonomy.MatchCaseInsensitive | app/utils/taxonomy.py:20 | a lookup depends only on the lower-cased query |
| UtilsTaxonomy.MatchLastWriteWins | app/utils/taxonomy.py:14-17 | on a shared key the last dish that writes it is the answer, so a later dish's alias overrides an earlier dish's name |
| UtilsTaxonomy.MatchOwnNames | app/utils/taxonomy.py:14-20 | without collisions, every name and alias, in any case, finds its own dish |
| UtilsTaxonomy.MatchDoesNotTrim | app/utils/taxonomy.py:20 | a word that is a key is found, while the same word with one space on each side, not itself a key, misses |
| AppTaxonomy.Taxonomy.constructor | app/taxonomy.py:6-12 | needs "dishes"; keeps the document; the index is the catalog index, with the same key set and last-write-wins rule |
| AppTaxonomy.Taxonomy.Match | app/taxonomy.py:14-17 | "" gives None; otherwise there is a hit iff the stripped, lower-cased query is a key; a hit is a catalog dish |
| AppTaxonomy.Taxonomy.Suggestions | app/taxonomy.py:19-20 | the first min(k, n) dish names in catalog order (default k = 3); Python's rule for negative k |
| AppTaxonomy.Taxonomy.ScaleMacros | app/taxonomy.py:22-25 | keeps exactly the input's keys; each value is `Round1(v * grams / 100)`, with non-finite values kept non-finite |
| AppTaxonomy.ScaleBy | app/taxonomy.py:25 | `round(v * factor, 1)`: finite iff its input is |
| AppTaxonomy.ScaleByFactor | app/taxonomy.py:24-25 | multiplying by `grams / 100.0` scales exactly as `v * grams / 100.0` does |
| AppTaxonomy.MatchNormalizes | app/taxonomy.py:17 | unless the query is all whitespace, its lookup equals that of its stripped, lower-cased form |
| AppTaxonomy.StripPadded | app/taxonomy.py:17 | one space on each side of a word is stripped away |
| AppTaxonomy.MatchIgnoresPadding | app/taxonomy.py:17 | `match(" Greek Salad ")` is `match("greek salad")`, for any word in place of the dish name |
| AppTaxonomy.MatchLastWriteWins | app/taxonomy.py:8-12 | the last dish writing the normalised query's key is the answer |
| AppTaxonomy.ScalersAgreeOnFields | app/taxonomy.py:22-25 | on a nutrient field present in the input the two scalers give the same value |
| ImageIO.LoadImage | app/utils/image_io.py:12-19 | success iff decoding succeeds with format JPEG, PNG or WEBP; another format raises the unsupported-format error |
| ImageIO.ValidateImage | app/utils/image_io.py:9-21 | over 8 MB fails "too large" before decoding; otherwise success iff the format is accepted; every other failure is "Invalid or corrupted image.", never the unsupported-format message |
| ImageIO.CountPositive | app/utils/image_io.py:34 | counts positive pixels: at most all of them; 0 iff none is positive; all iff every one is |
| ImageIO.DepthCoverage | app/utils/image_io.py:23-37 | 0.0 for empty input, an unreadable image or no pixels; otherwise the rounded percentage of positive pixels; always in [0, 100] |
| ImageIO.PercentageBound | app/utils/image_io.py:35 | a rounded share of at most the whole lies in [0, 100] |
| ImageIO.ShareBound | app/utils/image_io.py:35 | a part of a positive whole is a share in [0, 1] |
| ImageIO.StoredExtension | app/utils/image_io.py:47-49 | always jpg, jpeg, png or webp: the lower-cased last segment when allowed, else "jpg" |
| ImageIO.DigestPrefix | app/utils/image_io.py:46 | `[:16]`: the first 16 digest characters, or all of them when there are fewer |
| ImageIO.HashedFilename | app/utils/image_io.py:45-50 | the name is exactly the digest prefix, a "." and the stored extension: its length is their total and each part sits in place |
| ImageIO.JoinParts | app/utils/image_io.py:50 | `f"{h}.{ext}"` has length len(h) + 1 + len(ext), with h first, then ".", then ext |
| ImageIO.NoDotInPrefix | app/utils/image_io.py:46 | a prefix of a dot-free digest is dot-free |
| ImageIO.StoredNameKeepsExtension | app/utils/image_io.py:45-50 | a stored name's extension is the stored extension of the original name, so storing again keeps it |
| ImageIO.AllowedExtensionIsPlain | app/utils/image_io.py:48 | the allowed extensions are lower-case and have no "." |
| Coach.MapToTaxonomy | app/routes/coach.py:14-15 | the raw query's hit if there is one, else the hit of the stripped, lower-cased query; always a catalog dish |
| Coach.MapToTaxonomyHits | app/routes/coach.py:14-15 | a name resolves iff its lower-cased or stripped lower-cased form is some dish's key |
| Coach.VisionStub | app/routes/coach.py:17-21 | exactly one detection |
| Coach.VisionStubIgnoresImage | app/routes/coach.py:17-21 | the detections do not depend on the image |
| Coach.ItemFor | app/routes/coach.py:49-56 | the `CoachItem` built from a detection and its dish, stated field by field by `ItemsOf` |
| Coach.ResolveItems | app/routes/coach.py:43-56 | a miss is skipped, so there are never more items than detections |
| Coach.ItemsOf | app/routes/coach.py:44-56 | one detection gives nothing on a miss, else its item: name and ingredients from the dish, grams, confidence and tags from the detection, scaled macros |
| Coach.MacrosOf | app/routes/coach.py:48-55 | `macro_list[i]` is `items[i].macros`, and the lengths agree |
| Coach.MealOutcome | app/routes/coach.py:40-63 | 422 "No recognizable foods..." iff no detection matched; otherwise the given meal id, slot "lunch", the resolved items, totals of their macros, remainder against the default targets, and `simple_coach_reply` of those totals, one of the three replies |
| Coach.MealOutcomeOf | app/routes/coach.py:58-63 | the response is the 422 when no item resolves, and otherwise the payload built from the resolved items and their totals |
| Coach.ResolveStep | app/routes/coach.py:43-56 | one more detection appends exactly its own items |
| Coach.MacrosOfAppend | app/routes/coach.py:48-55 | appending an item appends its macros to `macro_list` |
| Coach.ResolveMeal | app/routes/coach.py:40-63 | the loop with `continue`, two lists and the early 422 computes exactly `MealOutcome` |
| Coach.CoachPhoto | app/routes/coach.py:26-38 | a validation failure is a 415 with the validator's message (too large over 8 MB); otherwise the stub's detections are resolved |
| Coach.UploadName | app/routes/coach.py:33 | `file.filename or "upload.jpg"`: a missing or empty name gives "upload.jpg", any other is kept |
| Coach.StoredName | app/routes/coach.py:33 | the stored name is exactly the digest prefix, "." and an allowed extension taken from the upload name; with a missing or empty file name it is the prefix and ".jpg" |
| Coach.UploadNameIsJpg | app/routes/coach.py:33 | "upload.jpg" is stored with extension "jpg" |
| Coach.ResolveItemsAppend | app/routes/coach.py:43-56 | resolution distributes over concatenation, so items keep detection order |
| Coach.ResolveItemsSnoc | app/routes/coach.py:43-56 | a detection added at the end appends exactly its own items |
| Coach.ResolveItemsSingle | app/routes/coach.py:43-56 | one detection yields its item on a hit and nothing on a miss |
| Coach.ItemsFromMatches | app/routes/coach.py:44-56 | every item is the item of some matched detection and the dish it matched |
| Coach.NothingMatched | app/routes/coach.py:58-59 | there are no items iff no detection matched |
| Coach.MealTotalsNonNegativeFromCatalog | app/routes/coach.py:47-61 | non-negative catalog values and portions give non-negative meal totals |
| Coach.UnknownDishRejected | app/routes/coach.py:58-59 | a lone unknown detection is answered with 422 |
| Scenarios.SaladScaled | app/utils/nutrition.py:7-8 | 50/2/4/3/1 per 100 g at 200 g is 100/4/8/6/2 |
| Scenarios.SingleItemTotals | app/utils/nutrition.py:10-17 | a single item of finite one-decimal values is its own total |
| Scenarios.SaladSummed | app/utils/nutrition.py:10-17 | the salad portion alone sums to 100/4/8/6/2 |
| Scenarios.SaladRemainder | app/utils/nutrition.py:19-21 | those totals leave 1700/106/192/54/23 of the default targets |
| Scenarios.SaladReply | app/utils/nutrition.py:23-28 | those totals get "Nice balanced meal!" |
| Scenarios.SaladMeal | app/routes/coach.py:38-63 | a catalog whose "Greek Salad" has 50/2/4/3/1 per 100 g gives, for any upload, one 200 g item with macros 100/4/8/6/2, equal totals, remainder 1700/106/192/54/23 and the balanced reply |

## Left out

- HTTP and storage:
  - FastAPI routing, `UploadFile` reading and `HTTPException` mechanics. The 415 and 422 outcomes are an error datatype.
  - `make_upload_path`, `img_path.write_bytes`, the meal JSON save (`save_json`) and app/storage.py.
- Values that are inputs rather than computed:
  - The meal id (`uuid4`) is a parameter.
  - SHA-256 over the bytes and `time.time()` are replaced by a hex-digest parameter.
- Image library (PIL):
  - Opening, verifying and loading an image are one input, a decoded format or an error.
  - Mode conversion and `getdata` are one input, a pixel sequence or an error.
  - Pixels are integers. Tuple-valued pixels are not modelled.
- Reading data/taxonomy.json is not modelled. Each constructor takes the parsed document.
  - A dish record without `name` or `macros_per_100g` raises `KeyError` in the source; the `Dish` datatype always has both, so this cannot happen in the model.
  - A missing "aliases" or "ingredients" is an `Option`.
- IEEE floating point is not modelled. Arithmetic is on exact reals.
  - `Round1` rounds half to even on the exact value, not on the binary one.
  - NaN and both infinities are one `NonFinite` case.
  - Mappings handed to `remaining` hold finite reals. NaN or infinity inside its `max` is therefore not modelled.
- Unicode is not modelled:
  - `str.lower`, `str.strip` and `isspace` are their ASCII behaviour.
  - Non-ASCII case mappings and whitespace are not handled.
- The order of dictionary keys is not modelled. Mappings are Dafny maps.
- Other modules are not part of this model:
  - app/routes/vision.py, a random mock detector;
  - app/utils.py;
  - app/main.py;
  - the pydantic declarations in app/models.py and app/schemas.py. Their record shapes are mirrored as datatypes, and their field validation is not modelled.

Behaviour of the code that the model keeps as it is:
- The code has no check that rejects grams <= 0, so scaling accepts any weight.
- Duplicate names and aliases are not rejected. The last write wins.
- Caller-supplied targets replace the defaults wholesale. A field they lack counts as 0 rather than falling back to its default.
- The "dishes" key behaves differently in the two classes:
  - app/utils/taxonomy.py tolerates a missing key.
  - app/taxonomy.py requires it (`Taxonomy.constructor` requires `doc.dishes.Some?`, since the source raises `KeyError`).
- Only app/taxonomy.py's lookup trims the query. The coach route uses the utils variant, and recovers trimming through its second lookup.
- The unsupported-format message never reaches the caller. The outer `except` turns it into "Invalid or corrupted image.", and `ImageIO.ValidateImage` states this.
- The stub's detection carries the tags ["salad", "vegetarian"].
