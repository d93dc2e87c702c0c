/** app/taxonomy.py: the second Taxonomy. Its lookup rejects the empty string
    and trims the query before lower-casing it; its scaler keeps the input's
    own keys. */
module AppTaxonomy {
  import opened Wrappers
  import opened Text
  import opened Rounding
  import opened Nutrition
  import opened Catalog

  class Taxonomy {
    var data: Document
    var index: map<string, Dish>

    ghost predicate Valid()
      reads this
    {
      data.dishes.Some? && index == IndexOf(data.dishes.value)
    }

    /** The catalog's dishes (the source reads `data["dishes"]`). */
    function Dishes(): seq<Dish>
      reads this
      requires Valid()
    {
      data.dishes.value
    }

    /** `__init__` after the JSON load. The source indexes `data["dishes"]`
        directly, so a document without that key is not accepted. */
    constructor (doc: Document)
      requires doc.dishes.Some?
      ensures data == doc
      ensures Valid()
    {
      data := doc;
      index := map[];
      new;
      var dishes := doc.dishes.value;
      for i := 0 to |dishes|
        invariant data == doc
        invariant index == IndexOf(dishes[..i])
      {
        var d := dishes[i];
        ghost var before := index;
        index := index[Lower(d.name) := d];
        WriteName(before, d);
        var aliases := AliasesOf(d);
        for j := 0 to |aliases|
          invariant data == doc
          invariant index == before + Entries(d, aliases[..j])
        {
          index := index[Lower(aliases[j]) := d];
          WriteAlias(before, d, aliases, j);
        }
        assert aliases[..|aliases|] == aliases;
        WriteDish(dishes, i);
      }
      assert dishes[..|dishes|] == dishes;
    }

    /** `match`: nothing for the empty string; otherwise the dish indexed
        under the trimmed, lower-cased query. A query of spaces only is
        looked up as "". */
    function Match(raw: string): (r: Option<Dish>)
      reads this
      requires Valid()
      ensures raw == "" ==> r == None
      ensures raw != "" ==>
        (r.Some? <==> exists j :: 0 <= j < |Dishes()| && Lower(Strip(raw)) in DishKeys(Dishes()[j]))
      ensures r.Some? ==> r.value in Dishes()
    {
      if raw == "" then None
      else
        var key := Lower(Strip(raw));
        IndexKeys(Dishes());
        if key in index then
          IndexValues(Dishes(), key);
          Some(index[key])
        else None
    }

    /** `suggestions`: the first `topK` dish names in catalog order, with
        Python's slice rule for a negative `topK`. */
    function Suggestions(topK: int := 3): (r: seq<string>)
      reads this
      requires Valid()
      ensures 0 <= topK ==> |r| == (if topK < |Dishes()| then topK else |Dishes()|)
      ensures topK < 0 ==> |r| == (if |Dishes()| + topK > 0 then |Dishes()| + topK else 0)
      ensures |r| <= |Dishes()|
      ensures forall i :: 0 <= i < |r| ==> r[i] == Dishes()[i].name
    {
      TakePrefix(Names(Dishes()), topK)
    }

    /** `scale_macros` (static): the input's own keys, each value multiplied
        by `grams / 100.0` and rounded to one decimal. */
    static function ScaleMacros(per100g: MacroMap, grams: int): (r: MacroMap)
      ensures r.Keys == per100g.Keys
      ensures forall k :: k in per100g ==> r[k] == ScaleValue(per100g[k], grams)
    {
      var factor := grams as real / 100.0;
      forall k | k in per100g ensures ScaleBy(per100g[k], factor) == ScaleValue(per100g[k], grams) {
        ScaleByFactor(per100g[k], grams);
      }
      map k | k in per100g :: ScaleBy(per100g[k], factor)
    }
  }

  /** `round(v * factor, 1)`; NaN and infinities stay non-finite. */
  function ScaleBy(v: Num, factor: real): (s: Num)
    ensures s.Finite? <==> v.Finite?
    ensures v.Finite? ==> s.r == Round1(v.r * factor)
  {
    if v.Finite? then Finite(Round1(v.r * factor)) else NonFinite
  }

  /** Surrounding whitespace and letter case do not matter, as long as the
      query is not all whitespace. */
  lemma MatchNormalizes(t: Taxonomy, raw: string)
    requires t.Valid() && Strip(raw) != ""
    ensures t.Match(raw) == t.Match(Lower(Strip(raw)))
  {
    var s := Strip(raw);
    StripLowerCommute(s);
    StripIdempotent(raw);
    LowerIdempotent(s);
    assert Lower(s) != "";
  }

  /** `v * (grams / 100.0)` and `v * grams / 100.0` are the same real. */
  lemma ScaleByFactor(v: Num, grams: int)
    ensures ScaleBy(v, grams as real / 100.0) == ScaleValue(v, grams)
  {
    if v.Finite? {
      assert v.r * (grams as real / 100.0) == v.r * grams as real / 100.0;
    }
  }

  /** One space on each side of a word that has none at its ends is trimmed. */
  lemma StripPadded(w: string)
    requires w != [] && !IsSpace(w[0]) && !IsSpace(w[|w| - 1])
    ensures Strip(" " + w + " ") == w
  {
    var q := w + [' '];
    var p := [' '] + q;
    assert p == " " + w + " ";
    assert p[1..] == q;
    assert StripStart(p) == StripStart(q);
    assert q[0] == w[0];
    assert StripStart(q) == q;
    assert q[..|q| - 1] == w;
    assert StripEnd(q) == StripEnd(w);
    assert StripEnd(w) == w;
  }

  /** So `match(" Greek Salad ")` is `match("greek salad")`. */
  lemma MatchIgnoresPadding(t: Taxonomy, w: string)
    requires t.Valid()
    requires w != [] && !IsSpace(w[0]) && !IsSpace(w[|w| - 1])
    ensures t.Match(" " + w + " ") == t.Match(Lower(w))
  {
    StripPadded(w);
    MatchNormalizes(t, " " + w + " ");
  }

  lemma MatchLastWriteWins(t: Taxonomy, raw: string, j: int)
    requires t.Valid() && raw != ""
    requires 0 <= j < |t.Dishes()| && Lower(Strip(raw)) in DishKeys(t.Dishes()[j])
    requires forall j' :: j < j' < |t.Dishes()| ==> Lower(Strip(raw)) !in DishKeys(t.Dishes()[j'])
    ensures t.Match(raw) == Some(t.Dishes()[j])
  {
    IndexLastWriteWins(t.Dishes(), j, Lower(Strip(raw)));
  }

  /** On a nutrient field the input has, the two scalers agree; their key
      sets differ (the input's own keys here, always the five fields there). */
  lemma ScalersAgreeOnFields(per100g: MacroMap, grams: int, k: string)
    requires k in per100g && k in FieldSet
    ensures Taxonomy.ScaleMacros(per100g, grams)[k] == Nutrition.ScaleMacros(per100g, grams)[k]
  {
  }
}
