/** app/utils/taxonomy.py: the Taxonomy the coach route uses. Lookups lower-case
    the query but do not trim it; a document without "dishes" or "version"
    is tolerated. */
module UtilsTaxonomy {
  import opened Wrappers
  import opened Text
  import opened Catalog

  const DefaultVersion := "test-1"

  class Taxonomy {
    var version: string
    var dishes: seq<Dish>
    var byName: map<string, Dish>

    /** The lookup table is the index of the dish list. */
    ghost predicate Valid()
      reads this
    {
      byName == IndexOf(dishes)
    }

    /** `__init__` after the JSON load: defaults for missing keys, then every
        dish's name followed by its aliases is written in catalog order. */
    constructor (doc: Document)
      ensures version == doc.version.GetOr(DefaultVersion)
      ensures dishes == doc.dishes.GetOr([])
      ensures Valid()
    {
      version := doc.version.GetOr(DefaultVersion);
      dishes := doc.dishes.GetOr([]);
      byName := map[];
      new;
      for i := 0 to |dishes|
        invariant version == doc.version.GetOr(DefaultVersion)
        invariant dishes == doc.dishes.GetOr([])
        invariant byName == IndexOf(dishes[..i])
      {
        var d := dishes[i];
        ghost var before := byName;
        byName := byName[Lower(d.name) := d];
        WriteName(before, d);
        var aliases := AliasesOf(d);
        for j := 0 to |aliases|
          invariant version == doc.version.GetOr(DefaultVersion)
          invariant dishes == doc.dishes.GetOr([])
          invariant byName == before + Entries(d, aliases[..j])
        {
          byName := byName[Lower(aliases[j]) := d];
          WriteAlias(before, d, aliases, j);
        }
        assert aliases[..|aliases|] == aliases;
        WriteDish(dishes, i);
      }
      assert dishes[..|dishes|] == dishes;
    }

    /** `match`: the dish indexed under the lower-cased query, if any. */
    function Match(raw: string): (r: Option<Dish>)
      reads this
      requires Valid()
      ensures r.Some? <==> exists j :: 0 <= j < |dishes| && Lower(raw) in DishKeys(dishes[j])
      ensures r.Some? ==> r.value in dishes
    {
      IndexKeys(dishes);
      if Lower(raw) in byName then
        IndexValues(dishes, Lower(raw));
        Some(byName[Lower(raw)])
      else None
    }

    /** `list_names`: one name per dish, in catalog order. */
    function ListNames(): (r: seq<string>)
      reads this
      ensures |r| == |dishes|
      ensures forall i :: 0 <= i < |dishes| ==> r[i] == dishes[i].name
    {
      Names(dishes)
    }
  }

  /** Lookups depend on the query only through its lower-cased form. */
  lemma MatchCaseInsensitive(t: Taxonomy, raw: string)
    requires t.Valid()
    ensures t.Match(raw) == t.Match(Lower(raw))
  {
    LowerIdempotent(raw);
  }

  /** On a key several dishes write, the last of them in catalog order is
      the answer; so a later dish's alias overrides an earlier dish's name. */
  lemma MatchLastWriteWins(t: Taxonomy, raw: string, j: int)
    requires t.Valid()
    requires 0 <= j < |t.dishes| && Lower(raw) in DishKeys(t.dishes[j])
    requires forall j' :: j < j' < |t.dishes| ==> Lower(raw) !in DishKeys(t.dishes[j'])
    ensures t.Match(raw) == Some(t.dishes[j])
  {
    IndexLastWriteWins(t.dishes, j, Lower(raw));
  }

  /** A catalog without collisions answers every name and alias, in any
      letter case, with its own dish. */
  lemma MatchOwnNames(t: Taxonomy, j: int, a: string, query: string)
    requires t.Valid() && KeysDisjoint(t.dishes)
    requires 0 <= j < |t.dishes| && (a == t.dishes[j].name || a in AliasesOf(t.dishes[j]))
    requires Lower(query) == Lower(a)
    ensures t.Match(query) == Some(t.dishes[j])
  {
    IndexOfDisjoint(t.dishes, j, a);
  }

  /** No trimming: when a word is a key but the word with one space on
      each side is not, the word is found and the padded query misses. */
  lemma MatchDoesNotTrim(t: Taxonomy, w: string, j: int)
    requires t.Valid()
    requires 0 <= j < |t.dishes| && Lower(w) in DishKeys(t.dishes[j])
    requires forall j' :: 0 <= j' < |t.dishes| ==> " " + Lower(w) + " " !in DishKeys(t.dishes[j'])
    ensures t.Match(w).Some?
    ensures t.Match(" " + w + " ") == None
  {
    LowerPadded(w);
  }
}
