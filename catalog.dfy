/** The parsed dish catalog and the case-insensitive name/alias index that both
    Taxonomy classes build from it (app/utils/taxonomy.py, app/taxonomy.py). */
module Catalog {
  import opened Wrappers
  import opened Text
  import opened Nutrition

  /** A catalog record; `aliases` and `ingredients` may be absent. */
  datatype Dish = Dish(
    name: string,
    aliases: Option<seq<string>>,
    macrosPer100g: MacroMap,
    ingredients: Option<seq<string>>)

  /** The parsed catalog document; both top-level keys may be absent. */
  datatype Document = Document(version: Option<string>, dishes: Option<seq<Dish>>)

  /** `d.get("aliases", [])` */
  function AliasesOf(d: Dish): (a: seq<string>)
    ensures d.aliases.None? ==> a == []
    ensures d.aliases.Some? ==> a == d.aliases.value
  {
    d.aliases.GetOr([])
  }

  /** The lower-cased forms of `aliases`. */
  function AliasKeys(aliases: seq<string>): (ks: set<string>)
    ensures forall a :: a in aliases ==> Lower(a) in ks
    ensures forall k :: k in ks ==> exists a :: a in aliases && Lower(a) == k
  {
    if aliases == [] then {} else AliasKeys(aliases[..|aliases| - 1]) + {Lower(aliases[|aliases| - 1])}
  }

  /** Every key the index build writes for `d`: its lower-cased name and each
      lower-cased alias. */
  function DishKeys(d: Dish): set<string> {
    {Lower(d.name)} + AliasKeys(AliasesOf(d))
  }

  /** A key belongs to a dish iff it is the dish's lower-cased name or one of
      its lower-cased aliases. */
  lemma DishKeysOf(d: Dish, k: string)
    ensures k in DishKeys(d) <==> k == Lower(d.name) || exists a :: a in AliasesOf(d) && Lower(a) == k
  {
  }

  /** What writing the name and then the aliases `aliases` of `d` adds to the index:
      every one of those keys maps to `d`. */
  function Entries(d: Dish, aliases: seq<string>): (e: map<string, Dish>)
    ensures e.Keys == {Lower(d.name)} + AliasKeys(aliases)
    ensures forall k :: k in e ==> e[k] == d
  {
    map k | k in {Lower(d.name)} + AliasKeys(aliases) :: d
  }

  /** The index after the dishes `ds` were written in order; a later write to
      a key replaces an earlier one. */
  function IndexOf(ds: seq<Dish>): map<string, Dish> {
    if ds == [] then map[]
    else IndexOf(ds[..|ds| - 1]) + Entries(ds[|ds| - 1], AliasesOf(ds[|ds| - 1]))
  }

  /** Writing the name of `d` starts its entries. */
  lemma WriteName(m: map<string, Dish>, d: Dish)
    ensures m[Lower(d.name) := d] == m + Entries(d, [])
  {
  }

  /** Writing alias `j` of `d` extends its entries by that alias. */
  lemma WriteAlias(m: map<string, Dish>, d: Dish, aliases: seq<string>, j: int)
    requires 0 <= j < |aliases|
    ensures (m + Entries(d, aliases[..j]))[Lower(aliases[j]) := d] == m + Entries(d, aliases[..j + 1])
  {
    assert aliases[..j + 1][..j] == aliases[..j];
  }

  /** Writing all of dish `i` turns the index of the dishes before it into
      the index of the dishes up to it. */
  lemma WriteDish(ds: seq<Dish>, i: int)
    requires 0 <= i < |ds|
    ensures IndexOf(ds[..i + 1]) == IndexOf(ds[..i]) + Entries(ds[i], AliasesOf(ds[i]))
  {
    assert ds[..i + 1][..i] == ds[..i];
  }

  /** Every key written by the dishes `ds`. */
  ghost function AllKeys(ds: seq<Dish>): set<string> {
    if ds == [] then {} else AllKeys(ds[..|ds| - 1]) + DishKeys(ds[|ds| - 1])
  }

  lemma {:induction false} IndexKeySet(ds: seq<Dish>)
    ensures IndexOf(ds).Keys == AllKeys(ds)
    decreases |ds|
  {
    if ds != [] {
      IndexKeySet(ds[..|ds| - 1]);
    }
  }

  lemma AllKeysMembership(ds: seq<Dish>, k: string)
    ensures k in AllKeys(ds) <==> exists j :: 0 <= j < |ds| && k in DishKeys(ds[j])
  {
    if k in AllKeys(ds) {
      AllKeysWitness(ds, k);
    }
    forall j | 0 <= j < |ds| && k in DishKeys(ds[j]) ensures k in AllKeys(ds) {
      AllKeysHas(ds, j, k);
    }
  }

  /** A key of any dish was written. */
  lemma {:induction false} AllKeysHas(ds: seq<Dish>, j: int, k: string)
    requires 0 <= j < |ds| && k in DishKeys(ds[j])
    ensures k in AllKeys(ds)
    decreases |ds|
  {
    var ds' := ds[..|ds| - 1];
    assert AllKeys(ds) == AllKeys(ds') + DishKeys(ds[|ds| - 1]);
    if j < |ds| - 1 {
      assert ds'[j] == ds[j];
      AllKeysHas(ds', j, k);
    }
  }

  /** A written key comes from some dish. */
  lemma {:induction false} AllKeysWitness(ds: seq<Dish>, k: string)
    requires k in AllKeys(ds)
    ensures exists j :: 0 <= j < |ds| && k in DishKeys(ds[j])
    decreases |ds|
  {
    var ds' := ds[..|ds| - 1];
    assert AllKeys(ds) == AllKeys(ds') + DishKeys(ds[|ds| - 1]);
    if k in AllKeys(ds') {
      AllKeysWitness(ds', k);
      var j :| 0 <= j < |ds'| && k in DishKeys(ds'[j]);
      assert ds[j] == ds'[j];
    } else {
      assert k in DishKeys(ds[|ds| - 1]);
    }
  }

  /** The index's keys are exactly the dishes' lower-cased names and aliases. */
  lemma IndexKeys(ds: seq<Dish>)
    ensures forall k :: k in IndexOf(ds) <==> exists j :: 0 <= j < |ds| && k in DishKeys(ds[j])
  {
    IndexKeySet(ds);
    forall k ensures k in AllKeys(ds) <==> exists j :: 0 <= j < |ds| && k in DishKeys(ds[j]) {
      AllKeysMembership(ds, k);
    }
  }

  /** Last write wins: a key maps to the last dish, in catalog order, that
      writes it. */
  lemma {:induction false} IndexLastWriteWins(ds: seq<Dish>, j: int, k: string)
    requires 0 <= j < |ds| && k in DishKeys(ds[j])
    requires forall j' :: j < j' < |ds| ==> k !in DishKeys(ds[j'])
    ensures k in IndexOf(ds) && IndexOf(ds)[k] == ds[j]
    decreases |ds|
  {
    if j < |ds| - 1 {
      var ds' := ds[..|ds| - 1];
      assert ds'[j] == ds[j];
      IndexLastWriteWins(ds', j, k);
    }
  }

  /** Every value of the index is a dish of the catalog. */
  lemma {:induction false} IndexValues(ds: seq<Dish>, k: string)
    requires k in IndexOf(ds)
    ensures IndexOf(ds)[k] in ds
    decreases |ds|
  {
    if k !in DishKeys(ds[|ds| - 1]) {
      var ds' := ds[..|ds| - 1];
      IndexValues(ds', k);
    }
  }

  /** No key is written by two different dishes. */
  ghost predicate KeysDisjoint(ds: seq<Dish>) {
    forall i, j :: 0 <= i < j < |ds| ==> DishKeys(ds[i]) !! DishKeys(ds[j])
  }

  /** In a catalog without collisions every name and every alias of a dish
      is indexed to that dish. */
  lemma IndexOfDisjoint(ds: seq<Dish>, j: int, a: string)
    requires KeysDisjoint(ds)
    requires 0 <= j < |ds| && (a == ds[j].name || a in AliasesOf(ds[j]))
    ensures Lower(a) in IndexOf(ds) && IndexOf(ds)[Lower(a)] == ds[j]
  {
    forall j' | j < j' < |ds| ensures Lower(a) !in DishKeys(ds[j']) {
      assert DishKeys(ds[j]) !! DishKeys(ds[j']);
    }
    IndexLastWriteWins(ds, j, Lower(a));
  }

  /** `[d["name"] for d in dishes]` */
  function Names(ds: seq<Dish>): (r: seq<string>)
    ensures |r| == |ds|
    ensures forall i :: 0 <= i < |ds| ==> r[i] == ds[i].name
  {
    seq(|ds|, i requires 0 <= i < |ds| => ds[i].name)
  }

  /** Python's `s[:k]`: a negative `k` counts from the end. */
  function TakePrefix<T>(s: seq<T>, k: int): (r: seq<T>)
    ensures 0 <= k ==> r == s[..if k < |s| then k else |s|]
    ensures k < 0 ==> r == s[..if |s| + k > 0 then |s| + k else 0]
  {
    if k >= |s| then s
    else if k >= 0 then s[..k]
    else if |s| + k > 0 then s[..|s| + k]
    else []
  }
}
