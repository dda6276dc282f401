/**
 * The unit catalog: the dictionary from unit id to unit definition that the
 * entity manager builds from its serialized `unitDatas` array on Awake.
 */
module Catalog {
  import opened Units

  /** Some non-null entry of `ds` carries the id `id`. */
  predicate Declares(ds: seq<UnitData?>, id: int)
  {
    exists i | 0 <= i < |ds| :: ds[i] != null && ds[i].unitID == id
  }

  /** Entry `i` is the first non-null entry of `ds` that carries the id `id`. */
  predicate FirstWith(ds: seq<UnitData?>, id: int, i: int)
  {
    && 0 <= i < |ds| && ds[i] != null && ds[i].unitID == id
    && forall j | 0 <= j < i :: ds[j] == null || ds[j].unitID != id
  }

  /**
   * The dictionary the Awake loop leaves after visiting the entries of `ds`
   * in order: a null entry is skipped, and an entry whose id is already a key
   * is skipped, so the first entry with a given id is the one kept.
   */
  function CatalogOf(ds: seq<UnitData?>): (c: map<int, UnitData>)
    ensures forall id | id in c :: c[id].unitID == id
  {
    if ds == [] then map[]
    else
      var c := CatalogOf(ds[..|ds| - 1]);
      var d := ds[|ds| - 1];
      if d != null && d.unitID !in c then c[d.unitID := d] else c
  }

  /** The keys of the catalog are exactly the declared ids, and each maps to its first entry. */
  lemma {:induction false} CatalogLookup(ds: seq<UnitData?>, id: int)
    ensures id in CatalogOf(ds) <==> Declares(ds, id)
    ensures forall i | FirstWith(ds, id, i) :: id in CatalogOf(ds) && CatalogOf(ds)[id] == ds[i]
  {
    if ds != [] {
      var n := |ds| - 1;
      var p := ds[..n];
      CatalogLookup(p, id);
      assert forall i | 0 <= i < n :: p[i] == ds[i];
      if Declares(ds, id) && !Declares(p, id) {
        var i :| 0 <= i < |ds| && ds[i] != null && ds[i].unitID == id;
        assert i == n;
      }
      forall i | FirstWith(ds, id, i)
        ensures id in CatalogOf(ds) && CatalogOf(ds)[id] == ds[i]
      {
        if i < n {
          assert FirstWith(p, id, i);
        } else {
          assert !Declares(p, id);
        }
      }
    }
  }

  /** The Awake loop: clear the dictionary, then add each entry whose id is not yet a key. */
  method BuildCatalog(ds: seq<UnitData?>) returns (dic: map<int, UnitData>)
    ensures dic == CatalogOf(ds)
    ensures forall id :: id in dic <==> Declares(ds, id)
    ensures forall id, i | FirstWith(ds, id, i) :: id in dic && dic[id] == ds[i]
  {
    dic := map[];
    for i := 0 to |ds|
      invariant dic == CatalogOf(ds[..i])
    {
      assert ds[..i + 1][..i] == ds[..i];
      var d := ds[i];
      if d != null && d.unitID !in dic {
        dic := dic[d.unitID := d];
      }
    }
    assert ds[..|ds|] == ds;
    forall id ensures (id in dic <==> Declares(ds, id))
      && forall i | FirstWith(ds, id, i) :: id in dic && dic[id] == ds[i]
    {
      CatalogLookup(ds, id);
    }
  }

  /**
   * How the editor-side discovery orders the array: no null entries, ids
   * ascending (entries with equal ids are ordered by name).
   */
  predicate SortedById(ds: seq<UnitData?>)
  {
    && (forall i | 0 <= i < |ds| :: ds[i] != null)
    && forall i, j | 0 <= i < j < |ds| && ds[i] != null && ds[j] != null :: ds[i].unitID <= ds[j].unitID
  }
}
