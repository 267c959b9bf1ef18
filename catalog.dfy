/**
 * What the storefront does with the feed's records (App.jsx:122-124) and how the
 * search box narrows the catalog (App.jsx:128).
 */
module Catalog {
  import Text
  import Lists
  import opened Csv
  import opened Products

  /** Every parsed record normalized (App.jsx:123). */
  function NormalizeAll(records: seq<Record>): (r: seq<Product>)
    ensures |r| == |records| && forall i :: 0 <= i < |records| ==> r[i] == Normalize(records[i])
  {
    Lists.Map(records, Normalize)
  }

  predicate IsActive(p: Product)
  {
    p.active
  }

  /** The normalized records that are active, in feed order (App.jsx:123). */
  function Loaded(records: seq<Record>): (r: seq<Product>)
    ensures forall i :: 0 <= i < |r| ==> r[i].active && r[i] in NormalizeAll(records)
    ensures Lists.IsSubsequence(r, NormalizeAll(records))
  {
    Lists.FilterIsSubsequence(NormalizeAll(records), IsActive);
    Lists.Filter(NormalizeAll(records), IsActive)
  }

  /** Every record that normalizes to an active product contributes it. */
  lemma LoadedIncludes(records: seq<Record>, i: nat)
    requires i < |records| && Normalize(records[i]).active
    ensures Normalize(records[i]) in Loaded(records)
  {
    var all := NormalizeAll(records);
    assert all[i] == Normalize(records[i]) && IsActive(all[i]);
  }

  /** Loading record by record: the loaded list of a concatenation is the concatenation of the loaded lists. */
  lemma LoadedAppend(a: seq<Record>, b: seq<Record>)
    ensures Loaded(a + b) == Loaded(a) + Loaded(b)
  {
    Lists.MapAppend(a, b, Normalize);
    Lists.FilterAppend(NormalizeAll(a), NormalizeAll(b), IsActive);
  }

  /** One record contributes its product when it is active and nothing otherwise. */
  lemma LoadedSingle(x: Record)
    ensures Loaded([x]) == if Normalize(x).active then [Normalize(x)] else []
  {
    assert NormalizeAll([x]) == [Normalize(x)];
    assert [Normalize(x)][1..] == [];
  }

  /** The catalog replaces the current one only when it is non-empty (App.jsx:124). */
  function NextCatalog(current: seq<Product>, records: seq<Record>): (r: seq<Product>)
    ensures (exists i :: 0 <= i < |records| && Normalize(records[i]).active) ==> r == Loaded(records)
    ensures (forall i :: 0 <= i < |records| ==> !Normalize(records[i]).active) ==> r == current
  {
    LoadedNonEmpty(records);
    var list := Loaded(records);
    if |list| > 0 then list else current
  }

  /** The loaded list is non-empty exactly when some record normalizes to an active product. */
  lemma LoadedNonEmpty(records: seq<Record>)
    ensures |Loaded(records)| > 0 <==> exists i :: 0 <= i < |records| && Normalize(records[i]).active
  {
    if |Loaded(records)| > 0 {
      LoadedFirst(records);
    }
    if exists i :: 0 <= i < |records| && Normalize(records[i]).active {
      var i :| 0 <= i < |records| && Normalize(records[i]).active;
      LoadedIncludes(records, i);
    }
  }

  /** A non-empty loaded list comes from at least one active record. */
  lemma LoadedFirst(records: seq<Record>)
    requires |Loaded(records)| > 0
    ensures exists i :: 0 <= i < |records| && Normalize(records[i]).active
  {
    var all := NormalizeAll(records);
    Lists.FilterNonEmpty(all, IsActive);
    var i :| 0 <= i < |all| && IsActive(all[i]);
    assert all[i] == Normalize(records[i]);
  }

  /**
   * The search test (App.jsx:128): the name and the brand joined by a space,
   * lower-cased, contain the lower-cased query.
   */
  predicate Matches(query: string, p: Product)
  {
    Text.Contains(Text.Lower(p.name + " " + p.brand), Text.Lower(query))
  }

  /** The products shown for a query: those whose name and brand contain it, in catalog order. */
  function Search(catalog: seq<Product>, query: string): (r: seq<Product>)
    ensures forall i :: 0 <= i < |r| ==> r[i] in catalog && Matches(query, r[i])
    ensures forall i :: 0 <= i < |catalog| && Matches(query, catalog[i]) ==> catalog[i] in r
    ensures Lists.IsSubsequence(r, catalog)
  {
    Lists.FilterIsSubsequence(catalog, p => Matches(query, p));
    Lists.Filter(catalog, p => Matches(query, p))
  }

  /** An empty query shows the whole catalog. */
  lemma SearchEmpty(catalog: seq<Product>)
    ensures Search(catalog, "") == catalog
  {
    assert Text.Lower("") == "";
    forall i | 0 <= i < |catalog| ensures Matches("", catalog[i]) {
      Text.ContainsEmpty(Text.Lower(catalog[i].name + " " + catalog[i].brand));
    }
    Lists.FilterAll(catalog, p => Matches("", p));
  }

  /** Searching the result of a search again changes nothing. */
  lemma SearchIdempotent(catalog: seq<Product>, query: string)
    ensures Search(Search(catalog, query), query) == Search(catalog, query)
  {
    Lists.FilterAll(Search(catalog, query), p => Matches(query, p));
  }

  /** A query that contains another one shows no product the other one hides. */
  lemma SearchNarrows(catalog: seq<Product>, shorter: string, longer: string)
    requires Text.Contains(Text.Lower(longer), Text.Lower(shorter))
    ensures forall p :: p in Search(catalog, longer) ==> p in Search(catalog, shorter)
  {
    forall p | p in Search(catalog, longer) ensures p in Search(catalog, shorter) {
      var i :| 0 <= i < |Search(catalog, longer)| && Search(catalog, longer)[i] == p;
      Text.ContainsTransitive(Text.Lower(p.name + " " + p.brand), Text.Lower(longer), Text.Lower(shorter));
      var j :| 0 <= j < |catalog| && catalog[j] == p;
    }
  }
}
