/** The identifier table `dm_ativos`: one row per catalogue entry, with the
    normalised CNPJ and the category whose catalogue listed it. */
module Catalog {
  import opened Identifiers

  datatype AssetRow = AssetRow(cnpj: string, category: string)

  /** `df_temp`: one row per catalogue entry, in order, each carrying the
      category and an identifier that is the entry with its separators removed. */
  function Tagged(raw: seq<string>, category: string): (r: seq<AssetRow>)
    ensures |r| == |raw|
    ensures forall i :: 0 <= i < |raw| ==>
      r[i].category == category && NoSeparators(r[i].cnpj) && r[i].cnpj == WithoutSeparators(raw[i])
  {
    forall i | 0 <= i < |raw| {
      NormalizeKeepsOthersInOrder(raw[i]);
    }
    seq(|raw|, i requires 0 <= i < |raw| => AssetRow(Normalize(raw[i]), category))
  }

  /** `get_cnpj`: the rows already collected stay first and unchanged; after them
      come exactly the catalogue's entries, in order, each normalised and tagged
      with the category. Nothing is deduplicated. */
  function GetCnpj(table: seq<AssetRow>, raw: seq<string>, category: string): (r: seq<AssetRow>)
    ensures |r| == |table| + |raw|
    ensures r[..|table|] == table
    ensures forall i :: 0 <= i < |raw| ==> r[|table| + i].cnpj == Normalize(raw[i])
    ensures forall i :: |table| <= i < |r| ==> r[i].category == category && NoSeparators(r[i].cnpj)
  {
    table + Tagged(raw, category)
  }

  /** The table after the category loop has run over the first |categories|
      catalogues (`catalogs[k]` holds the raw CNPJs listed for `categories[k]`). */
  function LoadedTable(categories: seq<string>, catalogs: seq<seq<string>>): seq<AssetRow>
    requires |categories| == |catalogs|
  {
    if categories == [] then []
    else
      var n := |categories| - 1;
      GetCnpj(LoadedTable(categories[..n], catalogs[..n]), catalogs[n], categories[n])
  }

  function TotalLength(catalogs: seq<seq<string>>): nat {
    if catalogs == [] then 0 else TotalLength(catalogs[..|catalogs| - 1]) + |catalogs[|catalogs| - 1]|
  }

  /** The loaded table has one row per catalogue entry (duplicates kept), every
      identifier is free of separators, and every row carries one of the
      configured categories. */
  lemma {:induction false} LoadedTableShape(categories: seq<string>, catalogs: seq<seq<string>>)
    requires |categories| == |catalogs|
    ensures |LoadedTable(categories, catalogs)| == TotalLength(catalogs)
    ensures forall r :: r in LoadedTable(categories, catalogs) ==> NoSeparators(r.cnpj) && r.category in categories
  {
    if categories != [] {
      var n := |categories| - 1;
      var prev := LoadedTable(categories[..n], catalogs[..n]);
      LoadedTableShape(categories[..n], catalogs[..n]);
      var t := LoadedTable(categories, catalogs);
      forall r | r in t
        ensures NoSeparators(r.cnpj) && r.category in categories
      {
        var i :| 0 <= i < |t| && t[i] == r;
        if i < |prev| {
          assert t[..|prev|][i] == r;
        }
      }
    }
  }

  /** The category loop of the batch run and of `webscrapping`. The catalogue files
      are read by the caller: `catalogs[k]` is what the file of `categories[k]` lists. */
  method LoadCatalogs(categories: seq<string>, catalogs: seq<seq<string>>) returns (table: seq<AssetRow>)
    requires |categories| == |catalogs|
    ensures table == LoadedTable(categories, catalogs)
    ensures |table| == TotalLength(catalogs)
  {
    table := [];
    var k := 0;
    while k < |categories|
      invariant 0 <= k <= |categories|
      invariant table == LoadedTable(categories[..k], catalogs[..k])
    {
      assert categories[..k + 1][..k] == categories[..k];
      assert catalogs[..k + 1][..k] == catalogs[..k];
      table := GetCnpj(table, catalogs[k], categories[k]);
      k := k + 1;
    }
    assert categories[..k] == categories && catalogs[..k] == catalogs;
    LoadedTableShape(categories, catalogs);
  }
}
