/** The scrape loop: one request per identifier of the table, whose outcome either
    appends one entry to each of the ten field lists or appends the identifier to
    `list_not_found`; then the split of the table into not-found and remaining rows. */
module Fetch {
  import opened Wrappers
  import opened Identifiers
  import opened Records
  import opened Catalog

  /** What the request for one identifier yields: the fields extracted from the
      response, or an exception anywhere in the `try` block. */
  datatype Outcome = Fetched(record: FundRecord) | NotFound

  /** The ten lists `list_name`, `list_profitability_12m`, …, `list_sharpe_ratio_begin`. */
  datatype FieldLists = FieldLists(
    names: seq<string>,
    profitability12: seq<Option<real>>, volatility12: seq<Option<real>>,
    profitability36: seq<Option<real>>, volatility36: seq<Option<real>>,
    profitability60: seq<Option<real>>, volatility60: seq<Option<real>>,
    profitabilityBegin: seq<Option<real>>, volatilityBegin: seq<Option<real>>,
    sharpeRatioBegin: seq<Option<real>>)
  {
    /** All ten lists have the same length. */
    predicate Parallel() {
      var n := |names|;
      |profitability12| == n && |volatility12| == n &&
      |profitability36| == n && |volatility36| == n &&
      |profitability60| == n && |volatility60| == n &&
      |profitabilityBegin| == n && |volatilityBegin| == n &&
      |sharpeRatioBegin| == n
    }

    /** Position `i` of every list, read back as one fund record. */
    function Row(i: nat): FundRecord
      requires Parallel() && i < |names|
    {
      FundRecord(names[i],
        Stats(profitability12[i], volatility12[i]),
        Stats(profitability36[i], volatility36[i]),
        Stats(profitability60[i], volatility60[i]),
        Stats(profitabilityBegin[i], volatilityBegin[i]),
        sharpeRatioBegin[i])
    }

    /** The records the lists hold, one per position. */
    function Records(): (r: seq<FundRecord>)
      requires Parallel()
      ensures |r| == |names|
    {
      seq(|names|, i requires 0 <= i < |names| => Row(i))
    }
  }

  /** The ten lists holding `recs` field by field. */
  function Columns(recs: seq<FundRecord>): (r: FieldLists)
    ensures r.Parallel() && |r.names| == |recs|
    ensures forall i :: 0 <= i < |recs| ==> r.Row(i) == recs[i]
  {
    var n := |recs|;
    FieldLists(
      seq(n, i requires 0 <= i < n => recs[i].name),
      seq(n, i requires 0 <= i < n => recs[i].last12.profitability),
      seq(n, i requires 0 <= i < n => recs[i].last12.volatility),
      seq(n, i requires 0 <= i < n => recs[i].last36.profitability),
      seq(n, i requires 0 <= i < n => recs[i].last36.volatility),
      seq(n, i requires 0 <= i < n => recs[i].last60.profitability),
      seq(n, i requires 0 <= i < n => recs[i].last60.volatility),
      seq(n, i requires 0 <= i < n => recs[i].sinceBegin.profitability),
      seq(n, i requires 0 <= i < n => recs[i].sinceBegin.volatility),
      seq(n, i requires 0 <= i < n => recs[i].sharpeRatio))
  }

  /** Splitting records into lists and reading them back gives the records again. */
  lemma ColumnsThenRecords(recs: seq<FundRecord>)
    ensures Columns(recs).Records() == recs
  {
    var r := Columns(recs).Records();
    assert forall i :: 0 <= i < |recs| ==> r[i] == recs[i];
  }

  /** Parallel lists read as records and split again are the same lists. */
  lemma RecordsThenColumns(lists: FieldLists)
    requires lists.Parallel()
    ensures Columns(lists.Records()) == lists
  {
    var c := Columns(lists.Records());
    assert c.names == lists.names;
    assert c.profitability12 == lists.profitability12;
    assert c.volatility12 == lists.volatility12;
    assert c.profitability36 == lists.profitability36;
    assert c.volatility36 == lists.volatility36;
    assert c.profitability60 == lists.profitability60;
    assert c.volatility60 == lists.volatility60;
    assert c.profitabilityBegin == lists.profitabilityBegin;
    assert c.volatilityBegin == lists.volatilityBegin;
    assert c.sharpeRatioBegin == lists.sharpeRatioBegin;
  }

  /** The ten `append` calls of one successful iteration. */
  lemma ColumnsAppend(recs: seq<FundRecord>, rec: FundRecord)
    ensures Columns(recs + [rec]) == var c := Columns(recs);
      FieldLists(
        c.names + [rec.name],
        c.profitability12 + [rec.last12.profitability], c.volatility12 + [rec.last12.volatility],
        c.profitability36 + [rec.last36.profitability], c.volatility36 + [rec.last36.volatility],
        c.profitability60 + [rec.last60.profitability], c.volatility60 + [rec.last60.volatility],
        c.profitabilityBegin + [rec.sinceBegin.profitability], c.volatilityBegin + [rec.sinceBegin.volatility],
        c.sharpeRatioBegin + [rec.sharpeRatio])
  {
  }

  /** The records of the successful requests, in request order. */
  function Successes(outcomes: seq<Outcome>): (r: seq<FundRecord>)
    ensures |r| <= |outcomes|
  {
    if outcomes == [] then []
    else
      var n := |outcomes| - 1;
      Successes(outcomes[..n]) + (match outcomes[n] case Fetched(rec) => [rec] case NotFound => [])
  }

  /** `list_not_found`: the identifiers whose request failed, in request order. */
  function NotFoundIds(ids: seq<string>, outcomes: seq<Outcome>): (r: seq<string>)
    requires |ids| == |outcomes|
    ensures |r| <= |ids|
  {
    if ids == [] then []
    else
      var n := |ids| - 1;
      NotFoundIds(ids[..n], outcomes[..n]) + (if outcomes[n].NotFound? then [ids[n]] else [])
  }

  /** Every identifier is accounted for exactly once: either its record is among the
      successes or it is in the not-found list. */
  lemma {:induction false} EveryIdentifierOnce(ids: seq<string>, outcomes: seq<Outcome>)
    requires |ids| == |outcomes|
    ensures |Successes(outcomes)| + |NotFoundIds(ids, outcomes)| == |ids|
  {
    if ids != [] {
      var n := |ids| - 1;
      EveryIdentifierOnce(ids[..n], outcomes[..n]);
    }
  }

  /** An identifier is in the not-found list exactly when one of its requests failed. */
  lemma {:induction false} NotFoundMembers(ids: seq<string>, outcomes: seq<Outcome>)
    requires |ids| == |outcomes|
    ensures forall x :: x in NotFoundIds(ids, outcomes) <==>
      exists i :: 0 <= i < |ids| && outcomes[i].NotFound? && ids[i] == x
  {
    if ids != [] {
      var n := |ids| - 1;
      NotFoundMembers(ids[..n], outcomes[..n]);
      forall x | x in NotFoundIds(ids, outcomes)
        ensures exists i :: 0 <= i < |ids| && outcomes[i].NotFound? && ids[i] == x
      {
        if x in NotFoundIds(ids[..n], outcomes[..n]) {
          var i :| 0 <= i < n && outcomes[..n][i].NotFound? && ids[..n][i] == x;
          assert outcomes[i].NotFound? && ids[i] == x;
        } else {
          assert outcomes[n].NotFound? && ids[n] == x;
        }
      }
      forall x | exists i :: 0 <= i < |ids| && outcomes[i].NotFound? && ids[i] == x
        ensures x in NotFoundIds(ids, outcomes)
      {
        var i :| 0 <= i < |ids| && outcomes[i].NotFound? && ids[i] == x;
        if i < n {
          assert outcomes[..n][i].NotFound? && ids[..n][i] == x;
        }
      }
    }
  }

  /** The scrape loop. The network is the parameter `outcomes`: `outcomes[k]` is
      what the request for `ids[k]` yields. `count` goes up once per identifier;
      each successful iteration appends one entry to each of the ten lists, each
      failed one appends the identifier to `list_not_found`. */
  method Scrape(ids: seq<string>, outcomes: seq<Outcome>)
      returns (lists: FieldLists, notFound: seq<string>, count: nat)
    requires |outcomes| == |ids|
    ensures count == |ids|
    ensures lists.Parallel() && lists.Records() == Successes(outcomes)
    ensures notFound == NotFoundIds(ids, outcomes)
    ensures |lists.names| + |notFound| == |ids|
  {
    var listName: seq<string> := [];
    var listProfitability12m: seq<Option<real>> := [];
    var listVolatility12m: seq<Option<real>> := [];
    var listProfitability36m: seq<Option<real>> := [];
    var listVolatility36m: seq<Option<real>> := [];
    var listProfitability60m: seq<Option<real>> := [];
    var listVolatility60m: seq<Option<real>> := [];
    var listProfitabilityBegin: seq<Option<real>> := [];
    var listVolatilityBegin: seq<Option<real>> := [];
    var listSharpeRatioBegin: seq<Option<real>> := [];
    notFound := [];
    count := 0;
    var k := 0;
    while k < |ids|
      invariant 0 <= k <= |ids|
      invariant count == k
      invariant FieldLists(listName,
        listProfitability12m, listVolatility12m, listProfitability36m, listVolatility36m,
        listProfitability60m, listVolatility60m, listProfitabilityBegin, listVolatilityBegin,
        listSharpeRatioBegin) == Columns(Successes(outcomes[..k]))
      invariant notFound == NotFoundIds(ids[..k], outcomes[..k])
    {
      count := count + 1;
      assert outcomes[..k + 1][..k] == outcomes[..k];
      assert ids[..k + 1][..k] == ids[..k];
      match outcomes[k] {
        case Fetched(rec) =>
          assert Successes(outcomes[..k + 1]) == Successes(outcomes[..k]) + [rec];
          assert NotFoundIds(ids[..k + 1], outcomes[..k + 1]) == NotFoundIds(ids[..k], outcomes[..k]);
          ColumnsAppend(Successes(outcomes[..k]), rec);
          listName := listName + [rec.name];
          listProfitability12m := listProfitability12m + [rec.last12.profitability];
          listVolatility12m := listVolatility12m + [rec.last12.volatility];
          listProfitability36m := listProfitability36m + [rec.last36.profitability];
          listVolatility36m := listVolatility36m + [rec.last36.volatility];
          listProfitability60m := listProfitability60m + [rec.last60.profitability];
          listVolatility60m := listVolatility60m + [rec.last60.volatility];
          listProfitabilityBegin := listProfitabilityBegin + [rec.sinceBegin.profitability];
          listVolatilityBegin := listVolatilityBegin + [rec.sinceBegin.volatility];
          listSharpeRatioBegin := listSharpeRatioBegin + [rec.sharpeRatio];
        case NotFound =>
          assert Successes(outcomes[..k + 1]) == Successes(outcomes[..k]);
          assert NotFoundIds(ids[..k + 1], outcomes[..k + 1]) == NotFoundIds(ids[..k], outcomes[..k]) + [ids[k]];
          notFound := notFound + [ids[k]];
      }
      k := k + 1;
    }
    assert outcomes[..k] == outcomes && ids[..k] == ids;
    lists := FieldLists(listName,
      listProfitability12m, listVolatility12m, listProfitability36m, listVolatility36m,
      listProfitability60m, listVolatility60m, listProfitabilityBegin, listVolatilityBegin,
      listSharpeRatioBegin);
    ColumnsThenRecords(Successes(outcomes));
    EveryIdentifierOnce(ids, outcomes);
  }

  /** `cnpj == @list_not_found` for one row: its identifier, read as a number, is
      one of the not-found values. */
  predicate Listed(row: AssetRow, notFound: seq<int>)
    ensures Listed(row, notFound) <==>
      exists j :: 0 <= j < |notFound| && ParseInt(row.cnpj) == Some(notFound[j])
  {
    var v := ParseInt(row.cnpj);
    v.Some? && v.value in notFound
  }

  /** `query("cnpj == @list_not_found")` when `listed` holds and
      `query("cnpj != @list_not_found")` otherwise: the rows, in order, whose
      membership is `listed`. */
  function Query(table: seq<AssetRow>, notFound: seq<int>, listed: bool): (r: seq<AssetRow>)
    ensures |r| <= |table|
    ensures forall row :: row in r ==> row in table && Listed(row, notFound) == listed
  {
    if table == [] then []
    else
      var n := |table| - 1;
      Query(table[..n], notFound, listed) + (if Listed(table[n], notFound) == listed then [table[n]] else [])
  }

  /** The not-found frame and the remaining frame partition the table: every row
      is in exactly one of them, as often as it is in the table. */
  lemma {:induction false} SplitCounts(table: seq<AssetRow>, notFound: seq<int>)
    ensures multiset(Query(table, notFound, true)) + multiset(Query(table, notFound, false)) == multiset(table)
  {
    if table != [] {
      var n := |table| - 1;
      SplitCounts(table[..n], notFound);
      assert table == table[..n] + [table[n]];
    }
  }

  lemma SplitPartitions(table: seq<AssetRow>, notFound: seq<int>)
    ensures multiset(Query(table, notFound, true)) + multiset(Query(table, notFound, false)) == multiset(table)
    ensures forall row :: row in table ==>
      (row in Query(table, notFound, true) <==> Listed(row, notFound)) &&
      (row in Query(table, notFound, false) <==> !Listed(row, notFound))
  {
    SplitCounts(table, notFound);
    var missing, remaining := Query(table, notFound, true), Query(table, notFound, false);
    forall row | row in table
      ensures row in missing || row in remaining
    {
      assert multiset(table)[row] > 0;
    }
  }
}
