/** `webscrapping` from the identifier table to its four results: the ranked
    `df_result`, the remaining rows `dm_ativos`, the not-found rows
    `dm_ativos_not_found` and the not-found identifiers as integers. */
module Pipeline {
  import opened Wrappers
  import opened Identifiers
  import opened Records
  import opened Catalog
  import opened Scores
  import opened Ranking
  import opened Fetch

  /** `int()` rejected a not-found identifier (ValueError), or a field list does
      not have one entry per remaining row (`assign` raises ValueError). */
  datatype Error = InvalidLiteral | LengthMismatch

  datatype Report = Report(
    result: seq<ScoredRow>,
    remaining: seq<AssetRow>,
    missing: seq<AssetRow>,
    notFound: seq<int>)

  /** The column `dm_ativos.cnpj` the scrape loop iterates over. */
  function Ids(table: seq<AssetRow>): (r: seq<string>)
    ensures |r| == |table|
    ensures forall i :: 0 <= i < |table| ==> r[i] == table[i].cnpj
  {
    seq(|table|, i requires 0 <= i < |table| => table[i].cnpj)
  }

  /** Every fetched record reports nonzero volatilities. */
  predicate FetchedNonzero(outcomes: seq<Outcome>) {
    forall i :: 0 <= i < |outcomes| && outcomes[i].Fetched? ==> NonzeroVolatility(outcomes[i].record)
  }

  lemma {:induction false} SuccessesNonzero(outcomes: seq<Outcome>)
    requires FetchedNonzero(outcomes)
    ensures forall rec :: rec in Successes(outcomes) ==> NonzeroVolatility(rec)
  {
    if outcomes != [] {
      var n := |outcomes| - 1;
      assert FetchedNonzero(outcomes[..n]) by {
        forall i | 0 <= i < n && outcomes[..n][i].Fetched?
          ensures NonzeroVolatility(outcomes[..n][i].record)
        {
          assert outcomes[..n][i] == outcomes[i];
        }
      }
      SuccessesNonzero(outcomes[..n]);
    }
  }

  /** The `categoria` column of a frame: every row's category, present. */
  function Categories(rows: seq<AssetRow>): (r: seq<Option<string>>)
    ensures |r| == |rows|
    ensures forall i :: 0 <= i < |rows| ==> r[i].Some? && r[i].value == rows[i].category
  {
    seq(|rows|, i requires 0 <= i < |rows| => Some(rows[i].category))
  }

  /** The `categoria` column of a frame with `n` rows that had no rows before
      `assign` gave it the index of the field lists: every entry missing. */
  function Missing(n: nat): (r: seq<Option<string>>)
    ensures |r| == n
    ensures forall i :: 0 <= i < n ==> r[i].None?
  {
    seq(n, i => None)
  }

  /** The field lists assigned by position and the score chain: the i-th row
      carries the i-th category and the i-th fetched record. */
  function ScoreAll(categories: seq<Option<string>>, recs: seq<FundRecord>, sqrt: real -> real): (r: seq<ScoredRow>)
    requires |categories| == |recs| && IsSquareRoot(sqrt)
    requires forall rec :: rec in recs ==> NonzeroVolatility(rec)
    ensures |r| == |recs|
    ensures forall i :: 0 <= i < |r| ==> r[i].category == categories[i] && r[i].fund == recs[i]
  {
    seq(|recs|, i requires 0 <= i < |recs| => ScoreRow(categories[i], recs[i], sqrt))
  }

  /** The `assign` chain and the sort. pandas' `assign` raises when a list's
      length differs from the frame's, except on a frame without rows: that
      frame takes the index of the list and its own columns, `categoria`
      among them, become missing. */
  function Assign(remaining: seq<AssetRow>, recs: seq<FundRecord>, sqrt: real -> real): (r: Result<seq<ScoredRow>, Error>)
    requires IsSquareRoot(sqrt) && forall rec :: rec in recs ==> NonzeroVolatility(rec)
    ensures r.Failure? <==> remaining != [] && |remaining| != |recs|
    ensures r.Failure? ==> r.error == LengthMismatch
    ensures r.Success? ==> |r.value| == |recs| && Descending(r.value)
    ensures r.Success? && remaining == [] ==> multiset(r.value) == multiset(ScoreAll(Missing(|recs|), recs, sqrt))
    ensures r.Success? && remaining != [] ==> multiset(r.value) == multiset(ScoreAll(Categories(remaining), recs, sqrt))
  {
    if remaining == [] then Success(SortByScoreAll(ScoreAll(Missing(|recs|), recs, sqrt)))
    else if |remaining| != |recs| then Failure(LengthMismatch)
    else Success(SortByScoreAll(ScoreAll(Categories(remaining), recs, sqrt)))
  }

  /** The run as the source performs it, with identifiers compared by value: the
      not-found identifiers are read as integers, the table is split with `==` /
      `!=`, and the field lists are assigned to the remaining rows by position. */
  function RunAsWritten(table: seq<AssetRow>, outcomes: seq<Outcome>, sqrt: real -> real): (r: Result<Report, Error>)
    requires |outcomes| == |table| && FetchedNonzero(outcomes) && IsSquareRoot(sqrt)
    ensures r.Success? ==> |r.value.result| == |Successes(outcomes)|
  {
    var recs := Successes(outcomes);
    SuccessesNonzero(outcomes);
    match StringToInt(NotFoundIds(Ids(table), outcomes))
    case None => Failure(InvalidLiteral)
    case Some(ints) =>
      var missing := Query(table, ints, true);
      var remaining := Query(table, ints, false);
      match Assign(remaining, recs, sqrt)
      case Failure(e) => Failure(e)
      case Success(result) => Success(Report(result, remaining, missing, ints))
  }

  /** The run as pandas evaluates the code: `list_not_found` holds integers while
      the `cnpj` column holds strings, and `isin` never matches a string against
      an integer, so the `==` frame is empty and the `!=` frame is the whole
      table. */
  function RunAsTyped(table: seq<AssetRow>, outcomes: seq<Outcome>, sqrt: real -> real): (r: Result<Report, Error>)
    requires |outcomes| == |table| && FetchedNonzero(outcomes) && IsSquareRoot(sqrt)
    ensures r.Success? ==> r.value.remaining == table && r.value.missing == []
    ensures r.Success? ==> |r.value.result| == |Successes(outcomes)|
  {
    var recs := Successes(outcomes);
    SuccessesNonzero(outcomes);
    match StringToInt(NotFoundIds(Ids(table), outcomes))
    case None => Failure(InvalidLiteral)
    case Some(ints) =>
      match Assign(table, recs, sqrt)
      case Failure(e) => Failure(e)
      case Success(result) => Success(Report(result, table, [], ints))
  }

  /** The rows whose request succeeded (`fetched`) or failed (`!fetched`), in order. */
  function RowsWhere(table: seq<AssetRow>, outcomes: seq<Outcome>, fetched: bool): (r: seq<AssetRow>)
    requires |outcomes| == |table|
    ensures fetched ==> |r| == |Successes(outcomes)|
  {
    if table == [] then []
    else
      var n := |table| - 1;
      RowsWhere(table[..n], outcomes[..n], fetched) + (if outcomes[n].Fetched? == fetched then [table[n]] else [])
  }

  /** The run as evidently intended: the remaining rows are those whose request
      succeeded, so the field lists always line up with them. */
  function Run(table: seq<AssetRow>, outcomes: seq<Outcome>, sqrt: real -> real): (r: Result<Report, Error>)
    requires |outcomes| == |table| && FetchedNonzero(outcomes) && IsSquareRoot(sqrt)
    ensures r.Failure? ==> r.error == InvalidLiteral
    ensures r.Success? ==> |r.value.result| == |r.value.remaining| == |Successes(outcomes)|
  {
    var recs := Successes(outcomes);
    match StringToInt(NotFoundIds(Ids(table), outcomes))
    case None => Failure(InvalidLiteral)
    case Some(ints) =>
      var remaining := RowsWhere(table, outcomes, true);
      SuccessesNonzero(outcomes);
      Success(Report(SortByScoreAll(ScoreAll(Categories(remaining), recs, sqrt)), remaining, RowsWhere(table, outcomes, false), ints))
  }

  /** Every failed row is listed among the not-found values. */
  predicate FailedListed(table: seq<AssetRow>, outcomes: seq<Outcome>, ints: seq<int>)
    requires |outcomes| == |table|
  {
    forall i :: 0 <= i < |table| && outcomes[i].NotFound? ==> Listed(table[i], ints)
  }

  /** Some fetched row is listed too: its identifier has the numeric value of a
      failed one. */
  predicate FetchedListed(table: seq<AssetRow>, outcomes: seq<Outcome>, ints: seq<int>)
    requires |outcomes| == |table|
  {
    exists i :: 0 <= i < |table| && outcomes[i].Fetched? && Listed(table[i], ints)
  }

  /** When the failed rows are listed and the fetched rows are not, the `==` /
      `!=` queries select exactly the failed and the fetched rows. */
  lemma {:induction false} QueryMatchesOutcomes(table: seq<AssetRow>, outcomes: seq<Outcome>, ints: seq<int>)
    requires |outcomes| == |table|
    requires forall i :: 0 <= i < |table| ==> (Listed(table[i], ints) <==> outcomes[i].NotFound?)
    ensures Query(table, ints, false) == RowsWhere(table, outcomes, true)
    ensures Query(table, ints, true) == RowsWhere(table, outcomes, false)
  {
    if table != [] {
      var n := |table| - 1;
      var t, o := table[..n], outcomes[..n];
      forall i | 0 <= i < n
        ensures Listed(t[i], ints) <==> o[i].NotFound?
      {
        assert t[i] == table[i] && o[i] == outcomes[i];
      }
      QueryMatchesOutcomes(t, o, ints);
      var last := Listed(table[n], ints);
      assert last <==> outcomes[n].NotFound?;
      assert Query(table, ints, false) == Query(t, ints, false) + (if last == false then [table[n]] else []);
      assert Query(table, ints, true) == Query(t, ints, true) + (if last == true then [table[n]] else []);
    }
  }

  /** When every failed row is listed, the `!=` query keeps at most as many rows
      as were fetched. */
  lemma {:induction false} QueryAtMostFetched(table: seq<AssetRow>, outcomes: seq<Outcome>, ints: seq<int>)
    requires |outcomes| == |table|
    requires FailedListed(table, outcomes, ints)
    ensures |Query(table, ints, false)| <= |RowsWhere(table, outcomes, true)|
  {
    if table != [] {
      var n := |table| - 1;
      var t, o := table[..n], outcomes[..n];
      forall i | 0 <= i < n && o[i].NotFound?
        ensures Listed(t[i], ints)
      {
        assert t[i] == table[i] && o[i] == outcomes[i];
      }
      QueryAtMostFetched(t, o, ints);
      var last := Listed(table[n], ints);
      assert outcomes[n].NotFound? ==> last;
      assert Query(table, ints, false) == Query(t, ints, false) + (if last == false then [table[n]] else []);
    }
  }

  lemma FailedListedPrefix(table: seq<AssetRow>, outcomes: seq<Outcome>, ints: seq<int>, n: nat)
    requires |outcomes| == |table| && n <= |table|
    requires FailedListed(table, outcomes, ints)
    ensures FailedListed(table[..n], outcomes[..n], ints)
  {
    forall i | 0 <= i < n && outcomes[..n][i].NotFound?
      ensures Listed(table[..n][i], ints)
    {
      assert table[..n][i] == table[i] && outcomes[..n][i] == outcomes[i];
    }
  }

  /** If moreover the fetched row `k` is listed, the `!=` query keeps strictly
      fewer rows than were fetched. */
  lemma {:induction false} QueryFewerThanFetched(table: seq<AssetRow>, outcomes: seq<Outcome>, ints: seq<int>, k: nat)
    requires |outcomes| == |table|
    requires FailedListed(table, outcomes, ints)
    requires k < |table| && outcomes[k].Fetched? && Listed(table[k], ints)
    ensures |Query(table, ints, false)| < |RowsWhere(table, outcomes, true)|
  {
    var n := |table| - 1;
    var t, o := table[..n], outcomes[..n];
    FailedListedPrefix(table, outcomes, ints, n);
    var last := Listed(table[n], ints);
    assert outcomes[n].NotFound? ==> last;
    assert |Query(table, ints, false)| == |Query(t, ints, false)| + (if last then 0 else 1);
    assert |RowsWhere(table, outcomes, true)| == |RowsWhere(t, o, true)| + (if outcomes[n].Fetched? then 1 else 0);
    if k < n {
      assert t[k] == table[k] && o[k] == outcomes[k];
      QueryFewerThanFetched(t, o, ints, k);
    } else {
      QueryAtMostFetched(t, o, ints);
    }
  }

  /** Under `FailedListed`, the queries select exactly the failed and fetched rows
      unless some fetched row is listed too. */
  lemma QueryAgainstOutcomes(table: seq<AssetRow>, outcomes: seq<Outcome>, ints: seq<int>)
    requires |outcomes| == |table|
    requires FailedListed(table, outcomes, ints)
    ensures !FetchedListed(table, outcomes, ints) ==>
      Query(table, ints, false) == RowsWhere(table, outcomes, true) &&
      Query(table, ints, true) == RowsWhere(table, outcomes, false)
    ensures FetchedListed(table, outcomes, ints) ==>
      |Query(table, ints, false)| < |RowsWhere(table, outcomes, true)|
  {
    if FetchedListed(table, outcomes, ints) {
      var k :| 0 <= k < |table| && outcomes[k].Fetched? && Listed(table[k], ints);
      QueryFewerThanFetched(table, outcomes, ints, k);
    } else {
      QueryMatchesOutcomes(table, outcomes, ints);
    }
  }

  /** Row `i`'s identifier reads as the number of some failed identifier. */
  predicate CollidesAt(table: seq<AssetRow>, outcomes: seq<Outcome>, i: int)
    requires |outcomes| == |table| && 0 <= i < |table|
  {
    exists j :: 0 <= j < |table| && outcomes[j].NotFound? &&
      ParseInt(table[i].cnpj).Some? && ParseInt(table[i].cnpj) == ParseInt(table[j].cnpj)
  }

  /** A fetched identifier and a failed one read as the same number. */
  predicate Collides(table: seq<AssetRow>, outcomes: seq<Outcome>)
    requires |outcomes| == |table|
  {
    exists i :: 0 <= i < |table| && outcomes[i].Fetched? && CollidesAt(table, outcomes, i)
  }

  /** Every fetched identifier reads as the number of a failed one. */
  predicate EveryFetchedCollides(table: seq<AssetRow>, outcomes: seq<Outcome>)
    requires |outcomes| == |table|
  {
    forall i :: 0 <= i < |table| && outcomes[i].Fetched? ==> CollidesAt(table, outcomes, i)
  }

  /** A row is listed exactly when its identifier reads as the number of some
      failed identifier. */
  lemma ListedIffFailedValue(table: seq<AssetRow>, outcomes: seq<Outcome>, ints: seq<int>, row: AssetRow)
    requires |outcomes| == |table|
    requires StringToInt(NotFoundIds(Ids(table), outcomes)) == Some(ints)
    ensures Listed(row, ints) <==> (ParseInt(row.cnpj).Some? &&
      exists j :: 0 <= j < |table| && outcomes[j].NotFound? && ParseInt(table[j].cnpj) == ParseInt(row.cnpj))
  {
    var failed := NotFoundIds(Ids(table), outcomes);
    NotFoundMembers(Ids(table), outcomes);
    if Listed(row, ints) {
      var k :| 0 <= k < |ints| && ints[k] == ParseInt(row.cnpj).value;
      assert failed[k] in failed;
      var j :| 0 <= j < |table| && outcomes[j].NotFound? && Ids(table)[j] == failed[k];
      assert ParseInt(table[j].cnpj) == Some(ints[k]);
    }
    if ParseInt(row.cnpj).Some? &&
      exists j :: 0 <= j < |table| && outcomes[j].NotFound? && ParseInt(table[j].cnpj) == ParseInt(row.cnpj) {
      var j :| 0 <= j < |table| && outcomes[j].NotFound? && ParseInt(table[j].cnpj) == ParseInt(row.cnpj);
      assert Ids(table)[j] in failed;
      var k :| 0 <= k < |failed| && failed[k] == table[j].cnpj;
      assert ints[k] == ParseInt(row.cnpj).value;
    }
  }

  /** Once the not-found identifiers are read, every failed row is listed, and a
      fetched row is listed exactly when the identifiers collide. */
  lemma ListingFacts(table: seq<AssetRow>, outcomes: seq<Outcome>, ints: seq<int>)
    requires |outcomes| == |table|
    requires StringToInt(NotFoundIds(Ids(table), outcomes)) == Some(ints)
    ensures FailedListed(table, outcomes, ints)
    ensures FetchedListed(table, outcomes, ints) <==> Collides(table, outcomes)
  {
    forall i | 0 <= i < |table| && outcomes[i].NotFound?
      ensures Listed(table[i], ints)
    {
      var failed := NotFoundIds(Ids(table), outcomes);
      NotFoundMembers(Ids(table), outcomes);
      assert Ids(table)[i] in failed;
      var k :| 0 <= k < |failed| && failed[k] == table[i].cnpj;
      assert ParseInt(table[i].cnpj) == Some(ints[k]);
    }
    if FetchedListed(table, outcomes, ints) {
      var i :| 0 <= i < |table| && outcomes[i].Fetched? && Listed(table[i], ints);
      ListedIffFailedValue(table, outcomes, ints, table[i]);
    }
    if Collides(table, outcomes) {
      var i :| 0 <= i < |table| && outcomes[i].Fetched? && CollidesAt(table, outcomes, i);
      ListedIffFailedValue(table, outcomes, ints, table[i]);
    }
  }

  /** The `!=` frame is empty exactly when every fetched identifier collides. */
  lemma RemainingEmptyIff(table: seq<AssetRow>, outcomes: seq<Outcome>, ints: seq<int>)
    requires |outcomes| == |table|
    requires StringToInt(NotFoundIds(Ids(table), outcomes)) == Some(ints)
    ensures Query(table, ints, false) == [] <==> EveryFetchedCollides(table, outcomes)
  {
    ListingFacts(table, outcomes, ints);
    SplitPartitions(table, ints);
    var remaining := Query(table, ints, false);
    if remaining == [] {
      forall i | 0 <= i < |table| && outcomes[i].Fetched?
        ensures CollidesAt(table, outcomes, i)
      {
        assert table[i] in table;
        ListedIffFailedValue(table, outcomes, ints, table[i]);
      }
    } else {
      assert remaining[0] in remaining;
      var i :| 0 <= i < |table| && table[i] == remaining[0];
      ListedIffFailedValue(table, outcomes, ints, table[i]);
      assert outcomes[i].Fetched? && !CollidesAt(table, outcomes, i);
    }
  }

  /** The run as written fails on the lengths exactly when a fetched identifier
      and a failed one read as the same number (a CNPJ listed under two
      categories, or two spellings with different leading zeros) while some
      fetched row stays in the `!=` frame. Without a collision it is the intended
      run. */
  lemma LengthMismatchIff(table: seq<AssetRow>, outcomes: seq<Outcome>, sqrt: real -> real)
    requires |outcomes| == |table| && FetchedNonzero(outcomes) && IsSquareRoot(sqrt)
    ensures RunAsWritten(table, outcomes, sqrt) == Failure(LengthMismatch) <==>
      StringToInt(NotFoundIds(Ids(table), outcomes)).Some? && Collides(table, outcomes) &&
      !EveryFetchedCollides(table, outcomes)
    ensures !Collides(table, outcomes) ==> RunAsWritten(table, outcomes, sqrt) == Run(table, outcomes, sqrt)
  {
    var failed := StringToInt(NotFoundIds(Ids(table), outcomes));
    if failed.Some? {
      var ints := failed.value;
      ListingFacts(table, outcomes, ints);
      QueryAgainstOutcomes(table, outcomes, ints);
      RemainingEmptyIff(table, outcomes, ints);
      RunAsWrittenSplits(table, outcomes, sqrt, ints);
    }
    if !Collides(table, outcomes) {
      WithoutCollisionAsIntended(table, outcomes, sqrt);
    }
  }

  /** Without a collision the run as written is the intended run. */
  lemma WithoutCollisionAsIntended(table: seq<AssetRow>, outcomes: seq<Outcome>, sqrt: real -> real)
    requires |outcomes| == |table| && FetchedNonzero(outcomes) && IsSquareRoot(sqrt)
    requires !Collides(table, outcomes)
    ensures RunAsWritten(table, outcomes, sqrt) == Run(table, outcomes, sqrt)
  {
    var failed := StringToInt(NotFoundIds(Ids(table), outcomes));
    if failed.Some? {
      var ints := failed.value;
      ListingFacts(table, outcomes, ints);
      QueryAgainstOutcomes(table, outcomes, ints);
      RunAsWrittenSplits(table, outcomes, sqrt, ints);
      var recs := Successes(outcomes);
      var remaining := Query(table, ints, false);
      assert remaining == RowsWhere(table, outcomes, true);
      if remaining == [] {
        assert ScoreAll(Missing(|recs|), recs, sqrt) == [] == ScoreAll(Categories(remaining), recs, sqrt);
      }
    }
  }

  /** When every fetched identifier collides with a failed one, the `!=` frame is
      empty, `assign` gives it the index of the field lists, and the run as
      written succeeds with every record scored but no row keeping its category. */
  lemma EmptyFrameLosesCategories(table: seq<AssetRow>, outcomes: seq<Outcome>, sqrt: real -> real)
    requires |outcomes| == |table| && FetchedNonzero(outcomes) && IsSquareRoot(sqrt)
    requires StringToInt(NotFoundIds(Ids(table), outcomes)).Some?
    requires EveryFetchedCollides(table, outcomes)
    ensures var r := RunAsWritten(table, outcomes, sqrt);
      r.Success? && r.value.remaining == [] &&
      |r.value.result| == |Successes(outcomes)| &&
      forall k :: 0 <= k < |r.value.result| ==>
        r.value.result[k].category.None? && r.value.result[k].fund in Successes(outcomes)
  {
    var ints := StringToInt(NotFoundIds(Ids(table), outcomes)).value;
    RemainingEmptyIff(table, outcomes, ints);
    SuccessesNonzero(outcomes);
    var recs := Successes(outcomes);
    var scored := ScoreAll(Missing(|recs|), recs, sqrt);
    var a := Assign([], recs, sqrt);
    assert a.Success?;
    var result := a.value;
    forall k | 0 <= k < |result|
      ensures result[k].category.None? && result[k].fund in recs
    {
      assert result[k] in multiset(result);
      assert result[k] in scored;
    }
  }

  lemma RunAsTypedSplits(table: seq<AssetRow>, outcomes: seq<Outcome>, sqrt: real -> real, ints: seq<int>)
    requires |outcomes| == |table| && FetchedNonzero(outcomes) && IsSquareRoot(sqrt)
    requires StringToInt(NotFoundIds(Ids(table), outcomes)) == Some(ints)
    ensures forall rec :: rec in Successes(outcomes) ==> NonzeroVolatility(rec)
    ensures var chain := Assign(table, Successes(outcomes), sqrt);
      RunAsTyped(table, outcomes, sqrt) ==
        if chain.Failure? then Failure(chain.error) else Success(Report(chain.value, table, [], ints))
  {
    SuccessesNonzero(outcomes);
  }

  /** Under pandas' typing any failed request makes the run raise, since the
      `!=` frame keeps the failed rows and so has more rows than there are
      records. */
  lemma TypedRunFailsOnAnyNotFound(table: seq<AssetRow>, outcomes: seq<Outcome>, sqrt: real -> real)
    requires |outcomes| == |table| && FetchedNonzero(outcomes) && IsSquareRoot(sqrt)
    requires StringToInt(NotFoundIds(Ids(table), outcomes)).Some?
    requires exists i :: 0 <= i < |table| && outcomes[i].NotFound?
    ensures RunAsTyped(table, outcomes, sqrt) == Failure(LengthMismatch)
  {
    var ids := Ids(table);
    EveryIdentifierOnce(ids, outcomes);
    NotFoundMembers(ids, outcomes);
    var i :| 0 <= i < |table| && outcomes[i].NotFound?;
    assert ids[i] in NotFoundIds(ids, outcomes);
    RunAsTypedSplits(table, outcomes, sqrt, StringToInt(NotFoundIds(ids, outcomes)).value);
  }

  /** With no failed request the run under pandas' typing is the intended run. */
  lemma TypedRunWithoutFailures(table: seq<AssetRow>, outcomes: seq<Outcome>, sqrt: real -> real)
    requires |outcomes| == |table| && FetchedNonzero(outcomes) && IsSquareRoot(sqrt)
    requires forall i :: 0 <= i < |table| ==> outcomes[i].Fetched?
    ensures RunAsTyped(table, outcomes, sqrt) == Run(table, outcomes, sqrt)
  {
    NotFoundIdsAllFetched(Ids(table), outcomes);
    RowsWhereAllFetched(table, outcomes);
    EveryIdentifierOnce(Ids(table), outcomes);
    assert StringToInt([]) == Some([]);
    RunAsTypedSplits(table, outcomes, sqrt, []);
    var recs := Successes(outcomes);
    if table == [] {
      assert ScoreAll(Missing(|recs|), recs, sqrt) == [] == ScoreAll(Categories(table), recs, sqrt);
    }
  }

  /** With every request fetched, the fetched rows are the table. */
  lemma {:induction false} RowsWhereAllFetched(table: seq<AssetRow>, outcomes: seq<Outcome>)
    requires |outcomes| == |table|
    requires forall i :: 0 <= i < |table| ==> outcomes[i].Fetched?
    ensures RowsWhere(table, outcomes, true) == table
    ensures RowsWhere(table, outcomes, false) == []
  {
    if table != [] {
      var n := |table| - 1;
      assert forall i :: 0 <= i < n ==> outcomes[..n][i] == outcomes[i];
      RowsWhereAllFetched(table[..n], outcomes[..n]);
      assert table == table[..n] + [table[n]];
    }
  }

  /** With every request fetched, nothing is listed as not found. */
  lemma {:induction false} NotFoundIdsAllFetched(ids: seq<string>, outcomes: seq<Outcome>)
    requires |outcomes| == |ids|
    requires forall i :: 0 <= i < |ids| ==> outcomes[i].Fetched?
    ensures NotFoundIds(ids, outcomes) == []
  {
    if ids != [] {
      var n := |ids| - 1;
      assert forall i :: 0 <= i < n ==> outcomes[..n][i] == outcomes[i];
      NotFoundIdsAllFetched(ids[..n], outcomes[..n]);
    }
  }

  /** A CNPJ listed under two categories whose first request fails and whose
      second succeeds, next to another fetched fund: the `!=` frame keeps only
      the other fund, one row for two records, and the run as written raises;
      the intended run reports both fetched rows. */
  lemma DuplicateIdentifierCounterexample(rec: FundRecord, other: FundRecord, sqrt: real -> real)
    requires NonzeroVolatility(rec) && NonzeroVolatility(other) && IsSquareRoot(sqrt)
    ensures var table := [AssetRow("1", "Acoes"), AssetRow("1", "Multimercado"), AssetRow("2", "Acoes")];
      var outcomes := [NotFound, Fetched(rec), Fetched(other)];
      RunAsWritten(table, outcomes, sqrt) == Failure(LengthMismatch) &&
      Run(table, outcomes, sqrt).Success? &&
      Run(table, outcomes, sqrt).value.remaining == [AssetRow("1", "Multimercado"), AssetRow("2", "Acoes")]
  {
    var table := [AssetRow("1", "Acoes"), AssetRow("1", "Multimercado"), AssetRow("2", "Acoes")];
    var outcomes := [NotFound, Fetched(rec), Fetched(other)];
    assert FetchedNonzero(outcomes);
    ThreeRowTableFacts(rec, other);
    LengthMismatchIff(table, outcomes, sqrt);
  }

  /** The three-row table: its failed identifier "1" reads as 1, the second row
      collides with it, the third does not, and the fetched rows are the last two. */
  lemma ThreeRowTableFacts(rec: FundRecord, other: FundRecord)
    ensures var table := [AssetRow("1", "Acoes"), AssetRow("1", "Multimercado"), AssetRow("2", "Acoes")];
      var outcomes := [NotFound, Fetched(rec), Fetched(other)];
      StringToInt(NotFoundIds(Ids(table), outcomes)) == Some([1]) &&
      Collides(table, outcomes) && !EveryFetchedCollides(table, outcomes) &&
      RowsWhere(table, outcomes, true) == [AssetRow("1", "Multimercado"), AssetRow("2", "Acoes")]
  {
    var table := [AssetRow("1", "Acoes"), AssetRow("1", "Multimercado"), AssetRow("2", "Acoes")];
    var outcomes := [NotFound, Fetched(rec), Fetched(other)];
    var ids := Ids(table);
    assert ids == ["1", "1", "2"];
    assert outcomes[..2] == [NotFound, Fetched(rec)] && outcomes[..2][..1] == [NotFound] && outcomes[..2][..1][..0] == [];
    assert ids[..2] == ["1", "1"] && ids[..2][..1] == ["1"] && ids[..2][..1][..0] == [];
    assert NotFoundIds(ids[..2][..1], outcomes[..2][..1]) == ["1"];
    assert NotFoundIds(ids[..2], outcomes[..2]) == ["1"];
    assert NotFoundIds(ids, outcomes) == ["1"];
    assert IsDigits("1") && IsDigits("2");
    assert ParseInt("1") == Some(1) && ParseInt("2") == Some(2);
    assert ["1"][0] == "1" && ["1"][1..] == [];
    assert StringToInt(["1"][1..]) == Some([]);
    assert [1] + [] == [1];
    assert StringToInt(["1"]) == Some([1]);
    assert CollidesAt(table, outcomes, 1) by {
      assert outcomes[0].NotFound?;
    }
    assert Collides(table, outcomes) by {
      assert outcomes[1].Fetched?;
    }
    assert !CollidesAt(table, outcomes, 2);
    assert !EveryFetchedCollides(table, outcomes) by {
      assert outcomes[2].Fetched?;
    }
    assert table[..2] == [AssetRow("1", "Acoes"), AssetRow("1", "Multimercado")];
    assert table[..2][..1] == [AssetRow("1", "Acoes")] && table[..2][..1][..0] == [];
    assert RowsWhere(table, outcomes, true) == [AssetRow("1", "Multimercado"), AssetRow("2", "Acoes")];
  }


  /** The two-row duplicate table: its failed identifier is "1", read as 1, the
      fetched row collides with it, and its only fetched row is the second. */
  lemma DuplicateTableFacts(rec: FundRecord)
    ensures var table := [AssetRow("1", "Acoes"), AssetRow("1", "Multimercado")];
      var outcomes := [NotFound, Fetched(rec)];
      StringToInt(NotFoundIds(Ids(table), outcomes)) == Some([1]) &&
      EveryFetchedCollides(table, outcomes) && Successes(outcomes) == [rec] &&
      RowsWhere(table, outcomes, true) == [AssetRow("1", "Multimercado")]
  {
    var table := [AssetRow("1", "Acoes"), AssetRow("1", "Multimercado")];
    var outcomes := [NotFound, Fetched(rec)];
    var ids := Ids(table);
    assert ids == ["1", "1"];
    assert outcomes[..1] == [NotFound] && outcomes[..1][..0] == [];
    assert ids[..1] == ["1"] && ids[..1][..0] == [];
    assert NotFoundIds(ids, outcomes) == ["1"];
    assert IsDigits("1");
    assert ParseInt("1") == Some(1);
    assert ["1"][0] == "1" && ["1"][1..] == [];
    assert StringToInt(["1"][1..]) == Some([]);
    assert [1] + [] == [1];
    assert StringToInt(["1"]) == Some([1]);
    assert Successes(outcomes) == [rec];
    assert CollidesAt(table, outcomes, 1) by {
      assert outcomes[0].NotFound?;
    }
    assert EveryFetchedCollides(table, outcomes);
    assert table[..1] == [AssetRow("1", "Acoes")] && table[..1][..0] == [];
    assert RowsWhere(table, outcomes, true) == [AssetRow("1", "Multimercado")];
  }

  /** A CNPJ listed under two categories whose first request fails and whose
      second succeeds, and nothing else: the `!=` frame is empty, and the run as
      written reports the record without its category, where the intended run
      keeps it. */
  lemma DuplicateIdentifierLosesCategory(rec: FundRecord, sqrt: real -> real)
    requires NonzeroVolatility(rec) && IsSquareRoot(sqrt)
    ensures var table := [AssetRow("1", "Acoes"), AssetRow("1", "Multimercado")];
      var outcomes := [NotFound, Fetched(rec)];
      var asWritten := RunAsWritten(table, outcomes, sqrt);
      var intended := Run(table, outcomes, sqrt);
      asWritten.Success? && asWritten.value.remaining == [] &&
      asWritten.value.result == [ScoreRow(None, rec, sqrt)] &&
      intended.Success? && intended.value.result == [ScoreRow(Some("Multimercado"), rec, sqrt)]
  {
    TwoRowAsWritten(rec, sqrt);
    TwoRowIntended(rec, sqrt);
  }

  lemma TwoRowAsWritten(rec: FundRecord, sqrt: real -> real)
    requires NonzeroVolatility(rec) && IsSquareRoot(sqrt)
    ensures var table := [AssetRow("1", "Acoes"), AssetRow("1", "Multimercado")];
      var outcomes := [NotFound, Fetched(rec)];
      var asWritten := RunAsWritten(table, outcomes, sqrt);
      asWritten.Success? && asWritten.value.remaining == [] &&
      asWritten.value.result == [ScoreRow(None, rec, sqrt)]
  {
    var table := [AssetRow("1", "Acoes"), AssetRow("1", "Multimercado")];
    var outcomes := [NotFound, Fetched(rec)];
    assert FetchedNonzero(outcomes);
    DuplicateTableFacts(rec);
    EmptyFrameResult(table, outcomes, sqrt, [1]);
    SingleRecordMissing(rec, sqrt);
  }

  /** With an empty `!=` frame the run as written scores every record under a
      missing category. */
  lemma EmptyFrameResult(table: seq<AssetRow>, outcomes: seq<Outcome>, sqrt: real -> real, ints: seq<int>)
    requires |outcomes| == |table| && FetchedNonzero(outcomes) && IsSquareRoot(sqrt)
    requires StringToInt(NotFoundIds(Ids(table), outcomes)) == Some(ints)
    requires EveryFetchedCollides(table, outcomes)
    ensures forall rec :: rec in Successes(outcomes) ==> NonzeroVolatility(rec)
    ensures var recs := Successes(outcomes);
      RunAsWritten(table, outcomes, sqrt) ==
        Success(Report(SortByScoreAll(ScoreAll(Missing(|recs|), recs, sqrt)), [], Query(table, ints, true), ints))
  {
    RemainingEmptyIff(table, outcomes, ints);
    RunAsWrittenSplits(table, outcomes, sqrt, ints);
  }

  /** One record under a missing category is already ranked. */
  lemma SingleRecordMissing(rec: FundRecord, sqrt: real -> real)
    requires NonzeroVolatility(rec) && IsSquareRoot(sqrt)
    ensures SortByScoreAll(ScoreAll(Missing(1), [rec], sqrt)) == [ScoreRow(None, rec, sqrt)]
  {
    var a := ScoreAll(Missing(1), [rec], sqrt);
    assert a == [ScoreRow(None, rec, sqrt)];
    assert SortByScoreAll(a) == a by {
      assert a[..0] == [];
    }
  }

  lemma TwoRowIntended(rec: FundRecord, sqrt: real -> real)
    requires NonzeroVolatility(rec) && IsSquareRoot(sqrt)
    ensures var table := [AssetRow("1", "Acoes"), AssetRow("1", "Multimercado")];
      var outcomes := [NotFound, Fetched(rec)];
      var intended := Run(table, outcomes, sqrt);
      intended.Success? && intended.value.result == [ScoreRow(Some("Multimercado"), rec, sqrt)]
  {
    var table := [AssetRow("1", "Acoes"), AssetRow("1", "Multimercado")];
    var outcomes := [NotFound, Fetched(rec)];
    assert FetchedNonzero(outcomes);
    DuplicateTableFacts(rec);
    SingleRecordScored(AssetRow("1", "Multimercado"), rec, sqrt);
  }

  /** One remaining row with one record: the result is that record scored under
      the row's category. */
  lemma SingleRecordScored(row: AssetRow, rec: FundRecord, sqrt: real -> real)
    requires NonzeroVolatility(rec) && IsSquareRoot(sqrt)
    ensures SortByScoreAll(ScoreAll(Categories([row]), [rec], sqrt)) == [ScoreRow(Some(row.category), rec, sqrt)]
  {
    var b := ScoreAll(Categories([row]), [rec], sqrt);
    assert b == [ScoreRow(Some(row.category), rec, sqrt)];
    assert SortByScoreAll(b) == b by {
      assert b[..0] == [];
    }
  }


  /** The failed rows and the fetched rows partition the table. */
  lemma {:induction false} RowsWherePartition(table: seq<AssetRow>, outcomes: seq<Outcome>)
    requires |outcomes| == |table|
    ensures multiset(RowsWhere(table, outcomes, false)) + multiset(RowsWhere(table, outcomes, true)) == multiset(table)
  {
    if table != [] {
      var n := |table| - 1;
      RowsWherePartition(table[..n], outcomes[..n]);
      assert table == table[..n] + [table[n]];
    }
  }

  /** The k-th fetched row and the k-th fetched record come from the same request. */
  lemma {:induction false} FetchedRowsAligned(table: seq<AssetRow>, outcomes: seq<Outcome>)
    requires |outcomes| == |table|
    ensures forall k :: 0 <= k < |Successes(outcomes)| ==>
      exists i :: 0 <= i < |table| && outcomes[i] == Fetched(Successes(outcomes)[k]) &&
        table[i] == RowsWhere(table, outcomes, true)[k]
  {
    if table != [] {
      var n := |table| - 1;
      var t, o := table[..n], outcomes[..n];
      FetchedRowsAligned(t, o);
      var recs, rows := Successes(outcomes), RowsWhere(table, outcomes, true);
      forall k | 0 <= k < |recs|
        ensures exists i :: 0 <= i < |table| && outcomes[i] == Fetched(recs[k]) && table[i] == rows[k]
      {
        if k < |Successes(o)| {
          assert recs[k] == Successes(o)[k] && rows[k] == RowsWhere(t, o, true)[k];
          var i :| 0 <= i < n && o[i] == Fetched(Successes(o)[k]) && t[i] == RowsWhere(t, o, true)[k];
          assert outcomes[i] == o[i] && table[i] == t[i];
        } else {
          assert outcomes[n] == Fetched(recs[k]) && table[n] == rows[k];
        }
      }
    } else {
      assert |Successes(outcomes)| == 0;
    }
  }

  /** The intended run's not-found and remaining frames partition the table. */
  lemma RunPartitions(table: seq<AssetRow>, outcomes: seq<Outcome>, sqrt: real -> real)
    requires |outcomes| == |table| && FetchedNonzero(outcomes) && IsSquareRoot(sqrt)
    requires Run(table, outcomes, sqrt).Success?
    ensures var rep := Run(table, outcomes, sqrt).value;
      multiset(rep.missing) + multiset(rep.remaining) == multiset(table)
  {
    var rep := Run(table, outcomes, sqrt).value;
    assert rep.remaining == RowsWhere(table, outcomes, true);
    assert rep.missing == RowsWhere(table, outcomes, false);
    RowsWherePartition(table, outcomes);
  }

  /** The intended run's frames are the fetched and the failed rows. */
  lemma RunFrames(table: seq<AssetRow>, outcomes: seq<Outcome>, sqrt: real -> real)
    requires |outcomes| == |table| && FetchedNonzero(outcomes) && IsSquareRoot(sqrt)
    requires Run(table, outcomes, sqrt).Success?
    ensures Run(table, outcomes, sqrt).value.remaining == RowsWhere(table, outcomes, true)
    ensures Run(table, outcomes, sqrt).value.missing == RowsWhere(table, outcomes, false)
  {
  }

  /** Each remaining row of the intended run is scored with the record its own
      request fetched. */
  lemma RunAligned(table: seq<AssetRow>, outcomes: seq<Outcome>, sqrt: real -> real)
    requires |outcomes| == |table| && FetchedNonzero(outcomes) && IsSquareRoot(sqrt)
    requires Run(table, outcomes, sqrt).Success?
    ensures var rep := Run(table, outcomes, sqrt).value;
      var recs := Successes(outcomes);
      forall k :: 0 <= k < |recs| ==>
        exists i :: 0 <= i < |table| && outcomes[i] == Fetched(recs[k]) && table[i] == rep.remaining[k]
  {
    RunFrames(table, outcomes, sqrt);
    FetchedRowsAligned(table, outcomes);
  }

  /** The intended run's result holds exactly the scored remaining rows, ranked
      by `score_all`, highest first. */
  lemma RunRanked(table: seq<AssetRow>, outcomes: seq<Outcome>, sqrt: real -> real)
    requires |outcomes| == |table| && FetchedNonzero(outcomes) && IsSquareRoot(sqrt)
    requires Run(table, outcomes, sqrt).Success?
    ensures var rep := Run(table, outcomes, sqrt).value;
      var recs := Successes(outcomes);
      (forall rec :: rec in recs ==> NonzeroVolatility(rec)) &&
      Descending(rep.result) &&
      multiset(rep.result) == multiset(ScoreAll(Categories(rep.remaining), recs, sqrt))
  {
    var rep := Run(table, outcomes, sqrt).value;
    var recs := Successes(outcomes);
    SuccessesNonzero(outcomes);
    assert rep.result == SortByScoreAll(ScoreAll(Categories(rep.remaining), recs, sqrt));
  }

  lemma RunAsWrittenSplits(table: seq<AssetRow>, outcomes: seq<Outcome>, sqrt: real -> real, ints: seq<int>)
    requires |outcomes| == |table| && FetchedNonzero(outcomes) && IsSquareRoot(sqrt)
    requires StringToInt(NotFoundIds(Ids(table), outcomes)) == Some(ints)
    ensures forall rec :: rec in Successes(outcomes) ==> NonzeroVolatility(rec)
    ensures var chain := Assign(Query(table, ints, false), Successes(outcomes), sqrt);
      RunAsWritten(table, outcomes, sqrt) ==
        if chain.Failure? then Failure(chain.error)
        else Success(Report(chain.value, Query(table, ints, false), Query(table, ints, true), ints))
  {
    SuccessesNonzero(outcomes);
  }

  /** The run of `webscrapping` and of the batch script: the category loop, the
      scrape loop, the conversion of `list_not_found`, the `==` / `!=` split, and
      the score chain with its sort. `outcomes[k]` is what the request for the
      k-th identifier of the loaded table yields. */
  method Webscrapping(categories: seq<string>, catalogs: seq<seq<string>>, outcomes: seq<Outcome>, sqrt: real -> real)
      returns (r: Result<Report, Error>)
    requires |categories| == |catalogs| && |outcomes| == |LoadedTable(categories, catalogs)|
    requires FetchedNonzero(outcomes) && IsSquareRoot(sqrt)
    ensures r == RunAsWritten(LoadedTable(categories, catalogs), outcomes, sqrt)
    ensures !Collides(LoadedTable(categories, catalogs), outcomes) ==>
      r == Run(LoadedTable(categories, catalogs), outcomes, sqrt)
  {
    var table := LoadCatalogs(categories, catalogs);
    LengthMismatchIff(table, outcomes, sqrt);
    var lists, listNotFound, count := Scrape(Ids(table), outcomes);
    var ints := StringToInt(listNotFound);
    if ints.None? {
      return Failure(InvalidLiteral);
    }
    var missing := Query(table, ints.value, true);
    var remaining := Query(table, ints.value, false);
    SuccessesNonzero(outcomes);
    assert lists.Records() == Successes(outcomes);
    RunAsWrittenSplits(table, outcomes, sqrt, ints.value);
    var chain := Assign(remaining, lists.Records(), sqrt);
    if chain.Failure? {
      return Failure(chain.error);
    }
    r := Success(Report(chain.value, remaining, missing, ints.value));
  }
}
