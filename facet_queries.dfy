/**
 * The option queries of the filter form: `distinct_division`, `distinct_amo`,
 * `distinct_wh`, `distinct_spv`, `distinct_region` and `date_range` each list
 * the values of one facet, filtered by the dimensions upstream of it; the
 * form then repairs remembered selections against the lists and clamps a
 * remembered date range into the available one.
 */
module FacetQueries {
  import opened Wrappers
  import opened Facets
  import opened Columns
  import opened Predicate

  const TABLE: string := "dbo.SMI_Final"

  /** SQL text and the parameters bound to it. */
  datatype Query = Query(sql: string, params: Params)

  // ------------------------------------------------------------ facet option queries

  /** A facet's filter: equalities on the strictly-upstream dimensions whose value is
      non-empty, not "All" and whose column resolved, under one-letter parameter names. */
  function FacetConds(schema: Schema, sel: Selection, facet: Dim): seq<Cond>
  {
    EqConds(schema, Upstream(sel, facet), true, true)
  }

  function FacetParams(schema: Schema, sel: Selection, facet: Dim): Params
  {
    EqParams(schema, Upstream(sel, facet), true, true)
  }

  function SelectDistinct(col: string, nolock: string): string
  {
    "SELECT DISTINCT " + col + " AS v FROM " + TABLE + nolock
  }

  /** `distinct_<facet>(upstream..., nolock)` up to the point where the query is sent:
      no query at all when the facet's column did not resolve. */
  method DistinctQuery(schema: Schema, facet: Dim, sel: Selection, nolock: string) returns (q: Option<Query>)
    ensures q.None? <==> FacetCol(schema, facet).None?
    ensures q.Some? ==> q.value.params == FacetParams(schema, sel, facet)
    ensures q.Some? && facet == Division ==>
              q.value.sql == SelectDistinct(FacetCol(schema, facet).value, nolock)
                             + " WHERE " + FacetCol(schema, facet).value + " IS NOT NULL ORDER BY v"
    ensures q.Some? && facet != Division ==>
              q.value.sql == SelectDistinct(FacetCol(schema, facet).value, nolock)
                             + Where(RenderAll(FacetConds(schema, sel, facet), "=:"))
                             + " AND " + FacetCol(schema, facet).value + " IS NOT NULL ORDER BY v"
  {
    var col := FacetCol(schema, facet);
    if col.None? {
      return None;
    }
    if facet == Division {
      q := Some(Query(SelectDistinct(col.value, nolock) + " WHERE " + col.value + " IS NOT NULL ORDER BY v", map[]));
    } else {
      var parts, params := EqualityParts(schema, Upstream(sel, facet), true, true, "=:");
      q := Some(Query(SelectDistinct(col.value, nolock) + Where(parts)
                      + " AND " + col.value + " IS NOT NULL ORDER BY v", params));
    }
  }

  /** The list a `distinct_*` function returns: `[]` when there was no query or it
      failed, otherwise the server's answer. The form shows `["All"]` before it. */
  function FacetOptions(q: Option<Query>, answer: Option<seq<string>>): (opts: seq<string>)
    ensures q.None? || answer.None? ==> opts == []
    ensures q.Some? && answer.Some? ==> opts == answer.value
  {
    if q.Some? && answer.Some? then answer.value else []
  }

  /** Whether a selection value filters a facet query. */
  predicate Filters(schema: Schema, sel: Selection, d: Dim)
  {
    Applies(Chosen(sel, d), FacetCol(schema, d), true)
  }

  /** Every clause of a facet's query constrains a strictly-upstream dimension (by column
      name, see `FacetCondsAvoidOwnColumn`). */
  lemma FacetCondsUpstream(schema: Schema, sel: Selection, facet: Dim)
    ensures forall c :: c in FacetConds(schema, sel, facet) ==>
              exists d :: Level(d) < Level(facet) && Filters(schema, sel, d)
                          && c == Equals(FacetCol(schema, d).value, ParamName(d, true))
  {
    var vals := Upstream(sel, facet);
    EqCondsColumns(schema, vals, true, true);
    forall c | c in FacetConds(schema, sel, facet)
      ensures exists d :: Level(d) < Level(facet) && Filters(schema, sel, d)
                          && c == Equals(FacetCol(schema, d).value, ParamName(d, true))
    {
      var i :| 0 <= i < |vals| && AppliesAt(schema, vals, i, true)
               && c == Equals(FacetCol(schema, Chain[i]).value, ParamName(Chain[i], true));
      LevelOfChain(i);
      var d := Chain[i];
      assert Level(d) < Level(facet) && Filters(schema, sel, d);
    }
  }

  /** By column name: on the resolved schema no clause of a facet's query tests the
      facet's own column, so `distinct_wh` never constrains `WH_COL`. */
  lemma FacetCondsAvoidOwnColumn(available: seq<string>, sel: Selection, facet: Dim)
    ensures FacetCol(Resolved(available), facet).Some? ==>
              forall c :: c in FacetConds(Resolved(available), sel, facet) ==>
                c.col != FacetCol(Resolved(available), facet).value
  {
    var schema := Resolved(available);
    if FacetCol(schema, facet).Some? {
      FacetCondsUpstream(schema, sel, facet);
      forall c | c in FacetConds(schema, sel, facet)
        ensures c.col != FacetCol(schema, facet).value
      {
        var d :| Level(d) < Level(facet) && Filters(schema, sel, d)
                 && c == Equals(FacetCol(schema, d).value, ParamName(d, true));
        ResolvedFacetColsDistinct(available, d, facet);
      }
    }
  }

  /** A facet's parameters are exactly the filtering upstream values, under their
      one-letter names: nothing at or below the facet is ever bound. */
  lemma FacetParamsUpstream(schema: Schema, sel: Selection, facet: Dim)
    ensures forall d :: ParamName(d, true) in FacetParams(schema, sel, facet)
                        <==> Level(d) < Level(facet) && Filters(schema, sel, d)
    ensures forall d :: ParamName(d, true) in FacetParams(schema, sel, facet) ==>
              FacetParams(schema, sel, facet)[ParamName(d, true)] == Str(Chosen(sel, d))
    ensures forall k :: k in FacetParams(schema, sel, facet) ==>
              exists d :: Level(d) < Level(facet) && k == ParamName(d, true)
  {
    var vals := Upstream(sel, facet);
    var p := FacetParams(schema, sel, facet);
    EqParamsKeys(schema, vals, true, true);
    forall d ensures (ParamName(d, true) in p <==> Level(d) < Level(facet) && Filters(schema, sel, d))
                     && (ParamName(d, true) in p ==> p[ParamName(d, true)] == Str(Chosen(sel, d)))
    {
      ChainIndexesLevels(d);
      assert ParamName(Chain[Level(d)], true) in p <==> AppliesAt(schema, vals, Level(d), true);
    }
    forall k | k in p
      ensures exists d :: Level(d) < Level(facet) && k == ParamName(d, true)
    {
      var i :| 0 <= i < |vals| && k == ParamName(Chain[i], true);
      LevelOfChain(i);
      assert Level(Chain[i]) < Level(facet);
    }
  }

  /** The facet's own choice and every downstream choice do not influence its query. */
  lemma FacetUpstreamOnly(schema: Schema, s1: Selection, s2: Selection, facet: Dim)
    requires forall d :: Level(d) < Level(facet) ==> Chosen(s1, d) == Chosen(s2, d)
    ensures FacetConds(schema, s1, facet) == FacetConds(schema, s2, facet)
    ensures FacetParams(schema, s1, facet) == FacetParams(schema, s2, facet)
  {
    UpstreamOnly(s1, s2, facet);
  }

  /** The row matches every filtering selection strictly upstream of the facet. */
  predicate MatchesUpstream(schema: Schema, sel: Selection, facet: Dim, row: Row)
  {
    forall d :: Level(d) < Level(facet) && Filters(schema, sel, d) ==>
      FacetCol(schema, d).value in row && row[FacetCol(schema, d).value] == Str(Chosen(sel, d))
  }

  /** What a facet query selects: exactly the rows matching its upstream selections. */
  lemma FacetRowMeaning(schema: Schema, sel: Selection, facet: Dim, row: Row)
    ensures HoldsAll(FacetConds(schema, sel, facet), row, FacetParams(schema, sel, facet))
            <==> MatchesUpstream(schema, sel, facet, row)
  {
    var vals := Upstream(sel, facet);
    EqParamsKeys(schema, vals, true, true);
    EqCondsMeaning(schema, vals, true, true, row, FacetParams(schema, sel, facet));
    if MatchesApplied(schema, vals, true, row) {
      forall d | Level(d) < Level(facet) && Filters(schema, sel, d)
        ensures FacetCol(schema, d).value in row && row[FacetCol(schema, d).value] == Str(Chosen(sel, d))
      {
        ChainIndexesLevels(d);
        assert AppliesAt(schema, vals, Level(d), true);
      }
    }
    if MatchesUpstream(schema, sel, facet, row) {
      forall i | 0 <= i < |vals| && AppliesAt(schema, vals, i, true)
        ensures FacetCol(schema, Chain[i]).value in row && row[FacetCol(schema, Chain[i]).value] == Str(vals[i])
      {
        LevelOfChain(i);
        assert Filters(schema, sel, Chain[i]);
      }
    }
  }

  // ------------------------------------------------------------ date_range

  /** `date_range(division, amo, wh, spv, region, nolock)` up to the query; whitespace of
      the multi-line text normalised to single spaces. */
  method DateRangeQuery(schema: Schema, sel: Selection, nolock: string) returns (q: Option<Query>)
    ensures q.None? <==> schema.salesDate.None?
    ensures q.Some? ==> q.value.params == EqParams(schema, Values(sel), true, true)
    ensures q.Some? ==>
              q.value.sql == "SELECT CAST(MIN(" + schema.salesDate.value + ") AS DATE) AS min_d, CAST(MAX("
                             + schema.salesDate.value + ") AS DATE) AS max_d FROM " + TABLE + nolock + " "
                             + Where(RenderAll(EqConds(schema, Values(sel), true, true), "=:"))
  {
    if schema.salesDate.None? {
      return None;
    }
    var col := schema.salesDate.value;
    var parts, params := EqualityParts(schema, Values(sel), true, true, "=:");
    q := Some(Query("SELECT CAST(MIN(" + col + ") AS DATE) AS min_d, CAST(MAX(" + col
                    + ") AS DATE) AS max_d FROM " + TABLE + nolock + " " + Where(parts), params));
  }

  /** The bounds of `date_range` select the rows matching every filtering selection. */
  lemma DateRangeRowMeaning(schema: Schema, sel: Selection, row: Row)
    ensures HoldsAll(EqConds(schema, Values(sel), true, true), row, EqParams(schema, Values(sel), true, true))
            <==> MatchesApplied(schema, Values(sel), true, row)
  {
    EqParamsKeys(schema, Values(sel), true, true);
    EqCondsMeaning(schema, Values(sel), true, true, row, EqParams(schema, Values(sel), true, true));
  }

  /** The facet queries skip an empty value and `build_where` does not; on a selection
      without empty values the two agree. */
  lemma SkipEmptyIrrelevant(schema: Schema, sel: Selection, row: Row)
    requires forall d :: Chosen(sel, d) != ""
    ensures MatchesApplied(schema, Values(sel), true, row) <==> MatchesApplied(schema, Values(sel), false, row)
  {
    forall i | 0 <= i < 5 ensures AppliesAt(schema, Values(sel), i, true) <==> AppliesAt(schema, Values(sel), i, false) {
      LevelOfChain(i);
      assert Values(sel)[i] == Chosen(sel, Chain[i]);
    }
  }

  /** What the server answered: an exception, or one row of MIN/MAX that may be NULL. */
  datatype RangeReply = Failed | Bounds(minD: Option<int>, maxD: Option<int>)

  /** The pair `date_range` returns; `today` stands for `pd.Timestamp.today().date()`. */
  function DateRangeResult(q: Option<Query>, reply: RangeReply, today: int): (r: (int, int))
    ensures q.Some? && reply.Bounds? && reply.minD.Some? && reply.maxD.Some?
            ==> r == (reply.minD.value, reply.maxD.value)
    ensures q.None? || reply.Failed? || reply.minD.None? || reply.maxD.None? ==> r == (today, today)
  {
    if q.None? then (today, today)
    else match reply
      case Failed => (today, today)
      case Bounds(lo, hi) => if lo.None? || hi.None? then (today, today) else (lo.value, hi.value)
  }

  /** A MIN that is at most the MAX (as any server returns them) gives an ordered pair. */
  lemma DateRangeOrdered(q: Option<Query>, reply: RangeReply, today: int)
    requires reply.Bounds? && reply.minD.Some? && reply.maxD.Some? ==> reply.minD.value <= reply.maxD.value
    ensures DateRangeResult(q, reply, today).0 <= DateRangeResult(q, reply, today).1
  {
    var r := DateRangeResult(q, reply, today);
    if q.Some? && reply.Bounds? && reply.minD.Some? && reply.maxD.Some? {
      assert r == (reply.minD.value, reply.maxD.value);
    } else {
      assert r == (today, today);
    }
  }

  // ------------------------------------------------------------ remembered selections

  /** `list.index(x)`: the first position of x. */
  function IndexOf(opts: seq<string>, x: string): (i: nat)
    requires x in opts
    ensures i < |opts| && opts[i] == x
    ensures forall j :: 0 <= j < i ==> opts[j] != x
  {
    if opts[0] == x then 0 else 1 + IndexOf(opts[1..], x)
  }

  /** The AMO, WH, supervisor and region boxes: a remembered value not among
      `["All"] + fetched` becomes "All"; the box opens at that value's index. */
  function Repair(remembered: string, fetched: seq<string>): (r: (nat, string))
    ensures r.0 < |[ALL] + fetched| && ([ALL] + fetched)[r.0] == r.1
    ensures remembered in [ALL] + fetched ==> r.1 == remembered
    ensures remembered !in [ALL] + fetched ==> r == (0, ALL)
  {
    var opts := [ALL] + fetched;
    var value := if remembered in opts then remembered else ALL;
    (IndexOf(opts, value), value)
  }

  /** The division box computes its index inline: the position of the remembered
      value, or 0 when it is not listed. */
  function DivisionIndex(remembered: string, fetched: seq<string>): nat
  {
    var opts := [ALL] + fetched;
    if remembered in opts then IndexOf(opts, remembered) else 0
  }

  /** The two spellings of the rule agree. */
  lemma DivisionIndexIsRepair(remembered: string, fetched: seq<string>)
    ensures DivisionIndex(remembered, fetched) == Repair(remembered, fetched).0
  {
    var opts := [ALL] + fetched;
    if remembered !in opts {
      assert opts[0] == ALL;
    }
  }

  // ------------------------------------------------------------ date clamp

  /** `ds = max(min_d, ds); de = min(max_d, de)` on `session date_range or (min_d, max_d)`,
      as the code writes it. */
  function ClampAsWritten(remembered: Option<(int, int)>, minD: int, maxD: int): (r: (int, int))
    ensures r.0 >= minD && r.1 <= maxD
    ensures remembered.None? ==> r == (minD, maxD)
  {
    var (ds, de) := if remembered.Some? then remembered.value else (minD, maxD);
    (if minD > ds then minD else ds, if maxD < de then maxD else de)
  }

  /** A remembered range lying after the new bounds is passed on unchanged at its start,
      beyond `max_d`: the date box receives a value outside its own limits. */
  lemma ClampAsWrittenEscapes()
    ensures ClampAsWritten(Some((10, 12)), 1, 5) == (10, 5)
    ensures ClampAsWritten(Some((10, 12)), 1, 5).0 > 5
  {
  }

  lemma ClampAsWrittenEscapesAlways(remembered: (int, int), minD: int, maxD: int)
    requires remembered.0 > maxD
    ensures ClampAsWritten(Some(remembered), minD, maxD).0 > maxD
  {
    var r := ClampAsWritten(Some(remembered), minD, maxD);
    assert r.0 >= remembered.0;
  }

  /** Symmetrically, a remembered range lying before the new bounds keeps its end below
      `min_d`: (1, 2) under bounds (5, 10) gives (5, 2). */
  lemma ClampAsWrittenEndEscapes()
    ensures ClampAsWritten(Some((1, 2)), 5, 10) == (5, 2)
    ensures ClampAsWritten(Some((1, 2)), 5, 10).1 < 5
  {
  }

  lemma ClampAsWrittenEndEscapesAlways(remembered: (int, int), minD: int, maxD: int)
    requires remembered.1 < minD
    ensures ClampAsWritten(Some(remembered), minD, maxD).1 < minD
  {
    var r := ClampAsWritten(Some(remembered), minD, maxD);
    assert r.1 <= remembered.1;
  }

  function Clamp(x: int, lo: int, hi: int): int
  {
    if x < lo then lo else if x > hi then hi else x
  }

  /** Both ends clamped into [minD, maxD]. */
  function ClampRange(remembered: Option<(int, int)>, minD: int, maxD: int): (r: (int, int))
    ensures minD <= maxD ==> minD <= r.0 <= maxD && minD <= r.1 <= maxD
    ensures remembered.None? ==> r == (Clamp(minD, minD, maxD), Clamp(maxD, minD, maxD))
  {
    var (ds, de) := if remembered.Some? then remembered.value else (minD, maxD);
    (Clamp(ds, minD, maxD), Clamp(de, minD, maxD))
  }

  /** The corrected clamp keeps an ordered range ordered, leaves a range already inside
      the bounds alone, and agrees with the code whenever the code's result is in bounds. */
  lemma ClampRangeProperties(remembered: Option<(int, int)>, minD: int, maxD: int)
    requires minD <= maxD
    ensures remembered.None? ==> ClampRange(remembered, minD, maxD) == (minD, maxD)
    ensures remembered.Some? && remembered.value.0 <= remembered.value.1 ==>
              ClampRange(remembered, minD, maxD).0 <= ClampRange(remembered, minD, maxD).1
    ensures remembered.Some? && minD <= remembered.value.0 <= maxD && minD <= remembered.value.1 <= maxD ==>
              ClampRange(remembered, minD, maxD) == remembered.value
    ensures ClampAsWritten(remembered, minD, maxD).0 <= maxD && ClampAsWritten(remembered, minD, maxD).1 >= minD ==>
              ClampRange(remembered, minD, maxD) == ClampAsWritten(remembered, minD, maxD)
  {
  }

  /** The date box's initial range under the corrected clamp `ClampRange`: the bounds
      `date_range` reports, and the remembered range clamped into them. With any server
      answer the range is inside the bounds; the one-sided clamp of the code is
      `ClampAsWritten`, which can leave them. */
  function FormDates(q: Option<Query>, reply: RangeReply, today: int, remembered: Option<(int, int)>)
    : (r: ((int, int), (int, int)))
    requires reply.Bounds? && reply.minD.Some? && reply.maxD.Some? ==> reply.minD.value <= reply.maxD.value
    ensures r.0.0 <= r.1.0 <= r.0.1 && r.0.0 <= r.1.1 <= r.0.1
  {
    var bounds := DateRangeResult(q, reply, today);
    DateRangeOrdered(q, reply, today);
    (bounds, ClampRange(remembered, bounds.0, bounds.1))
  }
}
