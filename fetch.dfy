/**
 * The row fetchers: `fetch_rows` copies the predicate's parameters and adds the
 * row cap; the route summary falls back to a fixed record when the server
 * returns nothing or fails.
 */
module Fetch {
  import opened Wrappers
  import opened Facets
  import opened Columns
  import opened Predicate

  /** `p = dict(params); p["cap"] = int(cap)`: the caller's map is not changed. */
  function WithCap(params: Params, cap: int): (p: Params)
    ensures "cap" in p && p["cap"] == Int(cap)
    ensures forall k :: k != "cap" ==> (k in p <==> k in params)
    ensures forall k :: k != "cap" && k in params ==> p[k] == params[k]
  {
    params["cap" := Int(cap)]
  }

  /** `build_where` never binds "cap", so every one of its parameters reaches the query
      unchanged and the cap is the only key added. */
  lemma CapKeepsWhereParams(schema: Schema, sel: Selection, start: int, end: int, cap: int)
    ensures "cap" !in WhereParams(schema, sel, start, end)
    ensures WithCap(WhereParams(schema, sel, start, end), cap).Keys
            == WhereParams(schema, sel, start, end).Keys + {"cap"}
  {
    var vals := Values(sel);
    EqParamsKeys(schema, vals, false, false);
    var p := EqParams(schema, vals, false, false);
    if "cap" in p {
      var i :| 0 <= i < |vals| && "cap" == ParamName(Chain[i], false);
      ParamNamesDistinct(Chain[i], Chain[i], false);
    }
  }

  /** `ORDER BY` of `fetch_rows`: the sales date when it resolved, else "Visit_Time". */
  function OrderCol(schema: Schema): (c: string)
    ensures schema.salesDate.Some? ==> c == schema.salesDate.value
    ensures schema.salesDate.None? ==> c == "Visit_Time"
  {
    if schema.salesDate.Some? then schema.salesDate.value else "Visit_Time"
  }

  /** One row of the route summary. The averages are floating point on the server. */
  datatype RouteSummary = RouteSummary(firstVisit: string, lastVisit: string, fakeIndCnt: int,
                                       radiusGt300: int, avgDist: Option<real>, avgSecs: Option<real>)

  /** The record returned when there is no row to report. */
  const EmptySummary: RouteSummary := RouteSummary("", "", 0, 0, None, None)

  /** What the server produced: an exception, an empty frame, or the first row. */
  datatype SummaryReply = SummaryFailed | NoRows | FirstRow(row: RouteSummary)

  function SummaryOf(reply: SummaryReply): (s: RouteSummary)
    ensures reply.FirstRow? ==> s == reply.row
    ensures !reply.FirstRow? ==> s.fakeIndCnt == 0 && s.radiusGt300 == 0
                                 && s.firstVisit == "" && s.lastVisit == ""
                                 && s.avgDist.None? && s.avgSecs.None?
  {
    if reply.FirstRow? then reply.row else EmptySummary
  }
}
