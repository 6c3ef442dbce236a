/**
 * The report page: the predicate built from the fixed column names of the
 * table, the row-limit rule, the column projection and the cell highlighting.
 */
module Report {
  import opened Wrappers
  import opened Text
  import opened Facets
  import opened Columns
  import opened Predicate

  /** The report page names its columns directly; no measure column is looked up. */
  const PageSchema: Schema := Schema(Some("Division"), Some("Sales_Office_Name"), Some("WH_Name"),
                                     Some("SPV_Employee_Name"), Some("Region"), Some("Sales_Date"),
                                     None, None, None)

  /** The page's clauses: the selections, then the inclusive day range. */
  function BetweenConds(sel: Selection): seq<Cond>
  {
    EqConds(PageSchema, Values(sel), false, false) + [DayBetween("Sales_Date", "start", "end")]
  }

  function BetweenParams(sel: Selection, start: int, end: int): Params
  {
    EqParams(PageSchema, Values(sel), false, false)["start" := Day(start)]["end" := Day(end)]
  }

  /** The where text and parameters of the page's filter section. */
  method BuildBetweenWhere(sel: Selection, start: int, end: int) returns (whereSql: string, params: Params)
    ensures whereSql == Concat(RenderAll(BetweenConds(sel), " = :"))
    ensures params == BetweenParams(sel, start, end)
  {
    var parts, p := EqualityParts(PageSchema, Values(sel), false, false, " = :");
    assert RenderAll(BetweenConds(sel), " = :")
           == parts + [Render(DayBetween("Sales_Date", "start", "end"), " = :")];
    BetweenText();
    parts := parts + [" AND CAST(Sales_Date AS DATE) BETWEEN :start AND :end"];
    p := p["start" := Day(start)];
    p := p["end" := Day(end)];
    whereSql, params := Concat(parts), p;
  }

  /** The page's date clause is the rendering of the inclusive day range. */
  lemma BetweenText()
    ensures Render(DayBetween("Sales_Date", "start", "end"), " = :")
            == " AND CAST(Sales_Date AS DATE) BETWEEN :start AND :end"
  {
    assert " AND CAST(" + "Sales_Date" == " AND CAST(Sales_Date";
    assert " AND CAST(Sales_Date" + " AS DATE) BETWEEN :" == " AND CAST(Sales_Date AS DATE) BETWEEN :";
    assert " AND CAST(Sales_Date AS DATE) BETWEEN :" + "start" == " AND CAST(Sales_Date AS DATE) BETWEEN :start";
    assert " AND CAST(Sales_Date AS DATE) BETWEEN :start" + " AND :" == " AND CAST(Sales_Date AS DATE) BETWEEN :start AND :";
    assert " AND CAST(Sales_Date AS DATE) BETWEEN :start AND :" + "end" == " AND CAST(Sales_Date AS DATE) BETWEEN :start AND :end";
  }

  /** On the page's table the value of a selection is always filtered on, since every column resolves. */
  lemma PageColumnsResolve(sel: Selection, i: nat)
    requires i < 5
    ensures AppliesAt(PageSchema, Values(sel), i, false) <==> Values(sel)[i] != ALL
  {
    assert Chain[0] == Division && Chain[1] == SalesOffice && Chain[2] == Warehouse
        && Chain[3] == Supervisor && Chain[4] == Region;
  }

  /** The inclusive BETWEEN on dates selects the same rows as `build_where`'s half-open
      range on timestamps, for the same selection and days. */
  lemma BetweenAgreesWithHalfOpen(sel: Selection, start: int, end: int, row: Row)
    ensures HoldsAll(BetweenConds(sel), row, BetweenParams(sel, start, end))
            <==> HoldsAll(WhereConds(PageSchema, sel), row, WhereParams(PageSchema, sel, start, end))
  {
    var vals := Values(sel);
    var params := BetweenParams(sel, start, end);
    EqParamsKeys(PageSchema, vals, false, false);
    forall i | 0 <= i < 5 ensures ParamName(Chain[i], false) !in {"start", "end"} {
      ParamNamesDistinct(Chain[i], Chain[i], false);
    }
    EqCondsMeaning(PageSchema, vals, false, false, row, params);
    WhereMeaning(PageSchema, sel, start, end, row);
    assert DayBetween("Sales_Date", "start", "end") in BetweenConds(sel);
    assert HoldsAll(BetweenConds(sel), row, params)
           <==> HoldsAll(EqConds(PageSchema, vals, false, false), row, params)
                && Holds(DayBetween("Sales_Date", "start", "end"), row, params);
  }

  // ------------------------------------------------------------ fetch limit

  const RowLimit: int := 10000

  /** `10000 if total_filtered > 10000 else None`. */
  function FetchLimit(total: int): (limit: Option<int>)
    ensures limit.Some? <==> total > RowLimit
    ensures limit.Some? ==> limit.value == RowLimit
  {
    if total > RowLimit then Some(RowLimit) else None
  }

  /** `fetch_filtered`: the ordered, capped form of the query only when the limit is truthy,
      that is present and non-zero; None and 0 both send the plain query. */
  function FilteredSql(whereSql: string, limit: Option<int>, limitText: string): (sql: string)
    ensures (limit.None? || limit.value == 0) ==> sql == "SELECT * FROM dbo.SMI_Final WHERE 1=1 " + whereSql
    ensures limit.Some? && limit.value != 0 ==>
              sql == "SELECT * FROM dbo.SMI_Final WHERE 1=1 " + whereSql
                     + " ORDER BY Sales_Date DESC OFFSET 0 ROWS FETCH NEXT " + limitText + " ROWS ONLY"
  {
    var base := "SELECT * FROM dbo.SMI_Final WHERE 1=1 " + whereSql;
    if limit.Some? && limit.value != 0 then
      base + " ORDER BY Sales_Date DESC OFFSET 0 ROWS FETCH NEXT " + limitText + " ROWS ONLY"
    else base
  }

  /** The page never asks for more than RowLimit rows, and asks for all of them when
      there are at most RowLimit. */
  lemma FetchLimitBounds(total: int)
    ensures FetchLimit(total).Some? ==> FetchLimit(total).value < total
    ensures FetchLimit(total).None? ==> total <= RowLimit
  {
  }

  // ------------------------------------------------------------ projection

  const FrontCols: seq<string> :=
    ["Sequence", "Visit_Time", "Outlet_Latitude", "Outlet_Longitude", "Customer_Code", "Store_Name",
     "Visit_Div_", "Pack_Regular", "Pack_NPL", "Travel_Transaction_Time_HHMMSS", "Distance_Outlet_m",
     "Radius_MNT_m", "Google_Maps", "Fake_Indication", "Outlet_Address"]

  /** `df[[c for c in front_cols if c in df.columns]]`: the listed columns present, in list order. */
  function ProjectColumns(present: seq<string>): (cols: seq<string>)
    ensures forall c :: c in cols <==> c in FrontCols && c in present
    ensures |cols| <= |FrontCols|
  {
    KeepPresent(FrontCols, present)
  }

  /** A frame holding every listed column shows all of them, in list order. */
  lemma ProjectAllPresent(present: seq<string>)
    requires forall c :: c in FrontCols ==> c in present
    ensures ProjectColumns(present) == FrontCols
  {
    KeepPresentAll(FrontCols, present);
  }

  // ------------------------------------------------------------ highlighting

  const RedStyle: string := "background-color: red; color: white"

  /** A cell value: a number, or None for NaN / missing (every comparison with it is false). */
  function Highlight(val: Option<real>, column: string): (style: string)
    ensures style == RedStyle <==>
              val.Some? && ((column == "Pack_NPL" && val.value == 0.0)
                            || (column == "Distance_Outlet_m" && val.value > 2000.0)
                            || (column == "Radius_MNT_m" && val.value > 300.0)
                            || (column == "Fake_Indication" && val.value > 1.0))
    ensures style == "" || style == RedStyle
  {
    if val.None? then ""
    else if column == "Pack_NPL" && val.value == 0.0 then RedStyle
    else if column == "Distance_Outlet_m" && val.value > 2000.0 then RedStyle
    else if column == "Radius_MNT_m" && val.value > 300.0 then RedStyle
    else if column == "Fake_Indication" && val.value > 1.0 then RedStyle
    else ""
  }

  /** Only the four styled columns are ever coloured, and each rule is monotone in the value. */
  lemma HighlightScope(val: Option<real>, column: string, bigger: real)
    ensures column !in {"Pack_NPL", "Distance_Outlet_m", "Radius_MNT_m", "Fake_Indication"} ==>
              Highlight(val, column) == ""
    ensures column != "Pack_NPL" && val.Some? && bigger >= val.value && Highlight(val, column) == RedStyle ==>
              Highlight(Some(bigger), column) == RedStyle
  {
  }
}
