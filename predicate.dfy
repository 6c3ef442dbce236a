/**
 * Parameterised predicates. The code builds SQL text plus a parameter map;
 * the model builds the same text from a list of structured conditions, and
 * gives those conditions a meaning on rows, so that what a built predicate
 * selects can be stated and proved.
 */
module Predicate {
  import opened Wrappers
  import opened Text
  import opened Facets
  import opened Columns

  const SecondsPerDay: int := 86400

  /** A cell of a row or a bound parameter. Timestamps are seconds; dates are day numbers. */
  datatype Value = Str(s: string) | Stamp(secs: int) | Day(day: int) | Int(n: int) | Null

  type Row = map<string, Value>
  type Params = map<string, Value>

  /** `CAST(ts AS DATE)`: the day a timestamp falls in. */
  function DayOf(secs: int): int
  {
    secs / SecondsPerDay
  }

  /** `pd.to_datetime(day)`: midnight of that day. */
  function Midnight(day: int): int
  {
    day * SecondsPerDay
  }

  /** One clause of a WHERE: the column comes from the schema, the value from a named parameter. */
  datatype Cond =
    | Equals(col: string, param: string)              // col = :param
    | HalfOpen(col: string, lo: string, hi: string)   // col >= :lo AND col < :hi
    | DayBetween(col: string, lo: string, hi: string) // CAST(col AS DATE) BETWEEN :lo AND :hi

  predicate Holds(c: Cond, row: Row, params: Params)
  {
    match c
    case Equals(col, p) =>
      col in row && p in params && row[col] != Null && row[col] == params[p]
    case HalfOpen(col, lo, hi) =>
      && col in row && lo in params && hi in params
      && row[col].Stamp? && params[lo].Stamp? && params[hi].Stamp?
      && params[lo].secs <= row[col].secs < params[hi].secs
    case DayBetween(col, lo, hi) =>
      && col in row && lo in params && hi in params
      && row[col].Stamp? && params[lo].Day? && params[hi].Day?
      && params[lo].day <= DayOf(row[col].secs) <= params[hi].day
  }

  /** `WHERE 1=1 AND c1 AND c2 ...`. */
  predicate HoldsAll(cs: seq<Cond>, row: Row, params: Params)
  {
    forall c :: c in cs ==> Holds(c, row, params)
  }

  /** The SQL text of one clause; `eq` is the code's spelling of `=` before the
      parameter marker (" = :" in the row filters, "=:" in the facet queries). */
  function Render(c: Cond, eq: string): string
  {
    match c
    case Equals(col, p) => " AND " + col + eq + p
    case HalfOpen(col, lo, hi) => " AND " + col + " >= :" + lo + " AND " + col + " < :" + hi
    case DayBetween(col, lo, hi) => " AND CAST(" + col + " AS DATE) BETWEEN :" + lo + " AND :" + hi
  }

  /** The `parts` list: one piece of text per clause. */
  function RenderAll(cs: seq<Cond>, eq: string): (parts: seq<string>)
    ensures |parts| == |cs|
    ensures forall i :: 0 <= i < |cs| ==> parts[i] == Render(cs[i], eq)
  {
    seq(|cs|, i requires 0 <= i < |cs| => Render(cs[i], eq))
  }

  /** `_where(parts)`: the empty-list branch of the code is the same as the general one. */
  function Where(parts: seq<string>): (w: string)
    ensures w == " WHERE 1=1 " + Join(" ", parts)
    ensures parts == [] ==> w == " WHERE 1=1 "
  {
    if parts != [] then " WHERE 1=1 " + Join(" ", parts) else " WHERE 1=1 "
  }

  // ------------------------------------------------------------ equality clauses

  /** Parameter names: `build_where` and the in-memory page spell them out,
      the facet queries use one letter. */
  function ParamName(d: Dim, short: bool): string
  {
    match d
    case Division => if short then "d" else "division"
    case SalesOffice => if short then "a" else "amo"
    case Warehouse => if short then "w" else "wh"
    case Supervisor => if short then "s" else "spv"
    case Region => if short then "r" else "region"
  }

  lemma ParamNamesDistinct(d1: Dim, d2: Dim, short: bool)
    ensures ParamName(d1, short) == ParamName(d2, short) <==> d1 == d2
    ensures ParamName(d1, short) !in {"start", "end", "end_next", "cap"}
  {
  }

  /** Whether a selection value filters: not "All" and its column resolved; the
      facet queries also skip an empty value (`if division and ...`). */
  predicate Applies(v: string, col: Option<string>, skipEmpty: bool)
  {
    v != ALL && col.Some? && (skipEmpty ==> v != "")
  }

  /** The clause the i-th dimension of the chain contributes: an equality when its value applies. */
  function Clause(schema: Schema, vals: seq<string>, i: nat, skipEmpty: bool, short: bool): seq<Cond>
    requires i < 5
  {
    if i < |vals| && Applies(vals[i], FacetCol(schema, Chain[i]), skipEmpty)
    then [Equals(FacetCol(schema, Chain[i]).value, ParamName(Chain[i], short))]
    else []
  }

  /** The equality clauses for the first |vals| dimensions of the chain, in chain order. */
  function EqConds(schema: Schema, vals: seq<string>, skipEmpty: bool, short: bool): seq<Cond>
    requires |vals| <= 5
  {
    Clause(schema, vals, 0, skipEmpty, short) + Clause(schema, vals, 1, skipEmpty, short)
    + Clause(schema, vals, 2, skipEmpty, short) + Clause(schema, vals, 3, skipEmpty, short)
    + Clause(schema, vals, 4, skipEmpty, short)
  }

  /** The i-th dimension's binding, added to `p` when its value applies. */
  function Bind(p: Params, schema: Schema, vals: seq<string>, i: nat, skipEmpty: bool, short: bool): Params
    requires i < 5
  {
    if i < |vals| && Applies(vals[i], FacetCol(schema, Chain[i]), skipEmpty)
    then p[ParamName(Chain[i], short) := Str(vals[i])]
    else p
  }

  /** The parameters bound for those clauses: the user's values, under fixed names. */
  function EqParams(schema: Schema, vals: seq<string>, skipEmpty: bool, short: bool): Params
    requires |vals| <= 5
  {
    var p0 := Bind(map[], schema, vals, 0, skipEmpty, short);
    var p1 := Bind(p0, schema, vals, 1, skipEmpty, short);
    var p2 := Bind(p1, schema, vals, 2, skipEmpty, short);
    var p3 := Bind(p2, schema, vals, 3, skipEmpty, short);
    Bind(p3, schema, vals, 4, skipEmpty, short)
  }

  /** A value applying at chain position i. */
  predicate AppliesAt(schema: Schema, vals: seq<string>, i: nat, skipEmpty: bool)
  {
    i < |vals| && i < 5 && Applies(vals[i], FacetCol(schema, Chain[i]), skipEmpty)
  }

  /** A dimension has a parameter exactly when its value applies, and the parameter is that value;
      no other key is bound. */
  lemma EqParamsKeys(schema: Schema, vals: seq<string>, skipEmpty: bool, short: bool)
    requires |vals| <= 5
    ensures forall i :: 0 <= i < 5 ==>
              (ParamName(Chain[i], short) in EqParams(schema, vals, skipEmpty, short)
               <==> AppliesAt(schema, vals, i, skipEmpty))
    ensures forall i :: 0 <= i < 5 && AppliesAt(schema, vals, i, skipEmpty) ==>
              EqParams(schema, vals, skipEmpty, short)[ParamName(Chain[i], short)] == Str(vals[i])
    ensures forall k :: k in EqParams(schema, vals, skipEmpty, short) ==>
              exists i :: 0 <= i < |vals| && k == ParamName(Chain[i], short)
  {
    forall i | 0 <= i < 5
      ensures ParamName(Chain[i], short) in EqParams(schema, vals, skipEmpty, short) <==> AppliesAt(schema, vals, i, skipEmpty)
      ensures AppliesAt(schema, vals, i, skipEmpty) ==>
                EqParams(schema, vals, skipEmpty, short)[ParamName(Chain[i], short)] == Str(vals[i])
    {
      EqParamsAt(schema, vals, skipEmpty, short, i);
    }
    EqParamsOnlyNames(schema, vals, skipEmpty, short);
  }

  /** Binding the i-th dimension touches only the i-th name. */
  lemma BindEffect(p: Params, schema: Schema, vals: seq<string>, i: nat, skipEmpty: bool, short: bool)
    requires i < 5
    ensures forall k :: k in Bind(p, schema, vals, i, skipEmpty, short)
                        <==> k in p || (AppliesAt(schema, vals, i, skipEmpty) && k == ParamName(Chain[i], short))
    ensures forall k :: k in p && k != ParamName(Chain[i], short) ==> Bind(p, schema, vals, i, skipEmpty, short)[k] == p[k]
    ensures AppliesAt(schema, vals, i, skipEmpty) ==>
              Bind(p, schema, vals, i, skipEmpty, short)[ParamName(Chain[i], short)] == Str(vals[i])
  {
  }

  lemma EqParamsAt(schema: Schema, vals: seq<string>, skipEmpty: bool, short: bool, i: nat)
    requires |vals| <= 5 && i < 5
    ensures ParamName(Chain[i], short) in EqParams(schema, vals, skipEmpty, short) <==> AppliesAt(schema, vals, i, skipEmpty)
    ensures AppliesAt(schema, vals, i, skipEmpty) ==>
              EqParams(schema, vals, skipEmpty, short)[ParamName(Chain[i], short)] == Str(vals[i])
  {
    var p0 := Bind(map[], schema, vals, 0, skipEmpty, short);
    var p1 := Bind(p0, schema, vals, 1, skipEmpty, short);
    var p2 := Bind(p1, schema, vals, 2, skipEmpty, short);
    var p3 := Bind(p2, schema, vals, 3, skipEmpty, short);
    var p4 := Bind(p3, schema, vals, 4, skipEmpty, short);
    assert p4 == EqParams(schema, vals, skipEmpty, short);
    BindEffect(map[], schema, vals, 0, skipEmpty, short);
    BindEffect(p0, schema, vals, 1, skipEmpty, short);
    BindEffect(p1, schema, vals, 2, skipEmpty, short);
    BindEffect(p2, schema, vals, 3, skipEmpty, short);
    BindEffect(p3, schema, vals, 4, skipEmpty, short);
    forall j | 0 <= j < 5 ensures ParamName(Chain[j], short) == ParamName(Chain[i], short) <==> j == i {
      ChainNamesDistinct(i, j, short);
    }
  }

  /** Distinct chain positions carry distinct parameter names. */
  lemma ChainNamesDistinct(i: nat, j: nat, short: bool)
    requires i < 5 && j < 5
    ensures ParamName(Chain[i], short) == ParamName(Chain[j], short) <==> i == j
  {
    LevelOfChain(i);
    LevelOfChain(j);
    ParamNamesDistinct(Chain[i], Chain[j], short);
  }

  lemma EqParamsOnlyNames(schema: Schema, vals: seq<string>, skipEmpty: bool, short: bool)
    requires |vals| <= 5
    ensures forall k :: k in EqParams(schema, vals, skipEmpty, short) ==>
              exists i :: 0 <= i < |vals| && k == ParamName(Chain[i], short)
  {
    var p0 := Bind(map[], schema, vals, 0, skipEmpty, short);
    var p1 := Bind(p0, schema, vals, 1, skipEmpty, short);
    var p2 := Bind(p1, schema, vals, 2, skipEmpty, short);
    var p3 := Bind(p2, schema, vals, 3, skipEmpty, short);
    BindEffect(map[], schema, vals, 0, skipEmpty, short);
    BindEffect(p0, schema, vals, 1, skipEmpty, short);
    BindEffect(p1, schema, vals, 2, skipEmpty, short);
    BindEffect(p2, schema, vals, 3, skipEmpty, short);
    BindEffect(p3, schema, vals, 4, skipEmpty, short);
  }

  /** Every clause tests the column of a dimension among the first |vals|, against that dimension's parameter. */
  lemma EqCondsColumns(schema: Schema, vals: seq<string>, skipEmpty: bool, short: bool)
    requires |vals| <= 5
    ensures forall c :: c in EqConds(schema, vals, skipEmpty, short) ==>
              exists i :: 0 <= i < |vals| && AppliesAt(schema, vals, i, skipEmpty)
                          && c == Equals(FacetCol(schema, Chain[i]).value, ParamName(Chain[i], short))
  {
    forall c | c in EqConds(schema, vals, skipEmpty, short)
      ensures exists i :: 0 <= i < |vals| && AppliesAt(schema, vals, i, skipEmpty)
                          && c == Equals(FacetCol(schema, Chain[i]).value, ParamName(Chain[i], short))
    {
      if c in Clause(schema, vals, 0, skipEmpty, short) { assert AppliesAt(schema, vals, 0, skipEmpty); }
      else if c in Clause(schema, vals, 1, skipEmpty, short) { assert AppliesAt(schema, vals, 1, skipEmpty); }
      else if c in Clause(schema, vals, 2, skipEmpty, short) { assert AppliesAt(schema, vals, 2, skipEmpty); }
      else if c in Clause(schema, vals, 3, skipEmpty, short) { assert AppliesAt(schema, vals, 3, skipEmpty); }
      else { assert AppliesAt(schema, vals, 4, skipEmpty); }
    }
  }

  /** The clause list, hence the SQL text, depends on which values apply and not on the values:
      user input only ever reaches the parameter map. */
  lemma EqCondsIgnoreValues(schema: Schema, v1: seq<string>, v2: seq<string>, skipEmpty: bool, short: bool)
    requires |v1| == |v2| <= 5
    requires forall i :: 0 <= i < |v1| ==> (AppliesAt(schema, v1, i, skipEmpty) <==> AppliesAt(schema, v2, i, skipEmpty))
    ensures EqConds(schema, v1, skipEmpty, short) == EqConds(schema, v2, skipEmpty, short)
  {
    forall i | 0 <= i < 5 ensures Clause(schema, v1, i, skipEmpty, short) == Clause(schema, v2, i, skipEmpty, short) {
      if i < |v1| {
        assert AppliesAt(schema, v1, i, skipEmpty) <==> AppliesAt(schema, v2, i, skipEmpty);
      }
    }
  }

  /** The row equals every applying value in its dimension's column. */
  predicate MatchesApplied(schema: Schema, vals: seq<string>, skipEmpty: bool, row: Row)
  {
    forall i :: 0 <= i < |vals| && AppliesAt(schema, vals, i, skipEmpty) ==>
      FacetCol(schema, Chain[i]).value in row && row[FacetCol(schema, Chain[i]).value] == Str(vals[i])
  }

  /** What the equality clauses select, under parameters that bind each applying value as built. */
  lemma EqCondsMeaning(schema: Schema, vals: seq<string>, skipEmpty: bool, short: bool, row: Row, params: Params)
    requires |vals| <= 5
    requires forall i :: 0 <= i < |vals| && AppliesAt(schema, vals, i, skipEmpty) ==>
               ParamName(Chain[i], short) in params && params[ParamName(Chain[i], short)] == Str(vals[i])
    ensures HoldsAll(EqConds(schema, vals, skipEmpty, short), row, params)
            <==> MatchesApplied(schema, vals, skipEmpty, row)
  {
    var cs := EqConds(schema, vals, skipEmpty, short);
    if HoldsAll(cs, row, params) {
      forall i | 0 <= i < |vals| && AppliesAt(schema, vals, i, skipEmpty)
        ensures FacetCol(schema, Chain[i]).value in row && row[FacetCol(schema, Chain[i]).value] == Str(vals[i])
      {
        var c := Equals(FacetCol(schema, Chain[i]).value, ParamName(Chain[i], short));
        assert c in Clause(schema, vals, i, skipEmpty, short);
        assert c in cs;
      }
    }
    if MatchesApplied(schema, vals, skipEmpty, row) {
      EqCondsColumns(schema, vals, skipEmpty, short);
    }
  }

  // ------------------------------------------------------------ build_where

  /** The clauses `build_where` emits: equalities in chain order, then the half-open date range. */
  function WhereConds(schema: Schema, sel: Selection): seq<Cond>
  {
    EqConds(schema, Values(sel), false, false)
    + (if schema.salesDate.Some?
       then [HalfOpen(schema.salesDate.value, "start", "end_next")]
       else [])
  }

  /** The parameters `build_where` binds. */
  function WhereParams(schema: Schema, sel: Selection, start: int, end: int): Params
  {
    var p := EqParams(schema, Values(sel), false, false);
    if schema.salesDate.Some?
    then p["start" := Stamp(Midnight(start))]["end_next" := Stamp(Midnight(end + 1))]
    else p
  }

  /** One equality `if` of the code: `if v != "All" and COL: parts.append(f" AND {COL} = :name");
      params["name"] = v` (the facet queries also test `v`, and spell `=` as `eq`). */
  method AddEquality(schema: Schema, vals: seq<string>, i: nat, skipEmpty: bool, short: bool, eq: string,
                     parts: seq<string>, p: Params)
    returns (parts': seq<string>, p': Params)
    requires i < 5
    ensures parts' == parts + RenderAll(Clause(schema, vals, i, skipEmpty, short), eq)
    ensures p' == Bind(p, schema, vals, i, skipEmpty, short)
  {
    var col := FacetCol(schema, Chain[i]);
    parts', p' := parts, p;
    if i < |vals| && vals[i] != ALL && col.Some? && (skipEmpty ==> vals[i] != "") {
      var name := ParamName(Chain[i], short);
      parts' := parts' + [" AND " + col.value + eq + name];
      p' := p'[name := Str(vals[i])];
    }
  }

  /** The equality `if`s for the first |vals| dimensions of the chain, in chain order. */
  method EqualityParts(schema: Schema, vals: seq<string>, skipEmpty: bool, short: bool, eq: string)
    returns (parts: seq<string>, p: Params)
    requires |vals| <= 5
    ensures parts == RenderAll(EqConds(schema, vals, skipEmpty, short), eq)
    ensures p == EqParams(schema, vals, skipEmpty, short)
  {
    ghost var r0 := RenderAll(Clause(schema, vals, 0, skipEmpty, short), eq);
    ghost var r1 := RenderAll(Clause(schema, vals, 1, skipEmpty, short), eq);
    ghost var r2 := RenderAll(Clause(schema, vals, 2, skipEmpty, short), eq);
    ghost var r3 := RenderAll(Clause(schema, vals, 3, skipEmpty, short), eq);
    ghost var r4 := RenderAll(Clause(schema, vals, 4, skipEmpty, short), eq);
    parts, p := AddEquality(schema, vals, 0, skipEmpty, short, eq, [], map[]);
    assert parts == r0;
    parts, p := AddEquality(schema, vals, 1, skipEmpty, short, eq, parts, p);
    parts, p := AddEquality(schema, vals, 2, skipEmpty, short, eq, parts, p);
    parts, p := AddEquality(schema, vals, 3, skipEmpty, short, eq, parts, p);
    parts, p := AddEquality(schema, vals, 4, skipEmpty, short, eq, parts, p);
    assert parts == r0 + r1 + r2 + r3 + r4;
    RenderAllAppend5(schema, vals, skipEmpty, short, eq);
  }

  /** `build_where(div_, amo_, wh_, spv_, region_, start_, end_)`. */
  method BuildWhere(schema: Schema, sel: Selection, start: int, end: int)
    returns (whereSql: string, params: Params, endNext: int)
    ensures endNext == Midnight(end + 1)
    ensures whereSql == Concat(RenderAll(WhereConds(schema, sel), " = :"))
    ensures params == WhereParams(schema, sel, start, end)
  {
    var vals := Values(sel);
    var parts, p := EqualityParts(schema, vals, false, false, " = :");
    endNext := Midnight(end + 1);
    if schema.salesDate.Some? {
      var col := schema.salesDate.value;
      p := p["start" := Stamp(Midnight(start))];
      p := p["end_next" := Stamp(endNext)];
      assert RenderAll(WhereConds(schema, sel), " = :") == parts + [Render(HalfOpen(col, "start", "end_next"), " = :")];
      parts := parts + [" AND " + col + " >= :start AND " + col + " < :end_next"];
      assert parts == RenderAll(WhereConds(schema, sel), " = :") by {
        HalfOpenText(col);
      }
    } else {
      assert WhereConds(schema, sel) == EqConds(schema, vals, false, false);
    }
    whereSql, params := Concat(parts), p;
  }

  /** The where text is the equality clauses in chain order, then the date range last. */
  lemma WhereTextSplit(schema: Schema, sel: Selection)
    ensures Concat(RenderAll(WhereConds(schema, sel), " = :"))
            == Concat(RenderAll(EqConds(schema, Values(sel), false, false), " = :"))
               + (if schema.salesDate.Some?
                  then " AND " + schema.salesDate.value + " >= :start AND " + schema.salesDate.value + " < :end_next"
                  else "")
  {
    var eqs := EqConds(schema, Values(sel), false, false);
    var dates := WhereConds(schema, sel)[|eqs|..];
    assert WhereConds(schema, sel) == eqs + dates;
    RenderAllAppend(eqs, dates, " = :");
    ConcatAppend(RenderAll(eqs, " = :"), RenderAll(dates, " = :"));
    if schema.salesDate.Some? {
      HalfOpenText(schema.salesDate.value);
      assert RenderAll(dates, " = :") == [Render(HalfOpen(schema.salesDate.value, "start", "end_next"), " = :")];
    } else {
      assert RenderAll(dates, " = :") == [];
    }
  }

  /** The text of the date `if` is the rendering of the half-open range clause. */
  lemma HalfOpenText(col: string)
    ensures Render(HalfOpen(col, "start", "end_next"), " = :")
            == " AND " + col + " >= :start AND " + col + " < :end_next"
  {
    assert " >= :start AND " == " >= :" + "start" + " AND ";
    assert " < :end_next" == " < :" + "end_next";
  }

  lemma RenderAllAppend(a: seq<Cond>, b: seq<Cond>, eq: string)
    ensures RenderAll(a + b, eq) == RenderAll(a, eq) + RenderAll(b, eq)
    ensures RenderAll([], eq) == []
  {
  }

  lemma RenderAllAppend5(schema: Schema, vals: seq<string>, skipEmpty: bool, short: bool, eq: string)
    requires |vals| <= 5
    ensures RenderAll(EqConds(schema, vals, skipEmpty, short), eq)
            == RenderAll(Clause(schema, vals, 0, skipEmpty, short), eq)
               + RenderAll(Clause(schema, vals, 1, skipEmpty, short), eq)
               + RenderAll(Clause(schema, vals, 2, skipEmpty, short), eq)
               + RenderAll(Clause(schema, vals, 3, skipEmpty, short), eq)
               + RenderAll(Clause(schema, vals, 4, skipEmpty, short), eq)
  {
    var c0, c1, c2, c3, c4 := Clause(schema, vals, 0, skipEmpty, short), Clause(schema, vals, 1, skipEmpty, short),
      Clause(schema, vals, 2, skipEmpty, short), Clause(schema, vals, 3, skipEmpty, short),
      Clause(schema, vals, 4, skipEmpty, short);
    RenderAllAppend(c0, c1, eq);
    RenderAllAppend(c0 + c1, c2, eq);
    RenderAllAppend(c0 + c1 + c2, c3, eq);
    RenderAllAppend(c0 + c1 + c2 + c3, c4, eq);
  }

  /** The half-open timestamp range [start, end + 1 day) is the inclusive day range [start, end]. */
  lemma HalfOpenIsInclusiveDays(t: int, start: int, end: int)
    ensures Midnight(start) <= t < Midnight(end + 1) <==> start <= DayOf(t) <= end
  {
    var q, r := t / SecondsPerDay, t % SecondsPerDay;
    assert t == q * SecondsPerDay + r && 0 <= r < SecondsPerDay;
    if start <= q { assert Midnight(start) <= q * SecondsPerDay; }
    if q <= end { assert q * SecondsPerDay + r < (end + 1) * SecondsPerDay; }
    if Midnight(start) <= t { assert start <= q; }
    if t < Midnight(end + 1) { assert q <= end; }
  }

  /** The row's date column holds a timestamp on one of the days start..end. */
  predicate OnDays(row: Row, col: string, start: int, end: int)
  {
    col in row && row[col].Stamp? && start <= DayOf(row[col].secs) <= end
  }

  /** `start` and `end_next` are bound exactly when the date column resolved, and then hold
      midnight of the first day and of the day after the last. */
  lemma DateParamsOnlyWithDate(schema: Schema, sel: Selection, start: int, end: int)
    ensures "start" in WhereParams(schema, sel, start, end) <==> schema.salesDate.Some?
    ensures "end_next" in WhereParams(schema, sel, start, end) <==> schema.salesDate.Some?
    ensures schema.salesDate.Some? ==>
              WhereParams(schema, sel, start, end)["start"] == Stamp(Midnight(start))
              && WhereParams(schema, sel, start, end)["end_next"] == Stamp(Midnight(end + 1))
  {
    var vals := Values(sel);
    var p := EqParams(schema, vals, false, false);
    EqParamsOnlyNames(schema, vals, false, false);
    forall k | k in p ensures k != "start" && k != "end_next" {
      var i :| 0 <= i < |vals| && k == ParamName(Chain[i], false);
      ParamNamesDistinct(Chain[i], Chain[i], false);
    }
  }

  /** A row satisfies `build_where`'s predicate exactly when it equals every applying
      selection and, when the date column resolved, is dated within start..end inclusive. */
  lemma WhereMeaning(schema: Schema, sel: Selection, start: int, end: int, row: Row)
    ensures HoldsAll(WhereConds(schema, sel), row, WhereParams(schema, sel, start, end))
            <==> MatchesApplied(schema, Values(sel), false, row)
                 && (schema.salesDate.Some? ==> OnDays(row, schema.salesDate.value, start, end))
  {
    var vals := Values(sel);
    var params := WhereParams(schema, sel, start, end);
    EqParamsKeys(schema, vals, false, false);
    forall i | 0 <= i < 5 ensures ParamName(Chain[i], false) !in {"start", "end_next"} {
      ParamNamesDistinct(Chain[i], Chain[i], false);
    }
    EqCondsMeaning(schema, vals, false, false, row, params);
    if schema.salesDate.Some? {
      var col := schema.salesDate.value;
      if col in row && row[col].Stamp? {
        HalfOpenIsInclusiveDays(row[col].secs, start, end);
      }
      assert HalfOpen(col, "start", "end_next") in WhereConds(schema, sel);
    }
  }

  /** The single-day example: with start = end = D, a row at the last second of D matches,
      and rows at midnight of D + 1 or one second before D do not. */
  lemma OneDayWindow(day: int, t: int)
    ensures Midnight(day) <= t < Midnight(day + 1) <==> DayOf(t) == day
    ensures DayOf(Midnight(day) + SecondsPerDay - 1) == day
    ensures DayOf(Midnight(day + 1)) != day && DayOf(Midnight(day) - 1) != day
  {
    HalfOpenIsInclusiveDays(t, day, day);
    HalfOpenIsInclusiveDays(Midnight(day) + SecondsPerDay - 1, day, day);
    HalfOpenIsInclusiveDays(Midnight(day + 1), day, day);
    HalfOpenIsInclusiveDays(Midnight(day) - 1, day, day);
  }
}
