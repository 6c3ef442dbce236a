# Sales-visit browser: cascading filters and predicate building

This project models the filter core of a sales-visit browser over the table
`dbo.SMI_Final`. The form offers five facets in a fixed cascade: Division, then
sales office (AMO), then warehouse (WH), then supervisor (SPV), then region.
Each facet lists only values consistent with the dimensions upstream of it.
The chosen values become a parameterised SQL predicate.

The model covers two pages:

- `AppintegraPublicWeb.py`:
  - the case-insensitive column-alias resolver and the schema built from it;
  - the travel-time text parser;
  - the per-facet option queries, `date_range` and `build_where`;
  - the repair of remembered selections and the date clamp, as written and corrected;
  - the row cap added by `fetch_rows`, and the route-summary fallback.
- `Streamlit.py`:
  - the in-memory cascade over a frame of distinct key rows;
  - its inclusive `BETWEEN` where builder and the row-limit rule;
  - the column projection and the cell-highlight rule.

A predicate is modelled twice:

- as the SQL text and parameter map the code builds;
- as a list of structured clauses (`Predicate.Cond`) with a meaning on rows (`Predicate.Holds`).

The text is proved to be the rendering of the clauses. The clauses are proved to select exactly the intended rows, where a column equals a value when the two strings are identical (the server's collation is not modelled, see "## Left out").

Conventions:

- A date is a day number.
- A timestamp is a number of seconds; `pd.to_datetime(day)` is `Midnight(day) = day * 86400`.
- `CAST(ts AS DATE)` is `DayOf(ts) = ts / 86400`.
- A NULL cell is `None`, or the `Null` value.

Modules, one per file, in the program's own structure:

| file | module | models |
|---|---|---|
| wrappers.dfy | Wrappers | `Option` |
| facets.dfy | Facets | the five dimensions, the cascade order, selections |
| text.dfy | Text | `str.lower`, `str.strip`, `\d`, `join` (ASCII) |
| columns.dfy | Columns | `pick_col`, the column constants, `get_columns`, `RAW_COLS` |
| travel_time.dfy | TravelTime | `_parse_hhmmss_to_seconds` |
| predicate.dfy | Predicate | clause semantics, `_where`, `build_where` |
| facet_queries.dfy | FacetQueries | `distinct_*`, `date_range`, selection repair, date clamp |
| fetch.dfy | Fetch | `fetch_rows` parameters and order, route-summary fallback |
| in_memory_cascade.dfy | InMemoryCascade | the option lists and the narrowed frame of `Streamlit.py` |
| report.dfy | Report | the `BETWEEN` builder, `fetch_limit`, projection, `highlight_cells` |

Two points where the code's own behaviour is what the model follows:

- The digits "013045" are already six long, so `zfill(6)` leaves them alone and they read as 01:30:45. That is 1·3600 + 30·60 + 45 = 5445 seconds (`TravelTime.ExampleDigits`).
- `build_where` does not skip an empty selection value; the facet queries do (`if division and ...`). Both are modelled as written. `FacetQueries.SkipEmptyIrrelevant` shows the difference matters only for an empty value.

## Model

| member | source | states |
|---|---|---|
| Columns.LastWithLower | AppintegraPublicWeb.py:181-185 | a dictionary lookup by lower-case key answers a column of `available` with that lower-case form, and answers nothing exactly when no column has it |
| Columns.LowerIndexLookup | AppintegraPublicWeb.py:181 | the comprehension `{c.lower(): c}` holds a key exactly when some column lowers to it, and maps it to the last such column |
| Columns.LastWithLowerIsLast | AppintegraPublicWeb.py:181 | among columns sharing a lower-case form the last one in `available` is the one kept |
| Columns.LowerIndex | AppintegraPublicWeb.py:181 | definition of `{c.lower(): c for c in available}`; its lookups are characterised by `Columns.LowerIndexLookup` |
| Columns.PickColSpec | AppintegraPublicWeb.py:178-188 | reference definition of `pick_col`; properties in `Columns.PickColNone`, `Columns.PickColFirstHit` and `Columns.PickColMatchesAlias`, and `Columns.PickCol` is proved equal to it |
| Columns.PickColNone | AppintegraPublicWeb.py:179-188 | `pick_col` gives None if and only if `available` is empty or no non-empty candidate matches any column case-insensitively |
| Columns.PickColFirstHit | AppintegraPublicWeb.py:182-187 | otherwise the earliest non-empty matching candidate decides; the answer is in `available` and lower-case-equal to that candidate |
| Columns.PickColMatchesAlias | AppintegraPublicWeb.py:182-187 | a resolved column is lower-case-equal to one of the non-empty candidates |
| Columns.PickCol | AppintegraPublicWeb.py:178-188 | the loop with early return computes the reference answer; empty `available` gives None; a result is a non-empty element of `available` |
| Columns.ResolveSchema | AppintegraPublicWeb.py:217-222 | the column constants are the `pick_col` answers for each role's alias list |
| Columns.AliasesDisjoint | AppintegraPublicWeb.py:217-221 | aliases of two different facets differ even after lower-casing |
| Columns.ResolvedFacetColsDistinct | AppintegraPublicWeb.py:217-221 | whatever the table holds, two different facets never resolve to the same column |
| Columns.ResolvedCol | AppintegraPublicWeb.py:478-484 | every role, measures included, resolves to its aliases' `pick_col` answer, an available column or None, and to None when the catalog is empty |
| Columns.KeepPresent | AppintegraPublicWeb.py:494 | a column is kept exactly when it is listed and present; the list never grows |
| Columns.KeepPresentAppend | AppintegraPublicWeb.py:494 | filtering distributes over concatenation, so kept columns stay in list order |
| Columns.KeepPresentAll | AppintegraPublicWeb.py:494 | when every listed column is present nothing is dropped |
| Columns.Defined | AppintegraPublicWeb.py:494 | the `if c` test drops unresolved (None) and empty entries and keeps every other one |
| Columns.RawCols | AppintegraPublicWeb.py:486-494 | `RAW_COLS` holds exactly the non-empty preferred columns, measure lookups included, that exist in the table |
| Columns.AvailableColumns | AppintegraPublicWeb.py:159-176 | the catalog's column list, or the fixed fallback list when the catalog query failed |
| Text.Lower | AppintegraPublicWeb.py:194 | lower-casing keeps the length and maps each character |
| Text.Strip | AppintegraPublicWeb.py:193 | definition of `str.strip()` as `TrimRight(TrimLeft(s))`; properties in `Text.TrimLeft` and `Text.TrimRight` |
| Text.TrimLeft | AppintegraPublicWeb.py:193 | the result is a suffix without leading whitespace, and only whitespace was removed |
| Text.TrimRight | AppintegraPublicWeb.py:193 | the result is a prefix without trailing whitespace, and only whitespace was removed |
| Text.OnlyDigits | AppintegraPublicWeb.py:200 | `re.sub(r'\D', '', s)` leaves only digits and never lengthens the text |
| Text.OnlyDigitsKeepsDigits | AppintegraPublicWeb.py:200 | every digit of the text is kept and nothing else is: a character is in the result exactly when it is a digit of the input |
| Text.OnlyDigitsAppend | AppintegraPublicWeb.py:200 | removing the non-digits distributes over concatenation, so the kept digits stay in their order |
| Text.OnlyDigitsOfDigits | AppintegraPublicWeb.py:200 | an all-digit text is left unchanged |
| Text.ConcatAppend | AppintegraPublicWeb.py:475 | `"".join` of two lists concatenated is the concatenation of their joins |
| TravelTime.MatchAt | AppintegraPublicWeb.py:196 | definition of the pattern `(\d{1,2}):(\d{1,2}):(\d{1,2})` at one position; properties in `TravelTime.SearchBounded` and `TravelTime.NoColonNoMatch` |
| TravelTime.Search | AppintegraPublicWeb.py:196 | definition of `re.search` as a scan from left to right; properties in `TravelTime.SearchFindsLeftmost` and `TravelTime.SearchNone` |
| TravelTime.LeadField | AppintegraPublicWeb.py:196 | a leading `\d{1,2}:` field is at most 99 and ends inside the text |
| TravelTime.SearchFindsLeftmost | AppintegraPublicWeb.py:196 | `re.search` returns the match at the leftmost position where the pattern matches |
| TravelTime.SearchNone | AppintegraPublicWeb.py:196 | the search finds nothing exactly when no position matches |
| TravelTime.SearchBounded | AppintegraPublicWeb.py:196-199 | every field of a match is at most 99 |
| TravelTime.NoColonNoMatch | AppintegraPublicWeb.py:196 | text without ':' never matches the H:M:S pattern |
| TravelTime.ZFill6 | AppintegraPublicWeb.py:202 | `zfill(6)` gives six characters: zeros, then the digits |
| TravelTime.Hhmmss | AppintegraPublicWeb.py:203-204 | six digits read as HHMMSS give at most 99·3600 + 99·60 + 99 seconds |
| TravelTime.Classify | AppintegraPublicWeb.py:190-204 | None and blank or sentinel text read as blank, and nothing else does; a clock reading is at most 99·3600 + 99·60 + 99; other text is passed on stripped |
| TravelTime.ParseSeconds | AppintegraPublicWeb.py:190-208 | definition of `_parse_hhmmss_to_seconds`; its cases are stated by `TravelTime.ParseBlank`, `TravelTime.ParseLeftmostClock`, `TravelTime.ParseDigits` and `TravelTime.ParseFallsBack` |
| TravelTime.ParseBlank | AppintegraPublicWeb.py:191-195 | None, empty text and "nan"/"nat"/"none" in any letter case give None |
| TravelTime.ParseLeftmostClock | AppintegraPublicWeb.py:196-199 | with an H:M:S match, the result is h·3600 + m·60 + s of the leftmost match |
| TravelTime.ParseDigits | AppintegraPublicWeb.py:200-204 | otherwise 1 to 6 digits are zero-padded and read as HHMMSS, giving a value between 0 and 99·3600 + 99·60 + 99 |
| TravelTime.ParseFallsBack | AppintegraPublicWeb.py:205-208 | everything else is the float conversion's answer |
| TravelTime.ExampleDigits | AppintegraPublicWeb.py:200-204 | "013045" gives 5445 |
| TravelTime.ExampleClock | AppintegraPublicWeb.py:196-199 | "1:2:3" gives 3723 |
| TravelTime.ExampleShortClock | AppintegraPublicWeb.py:200-204 | "1:30" has no H:M:S match and reads as 000130, 90 seconds |
| TravelTime.ExampleBlank | AppintegraPublicWeb.py:191-195 | "" and " NaT " give None |
| Facets.Upstream | AppintegraPublicWeb.py:239-389 | a facet's context is the choices of exactly the dimensions before it in the cascade |
| Facets.UpstreamOnly | AppintegraPublicWeb.py:262-272 | two selections give the same context for a facet if and only if they agree on every strictly-upstream dimension |
| Facets.LevelOfChain | AppintegraPublicWeb.py:454-469 | the cascade order lists each dimension at its own level |
| Predicate.Holds | AppintegraPublicWeb.py:455-474 | definition of what one clause means on a row: `col = :p` is exact equality with the bound value, `>= :start AND < :end_next` a half-open stamp range; used by `Predicate.EqCondsMeaning` and `Predicate.WhereMeaning` |
| Predicate.WhereConds | AppintegraPublicWeb.py:453-475 | definition of `build_where`'s clauses; `Predicate.BuildWhere` renders them and `Predicate.WhereMeaning` gives their meaning |
| Predicate.WhereParams | AppintegraPublicWeb.py:453-475 | definition of `build_where`'s parameters; `Predicate.BuildWhere` returns them and `Predicate.WhereMeaning` uses them |
| Predicate.Where | AppintegraPublicWeb.py:155-156 | `_where` is `" WHERE 1=1 "` followed by the space-joined parts, and is just `" WHERE 1=1 "` for no parts |
| Predicate.ParamNamesDistinct | AppintegraPublicWeb.py:454-469 | the five parameter names are pairwise distinct and never collide with "start", "end", "end_next" or "cap" |
| Predicate.AddEquality | AppintegraPublicWeb.py:455-457 | one `if` appends the dimension's rendered equality clause and binds its value, exactly when the value applies |
| Predicate.EqualityParts | AppintegraPublicWeb.py:454-468 | the sequence of `if`s produces the rendering of the equality clauses in chain order and the matching parameters |
| Predicate.EqConds | AppintegraPublicWeb.py:454-468 | definition of the five equality `if`s as clauses in chain order; its properties are in `Predicate.EqCondsColumns`, `Predicate.EqCondsIgnoreValues` and `Predicate.EqCondsMeaning` |
| Predicate.EqParams | AppintegraPublicWeb.py:454-468 | definition of the parameters those `if`s bind; its properties are in `Predicate.EqParamsAt` and `Predicate.EqParamsKeys` |
| Predicate.EqParamsAt | AppintegraPublicWeb.py:454-469 | for one chain position: its parameter name is bound if and only if its value applies, and then holds that value |
| Predicate.EqParamsKeys | AppintegraPublicWeb.py:454-469 | a dimension's parameter is bound if and only if its value applies (not "All", column resolved), and holds that value; no other key is bound |
| Predicate.EqCondsColumns | AppintegraPublicWeb.py:454-469 | every equality clause tests an applying dimension's resolved column against that dimension's parameter |
| Predicate.EqCondsIgnoreValues | AppintegraPublicWeb.py:454-469 | the clause text depends only on which values apply, never on the values: user input reaches only the parameter map |
| Predicate.EqCondsMeaning | AppintegraPublicWeb.py:454-469 | a row satisfies the equality clauses if and only if it carries every applying value in its dimension's column |
| Predicate.BuildWhere | AppintegraPublicWeb.py:453-475 | `build_where` returns the rendering of its clauses, the parameters for them, and `end_next` = midnight after `end` |
| Predicate.WhereTextSplit | AppintegraPublicWeb.py:470-475 | the where text is the equality clauses followed by `>= :start AND < :end_next`, the latter if and only if the date column resolved |
| Predicate.HalfOpenText | AppintegraPublicWeb.py:474 | the date `if` appends exactly the rendering of the half-open range clause |
| Predicate.HalfOpenIsInclusiveDays | AppintegraPublicWeb.py:470-474 | a timestamp lies in [midnight(start), midnight(end + 1)) if and only if its day lies in start..end |
| Predicate.WhereMeaning | AppintegraPublicWeb.py:453-475 | a row satisfies `build_where`'s predicate if and only if it equals every applying selection and, when the date column resolved, is dated within start..end inclusive |
| Predicate.DateParamsOnlyWithDate | AppintegraPublicWeb.py:469-474 | "start" and "end_next" are bound if and only if the date column resolved, and then hold midnight of the first day and of the day after the last |
| Predicate.OneDayWindow | AppintegraPublicWeb.py:470-474 | with start = end = D, the last second of D matches, while midnight of D + 1 and the second before D do not |
| FacetQueries.FacetConds | AppintegraPublicWeb.py:243-331 | definition of the `parts` of a `distinct_*` query; its properties are in `FacetQueries.FacetCondsUpstream`, `FacetQueries.FacetCondsAvoidOwnColumn` and `FacetQueries.FacetRowMeaning` |
| FacetQueries.FacetParams | AppintegraPublicWeb.py:243-331 | definition of the `params` of a `distinct_*` query; its properties are in `FacetQueries.FacetParamsUpstream` and `FacetQueries.FacetUpstreamOnly` |
| FacetQueries.DistinctQuery | AppintegraPublicWeb.py:226-343 | no query when the facet's column is unresolved; otherwise the DISTINCT query over the facet's filter and the upstream parameters (Division: no filter) |
| FacetQueries.FacetOptions | AppintegraPublicWeb.py:227-237 | an unresolved column or a failed query gives `[]`, otherwise the server's list |
| FacetQueries.FacetCondsUpstream | AppintegraPublicWeb.py:262-272 | every clause of a facet's query constrains a strictly-upstream, filtering dimension |
| FacetQueries.FacetCondsAvoidOwnColumn | AppintegraPublicWeb.py:262-272 | by column name: on the resolved schema no clause of a facet's query tests the facet's own column, so `distinct_wh` never constrains `WH_COL` |
| FacetQueries.FacetParamsUpstream | AppintegraPublicWeb.py:286-300 | a facet's parameters are exactly the filtering upstream values under their one-letter names; nothing at or below the facet is bound |
| FacetQueries.FacetUpstreamOnly | AppintegraPublicWeb.py:314-331 | the facet's own choice and every downstream choice do not change its query |
| FacetQueries.FacetRowMeaning | AppintegraPublicWeb.py:239-249 | a facet query selects exactly the rows matching every filtering upstream selection |
| FacetQueries.DateRangeQuery | AppintegraPublicWeb.py:345-372 | no query without a date column; otherwise MIN/MAX of the date under the filter on all five dimensions |
| FacetQueries.DateRangeRowMeaning | AppintegraPublicWeb.py:350-372 | the bounds range over exactly the rows matching every filtering selection |
| FacetQueries.SkipEmptyIrrelevant | AppintegraPublicWeb.py:352-353 | on a selection without empty values, the facet queries' filter and `build_where`'s filter select the same rows |
| FacetQueries.DateRangeResult | AppintegraPublicWeb.py:346-389 | both bounds when the server gave both; today twice when there is no date column, the query failed, or a bound is NULL |
| FacetQueries.DateRangeOrdered | AppintegraPublicWeb.py:378-384 | the returned pair is ordered whenever the server's MIN is at most its MAX |
| FacetQueries.IndexOf | AppintegraPublicWeb.py:410 | `list.index` gives the first position holding the value |
| FacetQueries.Repair | AppintegraPublicWeb.py:413-435 | a remembered value is kept if listed in `["All"] + options` and replaced by "All" otherwise; the index is always valid and shows that value |
| FacetQueries.DivisionIndex | AppintegraPublicWeb.py:408-411 | definition of the division box's inline `index=` rule; `FacetQueries.DivisionIndexIsRepair` proves it equal to the repair |
| FacetQueries.DivisionIndexIsRepair | AppintegraPublicWeb.py:408-417 | the division box's inline index rule gives the same index as the repair of the other boxes |
| FacetQueries.ClampAsWritten | AppintegraPublicWeb.py:437-441 | the clamp as written: the start is at least `min_d` and the end at most `max_d`; with no remembered range the result is `(min_d, max_d)` |
| FacetQueries.ClampAsWrittenEscapes | AppintegraPublicWeb.py:440-441 | remembered (10, 12) with bounds (1, 5) gives (10, 5): a start after `max_d` |
| FacetQueries.ClampAsWrittenEscapesAlways | AppintegraPublicWeb.py:440-441 | any remembered start after `max_d` stays after `max_d` |
| FacetQueries.ClampAsWrittenEndEscapes | AppintegraPublicWeb.py:440-441 | remembered (1, 2) with bounds (5, 10) gives (5, 2): an end before `min_d` |
| FacetQueries.ClampAsWrittenEndEscapesAlways | AppintegraPublicWeb.py:440-441 | any remembered end before `min_d` stays before `min_d` |
| FacetQueries.ClampRange | AppintegraPublicWeb.py:437-442 | the corrected clamp of "## Findings" (what line 442's `min_value`/`max_value` call for, not what lines 440-441 do): both ends lie in [min_d, max_d] whenever min_d ≤ max_d |
| FacetQueries.ClampRangeProperties | AppintegraPublicWeb.py:437-442 | the corrected clamp keeps an ordered range ordered, leaves a range already inside the bounds alone, and agrees with the code whenever the code's result is in bounds |
| FacetQueries.FormDates | AppintegraPublicWeb.py:437-442 | under the corrected clamp (`ClampRange`), the date box's initial range lies within the bounds `date_range` reports; the code as written can leave them (see "## Findings") |
| Fetch.WithCap | AppintegraPublicWeb.py:514-515 | the copy binds "cap" to the cap and keeps every other parameter unchanged |
| Fetch.CapKeepsWhereParams | AppintegraPublicWeb.py:514-515 | `build_where` never binds "cap", so the capped map is its parameters plus exactly "cap" |
| Fetch.OrderCol | AppintegraPublicWeb.py:506 | rows are ordered by the date column when it resolved, else by Visit_Time |
| Fetch.SummaryOf | AppintegraPublicWeb.py:568-573 | the first row when there is one; the empty-string/zero/None record when the frame is empty or the query failed |
| InMemoryCascade.Less | Streamlit.py:102 | definition of Python's string `<` (code points, a prefix first); properties in `InMemoryCascade.LessIrreflexive`, `LessTransitive` and `LessTotal` |
| InMemoryCascade.LessIrreflexive | Streamlit.py:102 | no string sorts before itself |
| InMemoryCascade.LessTransitive | Streamlit.py:102 | string order is transitive |
| InMemoryCascade.LessTotal | Streamlit.py:102 | any two distinct strings are ordered one way or the other |
| InMemoryCascade.SortedHasNoDuplicates | Streamlit.py:102 | a strictly sorted list has no repeated value |
| InMemoryCascade.SortedUnique | Streamlit.py:102 | two strictly sorted lists with the same elements are equal, so an option list is fixed by its values |
| InMemoryCascade.Insert | Streamlit.py:102 | inserting keeps the list strictly sorted and adds exactly the new value |
| InMemoryCascade.Options | Streamlit.py:102 | an option list is strictly sorted and holds exactly the non-null values of its column in the frame |
| InMemoryCascade.Keep | Streamlit.py:105 | `frame[frame[col] == v]` keeps exactly the rows whose cell is v, each as often as before, and drops the rest |
| InMemoryCascade.Narrow | Streamlit.py:104-105 | "All" leaves the frame unchanged; any other value keeps exactly the rows equal to it; the result is a sub-multiset |
| InMemoryCascade.NarrowThrough | Streamlit.py:99-129 | definition of the frame after the first n blocks; properties in `InMemoryCascade.NarrowThroughMeaning` and `InMemoryCascade.NarrowThroughShrinks` |
| InMemoryCascade.NarrowThroughMeaning | Streamlit.py:99-129 | after n stages the frame holds exactly the table rows satisfying the first n non-"All" selections |
| InMemoryCascade.NarrowThroughShrinks | Streamlit.py:104-129 | each later frame is a sub-multiset of every earlier one |
| InMemoryCascade.Stage | Streamlit.py:102-105 | one block: the options offered are those of the frame narrowed by the earlier stages, and the new frame is that frame narrowed by this stage's choice |
| InMemoryCascade.Cascade | Streamlit.py:99-129 | the five option lists are the options of the frame narrowed by the upstream stages, and the final frame is narrowed by all five |
| InMemoryCascade.CascadeMatches | Streamlit.py:99-129 | every row left after the cascade matches every non-"All" selection |
| InMemoryCascade.OptionFromUpstream | Streamlit.py:108-126 | an option offered for a facet comes from a table row satisfying every upstream selection |
| InMemoryCascade.UpstreamInOptions | Streamlit.py:108-126 | conversely every value of such a row is offered |
| InMemoryCascade.NoDeadEnd | Streamlit.py:99-129 | choosing only "All" or offered values never empties a non-empty frame |
| InMemoryCascade.DateSpan | Streamlit.py:132-133 | min and max over the non-null dates: ordered, bounding every date, each taken by some row; None exactly when no row has a date |
| Report.BetweenConds | Streamlit.py:141-161 | definition of the page's `where_parts` as clauses; its properties are in `Report.BuildBetweenWhere`, `Report.PageColumnsResolve` and `Report.BetweenAgreesWithHalfOpen` |
| Report.BetweenParams | Streamlit.py:141-161 | definition of the page's `params`; `Report.BuildBetweenWhere` returns them and `Report.BetweenAgreesWithHalfOpen` relates them to the half-open form |
| Report.BuildBetweenWhere | Streamlit.py:141-163 | the where text is the rendering of the selections' clauses followed by the inclusive date clause, and the parameters bind the selections, start and end |
| Report.BetweenText | Streamlit.py:159 | the appended date text is exactly the rendering of `CAST(Sales_Date AS DATE) BETWEEN :start AND :end` |
| Report.PageColumnsResolve | Streamlit.py:143-157 | on this page a selection filters exactly when it is not "All" |
| Report.BetweenAgreesWithHalfOpen | Streamlit.py:159-161 | the inclusive BETWEEN on dates selects the same rows as `build_where`'s half-open timestamp range for the same selection and days |
| Report.FetchLimit | Streamlit.py:175 | the limit is 10000 if and only if more than 10000 rows match, and absent otherwise |
| Report.FilteredSql | Streamlit.py:83-86 | the ordered, capped form of the query is used exactly when the limit is present and non-zero; None and 0 give the plain query |
| Report.FetchLimitBounds | Streamlit.py:175 | a limit is below the matching count, and no limit means at most 10000 rows match |
| Report.ProjectColumns | Streamlit.py:182-187 | the shown columns are exactly the listed ones present in the frame, never more than the list |
| Report.ProjectAllPresent | Streamlit.py:187 | a frame with every listed column shows all of them in list order |
| Report.Highlight | Streamlit.py:194-204 | red exactly when Pack_NPL is 0, Distance_Outlet_m is over 2000, Radius_MNT_m is over 300 or Fake_Indication is over 1; "" otherwise |
| Report.HighlightScope | Streamlit.py:194-204 | other columns are never coloured, and the three threshold rules stay red for larger values |

## Left out

- Streamlit widgets, CSS and HTML, the login pages and their credentials, session-state plumbing, and the `st.stop()` error exits: user interface only. The remembered values, the user's choices and "today" are inputs.
- The ODBC engine, the driver-retry loop and every SQL execution: database I/O. Query answers are inputs, namely `FacetOptions`' `answer`, `RangeReply` and `SummaryReply`. The in-memory cascade takes the distinct-values frame as its `table`.
- `@st.cache_data` / `@st.cache_resource`: caching is not modelled. The column list and the `distinct_*` and `date_range` answers are cached for 900 seconds (AppintegraPublicWeb.py:158, 225-344), and the row fetches for 300 seconds (AppintegraPublicWeb.py:503-539, Streamlit.py:66-216). So the real page can show options and rows up to that old, and stale relative to each other. The model assumes every answer is fresh.
- Predicate.Holds: a column equals a parameter when the two strings are identical. The server compares under the column's collation (SQL Server's default ignores letter case and trailing spaces), which is not modelled. Predicate.WhereMeaning, Predicate.EqCondsMeaning, FacetQueries.FacetRowMeaning and FacetQueries.DateRangeRowMeaning hold under this exact equality.
- The SQL text of `fetch_rows`, `fetch_rows_full`, `count_rows`, `load_distinct_values` and the route-summary aggregate is text the server interprets: AVG, TRY_CONVERT, ORDER BY and OFFSET/FETCH. Only its parameters, its order column and the summary fallback are modelled.
- Everything after line 590 of `AppintegraPublicWeb.py`: the file is cut there, so the funnel and route metrics are not visible.
- `to_csv_bytes`, the folium map and the `sort_values("Sequence")` of the report page: rendering, and a numeric sort of a display frame.
- Multi-line SQL literals: their whitespace is normalised to single spaces in `DateRangeQuery`.
- `Text.Lower`, `Text.Strip` and `Text.OnlyDigits` follow Python's `str.lower`, `str.strip` and `\d` on ASCII only. Python's rules for other Unicode letters, spaces and digits are not modelled.
- TravelTime.ParseSeconds: the `int(float(s))` fallback is floating-point parsing. It is the parameter `viaFloat`. A float input has already been turned into its `str` text, except NaN, which is `None`.
- `highlight_cells` compares cell values as given. A text cell, which would make Python raise on `>`, is not modelled; NaN is `None`, for which every comparison is false.
- Report.FilteredSql: the decimal text of the limit in the f-string is the parameter `limitText`.
- Route-summary fields are kept as opaque values of the server's row: `real` for the averages.
- Columns.Aliases: only the five facets' aliases are proved pairwise distinct (`Columns.AliasesDisjoint`, hence `Columns.ResolvedFacetColsDistinct`). That the date and measure roles never resolve to a facet's column is not stated, because no lemma about the queries needs it.

## Findings

| source | as written | input that shows it | evidently intended | confidence | as-written member | corrected member |
|---|---|---|---|---|---|---|
| AppintegraPublicWeb.py:440-441 | `ds = max(min_d, ds)` and `de = min(max_d, de)` clamp the start only from below and the end only from above | remembered range (day 10, day 12), new bounds (day 1, day 5) after narrowing the filters: the date box receives (10, 5), a start after `max_d` and after the end; symmetrically (1, 2) under (5, 10) gives (5, 2), an end before `min_d` | both ends clamped into [min_d, max_d], an ordered range staying ordered | not executed | FacetQueries.ClampAsWritten (exhibited by FacetQueries.ClampAsWrittenEscapes, FacetQueries.ClampAsWrittenEscapesAlways, FacetQueries.ClampAsWrittenEndEscapes and FacetQueries.ClampAsWrittenEndEscapesAlways) | FacetQueries.ClampRange (properties in FacetQueries.ClampRangeProperties, used by FacetQueries.FormDates) |
