/**
 * Schema resolution: mapping tolerant column-name aliases onto the columns
 * that actually exist in the table, case-insensitively (`pick_col` and the
 * column-name constants built from it), and the keep-what-exists column
 * lists (`RAW_COLS`, the `front_cols` projection).
 */
module Columns {
  import opened Wrappers
  import opened Text
  import opened Facets

  /** The last column of `available` whose lower-case form is `key`. */
  function LastWithLower(available: seq<string>, key: string): (r: Option<string>)
    ensures r.Some? ==> r.value in available && Lower(r.value) == key
    ensures r.None? <==> forall a :: a in available ==> Lower(a) != key
  {
    if available == [] then None
    else
      var last := available[|available| - 1];
      if Lower(last) == key then Some(last)
      else
        assert available == available[..|available| - 1] + [last];
        LastWithLower(available[..|available| - 1], key)
  }

  /** The dict comprehension `{c.lower(): c for c in available}`: later columns overwrite earlier ones. */
  function LowerIndex(available: seq<string>): map<string, string>
  {
    if available == [] then map[]
    else
      var last := available[|available| - 1];
      LowerIndex(available[..|available| - 1])[Lower(last) := last]
  }

  /** The dictionary answers every lookup with the last column of that lower-case form. */
  lemma {:induction false} LowerIndexLookup(available: seq<string>, key: string)
    ensures key in LowerIndex(available) <==> LastWithLower(available, key).Some?
    ensures key in LowerIndex(available) ==> LowerIndex(available)[key] == LastWithLower(available, key).value
  {
    if available != [] {
      LowerIndexLookup(available[..|available| - 1], key);
    }
  }

  /** `LastWithLower` returns the match that no later column shadows. */
  lemma {:induction false} LastWithLowerIsLast(available: seq<string>, key: string, i: nat)
    requires i < |available| && Lower(available[i]) == key
    requires forall j :: i < j < |available| ==> Lower(available[j]) != key
    ensures LastWithLower(available, key) == Some(available[i])
  {
    if i < |available| - 1 {
      LastWithLowerIsLast(available[..|available| - 1], key, i);
    }
  }

  /** Reference meaning of `pick_col`: the first non-empty candidate that has a
      case-insensitive match decides, and its match is the last such column. */
  function PickColSpec(candidates: seq<string>, available: seq<string>): Option<string>
  {
    if available == [] || candidates == [] then None
    else if candidates[0] != "" && LastWithLower(available, Lower(candidates[0])).Some? then
      LastWithLower(available, Lower(candidates[0]))
    else PickColSpec(candidates[1..], available)
  }

  /** Candidate `k` is the first non-empty candidate that matches some column. */
  predicate FirstHit(candidates: seq<string>, available: seq<string>, k: nat)
  {
    && k < |candidates|
    && candidates[k] != ""
    && LastWithLower(available, Lower(candidates[k])).Some?
    && forall j :: 0 <= j < k ==> candidates[j] == "" || LastWithLower(available, Lower(candidates[j])).None?
  }

  /** `pick_col` gives None exactly when nothing is available or no non-empty candidate matches. */
  lemma {:induction false} PickColNone(candidates: seq<string>, available: seq<string>)
    ensures PickColSpec(candidates, available).None? <==>
            (available == [] ||
             forall k :: 0 <= k < |candidates| ==>
               candidates[k] == "" || LastWithLower(available, Lower(candidates[k])).None?)
  {
    if available != [] && candidates != [] {
      PickColNone(candidates[1..], available);
      assert forall k :: 1 <= k < |candidates| ==> candidates[k] == candidates[1..][k - 1];
    }
  }

  /** Otherwise the answer is the last column matching the first hitting candidate. */
  lemma {:induction false} PickColFirstHit(candidates: seq<string>, available: seq<string>, k: nat)
    requires FirstHit(candidates, available, k)
    ensures PickColSpec(candidates, available) == LastWithLower(available, Lower(candidates[k]))
    ensures PickColSpec(candidates, available).Some?
    ensures PickColSpec(candidates, available).value in available
    ensures Lower(PickColSpec(candidates, available).value) == Lower(candidates[k])
  {
    if k > 0 {
      assert candidates[0] == "" || LastWithLower(available, Lower(candidates[0])).None?;
      assert FirstHit(candidates[1..], available, k - 1) by {
        forall j | 0 <= j < k - 1
          ensures candidates[1..][j] == "" || LastWithLower(available, Lower(candidates[1..][j])).None?
        {
          assert candidates[1..][j] == candidates[j + 1];
        }
      }
      PickColFirstHit(candidates[1..], available, k - 1);
    }
  }

  /** `pick_col`: a loop over the candidates with an early return, over the lower-case dictionary. */
  method PickCol(candidates: seq<string>, available: seq<string>) returns (r: Option<string>)
    ensures r == PickColSpec(candidates, available)
    ensures available == [] ==> r.None?
    ensures r.Some? ==> r.value in available && r.value != ""
  {
    if available == [] {
      return None;
    }
    var availLower := LowerIndex(available);
    var j := 0;
    while j < |candidates|
      invariant 0 <= j <= |candidates|
      invariant PickColSpec(candidates[j..], available) == PickColSpec(candidates, available)
    {
      var c := candidates[j];
      assert candidates[j..][0] == c && candidates[j..][1..] == candidates[j + 1..];
      if c != "" {
        var key := Lower(c);
        LowerIndexLookup(available, key);
        if key in availLower {
          var found := availLower[key];
          assert |found| == |Lower(found)| == |key| == |c|;
          if found != "" {
            return Some(found);
          }
        }
      }
      j := j + 1;
    }
    return None;
  }

  // ---------------------------------------------------------------- the schema

  /** Logical roles a column can play: the five facets and four measures. */
  datatype Role = Facet(dim: Dim) | SalesDate | TravelTime | Distance | Radius

  /** The ordered alias list tried for each role. */
  function Aliases(role: Role): seq<string>
  {
    match role
    case Facet(Division) => ["Division", "Divisi"]
    case Facet(SalesOffice) =>
      ["Sales_Office_Name", "Sales_Office", "AMO", "AMO_Name", "SalesOffice", "Sales_OfficeName"]
    case Facet(Warehouse) => ["WH_Name", "Warehouse", "Warehouse_Name", "WH"]
    case Facet(Supervisor) => ["SPV_Employee_Name", "SPV_Name", "Supervisor", "Supervisor_Name"]
    case Facet(Region) => ["Region", "Region_Code", "Area", "Area_Name"]
    case SalesDate => ["Sales_Date", "Visit_Date", "Trans_Date", "Date"]
    case TravelTime =>
      ["Travel_Transaction_Time_HHMMSS", "Travel_Time_HHMMSS", "Travel_Transaction_Time",
       "TravelTime", "Travel_Time", "TransTime", "Travel_Trans_HHMMSS", "TT_HHMMSS"]
    case Distance => ["Distance_Outlet_m", "Distance_m", "Distance", "Outlet_Distance_m"]
    case Radius => ["Radius_MNT_m", "Radius_m", "Radius"]
  }

  /** The resolved column of each role; None means the role is unavailable. */
  datatype Schema = Schema(division: Option<string>, salesOffice: Option<string>,
                           warehouse: Option<string>, supervisor: Option<string>,
                           region: Option<string>, salesDate: Option<string>,
                           travelTime: Option<string>, distance: Option<string>,
                           radius: Option<string>)

  function Col(s: Schema, role: Role): Option<string>
  {
    match role
    case Facet(Division) => s.division
    case Facet(SalesOffice) => s.salesOffice
    case Facet(Warehouse) => s.warehouse
    case Facet(Supervisor) => s.supervisor
    case Facet(Region) => s.region
    case SalesDate => s.salesDate
    case TravelTime => s.travelTime
    case Distance => s.distance
    case Radius => s.radius
  }

  function FacetCol(s: Schema, d: Dim): Option<string>
  {
    Col(s, Facet(d))
  }

  /** The schema every later stage uses: each role resolved through its aliases. */
  function Resolved(available: seq<string>): Schema
  {
    ResolvedWith(Aliases, available)
  }

  /** Resolution under any alias table. */
  function ResolvedWith(aliases: Role -> seq<string>, available: seq<string>): Schema
  {
    Schema(PickColSpec(aliases(Facet(Division)), available),
           PickColSpec(aliases(Facet(SalesOffice)), available),
           PickColSpec(aliases(Facet(Warehouse)), available),
           PickColSpec(aliases(Facet(Supervisor)), available),
           PickColSpec(aliases(Facet(Region)), available),
           PickColSpec(aliases(SalesDate), available),
           PickColSpec(aliases(TravelTime), available),
           PickColSpec(aliases(Distance), available),
           PickColSpec(aliases(Radius), available))
  }

  /** The nine `pick_col` calls that fix the column-name constants. */
  method ResolveSchema(available: seq<string>) returns (s: Schema)
    ensures s == Resolved(available)
  {
    var division := PickCol(Aliases(Facet(Division)), available);
    var salesOffice := PickCol(Aliases(Facet(SalesOffice)), available);
    var warehouse := PickCol(Aliases(Facet(Warehouse)), available);
    var supervisor := PickCol(Aliases(Facet(Supervisor)), available);
    var region := PickCol(Aliases(Facet(Region)), available);
    var salesDate := PickCol(Aliases(SalesDate), available);
    var travelTime := PickCol(Aliases(TravelTime), available);
    var distance := PickCol(Aliases(Distance), available);
    var radius := PickCol(Aliases(Radius), available);
    s := Schema(division, salesOffice, warehouse, supervisor, region, salesDate,
                travelTime, distance, radius);
  }

  /** Each role's column is its aliases' `pick_col` answer: an available column, and none when nothing is available. */
  lemma ResolvedCol(available: seq<string>, role: Role)
    ensures Col(Resolved(available), role) == PickColSpec(Aliases(role), available)
    ensures Col(Resolved(available), role).Some? ==> Col(Resolved(available), role).value in available
    ensures available == [] ==> Col(Resolved(available), role).None?
  {
    var cands := Aliases(role);
    assert Col(Resolved(available), role) == PickColSpec(cands, available) by {
      ResolvedColIs(Aliases, available, role);
    }
    PickColMatchesAlias(cands, available);
  }

  lemma ResolvedColIs(aliases: Role -> seq<string>, available: seq<string>, role: Role)
    ensures Col(ResolvedWith(aliases, available), role) == PickColSpec(aliases(role), available)
  {
    match role
    case Facet(d) => {}
    case SalesDate => {}
    case TravelTime => {}
    case Distance => {}
    case Radius => {}
  }

  /** A resolved column is always lower-case-equal to one of its role's aliases. */
  lemma {:induction false} PickColMatchesAlias(candidates: seq<string>, available: seq<string>)
    ensures PickColSpec(candidates, available).Some? ==>
            PickColSpec(candidates, available).value in available &&
            exists a :: a in candidates && a != "" && Lower(a) == Lower(PickColSpec(candidates, available).value)
  {
    if available != [] && candidates != [] && !(candidates[0] != "" && LastWithLower(available, Lower(candidates[0])).Some?) {
      PickColMatchesAlias(candidates[1..], available);
    }
  }

  /** The first two lower-case letters the aliases of a facet can start with. */
  predicate AliasLead(d: Dim, x: char, y: char)
  {
    match d
    case Division => x == 'd' && y == 'i'
    case SalesOffice => (x == 's' && y == 'a') || (x == 'a' && y == 'm')
    case Warehouse => x == 'w' && (y == 'h' || y == 'a')
    case Supervisor => x == 's' && (y == 'p' || y == 'u')
    case Region => (x == 'r' && y == 'e') || (x == 'a' && y == 'r')
  }

  /** Every alias of a facet is at least two characters long and starts as `AliasLead` says. */
  lemma AliasStarts(d: Dim, a: string)
    requires a in Aliases(Facet(d))
    ensures |a| >= 2 && AliasLead(d, LowerChar(a[0]), LowerChar(a[1]))
  {
    match d
    case Division => {}
    case SalesOffice => {}
    case Warehouse => {}
    case Supervisor => {}
    case Region => {}
  }

  /** No two facets share a two-letter start. */
  lemma AliasLeadsDisjoint(d1: Dim, d2: Dim, x: char, y: char)
    ensures AliasLead(d1, x, y) && AliasLead(d2, x, y) ==> d1 == d2
  {
  }

  /** Aliases of different facets differ even after lower-casing. */
  lemma AliasesDisjoint(d1: Dim, d2: Dim, a: string, b: string)
    requires d1 != d2 && a in Aliases(Facet(d1)) && b in Aliases(Facet(d2))
    ensures Lower(a) != Lower(b)
  {
    AliasStarts(d1, a);
    AliasStarts(d2, b);
    AliasLeadsDisjoint(d1, d2, LowerChar(a[0]), LowerChar(a[1]));
    assert Lower(a)[0] == LowerChar(a[0]) && Lower(a)[1] == LowerChar(a[1]);
    assert |Lower(b)| >= 2 && Lower(b)[0] == LowerChar(b[0]) && Lower(b)[1] == LowerChar(b[1]);
  }

  /** Two facets never resolve to the same column, whatever the table holds. */
  lemma ResolvedFacetColsDistinct(available: seq<string>, d1: Dim, d2: Dim)
    requires d1 != d2
    ensures FacetCol(Resolved(available), d1).Some? && FacetCol(Resolved(available), d2).Some? ==>
              FacetCol(Resolved(available), d1).value != FacetCol(Resolved(available), d2).value
  {
    var c1 := FacetCol(Resolved(available), d1);
    var c2 := FacetCol(Resolved(available), d2);
    if c1.Some? && c2.Some? {
      ResolvedCol(available, Facet(d1));
      ResolvedCol(available, Facet(d2));
      PickColMatchesAlias(Aliases(Facet(d1)), available);
      PickColMatchesAlias(Aliases(Facet(d2)), available);
      var a1 :| a1 in Aliases(Facet(d1)) && a1 != "" && Lower(a1) == Lower(c1.value);
      var a2 :| a2 in Aliases(Facet(d2)) && a2 != "" && Lower(a2) == Lower(c2.value);
      AliasesDisjoint(d1, d2, a1, a2);
    }
  }

  // ------------------------------------------------------- keep-what-exists lists

  /** `[c for c in cols if c in present]`. */
  function KeepPresent(cols: seq<string>, present: seq<string>): (r: seq<string>)
    ensures forall c :: c in r <==> c in cols && c in present
    ensures |r| <= |cols|
  {
    if cols == [] then []
    else (if cols[0] in present then [cols[0]] else []) + KeepPresent(cols[1..], present)
  }

  /** Filtering distributes over concatenation, so the kept columns stay in list order. */
  lemma {:induction false} KeepPresentAppend(a: seq<string>, b: seq<string>, present: seq<string>)
    ensures KeepPresent(a + b, present) == KeepPresent(a, present) + KeepPresent(b, present)
  {
    if a == [] {
      assert a + b == b;
    } else {
      assert (a + b)[0] == a[0] && (a + b)[1..] == a[1..] + b;
      KeepPresentAppend(a[1..], b, present);
    }
  }

  /** When every listed column exists, nothing is dropped. */
  lemma {:induction false} KeepPresentAll(cols: seq<string>, present: seq<string>)
    requires forall c :: c in cols ==> c in present
    ensures KeepPresent(cols, present) == cols
  {
    if cols != [] {
      KeepPresentAll(cols[1..], present);
    }
  }

  /** The columns the row query selects: the lookups of the three measure columns
      sit at positions 9-11 of the preferred list. */
  function PreferredCols(s: Schema): seq<Option<string>>
  {
    [Some("Sequence"), Some("Visit_Time"), Some("Latitude"), Some("Longitude"), Some("Customer_Code"),
     Some("Store_Name"), Some("Visit_Div_"), Some("Pack_Regular"), Some("Pack_NPL"),
     s.travelTime, s.distance, s.radius,
     Some("Google_Maps"), Some("Fake_Indication"), Some("Outlet_Address"), Some("Outlet_Latitude"),
     Some("Outlet_Longitude"),
     Some("MNT_Latitude"), Some("Latitude_MNT"), Some("MNT_Lat"), Some("Lat_MNT"), Some("MNTLatitude"),
     Some("MNT_Longitude"), Some("Longitude_MNT"), Some("MNT_Long"), Some("Lon_MNT"), Some("Long_MNT"),
     Some("MNTLongitude")]
  }

  /** The truthy entries of a list of lookups (`if c` drops None and ""). */
  function Defined(cs: seq<Option<string>>): (r: seq<string>)
    ensures forall c :: c in r <==> c != "" && Some(c) in cs
  {
    if cs == [] then []
    else (if cs[0].Some? && cs[0].value != "" then [cs[0].value] else []) + Defined(cs[1..])
  }

  /** `RAW_COLS = [c for c in preferred_cols if c and (c in ALL_COLS)]`. */
  function RawCols(s: Schema, allCols: seq<string>): (r: seq<string>)
    ensures forall c :: c in r <==> c != "" && c in allCols && Some(c) in PreferredCols(s)
  {
    KeepPresent(Defined(PreferredCols(s)), allCols)
  }

  /** The column list `get_columns` falls back to when the catalog query fails. */
  const FallbackCols: seq<string> :=
    ["Sequence", "Visit_Time", "Latitude", "Longitude", "Customer_Code", "Store_Name",
     "Visit_Div_", "Pack_Regular", "Pack_NPL", "Google_Maps", "Fake_Indication"]

  /** `get_columns`: the catalog's answer, or the fallback list when the query failed. */
  function AvailableColumns(catalog: Option<seq<string>>): (cols: seq<string>)
    ensures catalog.None? ==> cols == FallbackCols
    ensures catalog.Some? ==> cols == catalog.value
  {
    match catalog
    case None => FallbackCols
    case Some(cs) => cs
  }
}
