/**
 * The in-memory variant of the filter form: the distinct key combinations are
 * loaded once, and the five option lists are computed from a frame that is
 * narrowed by each selection in cascade order.
 */
module InMemoryCascade {
  import opened Wrappers
  import opened Facets

  /** A row of the distinct-values frame; a NULL cell is None. */
  datatype KeyRow = KeyRow(division: Option<string>, salesOffice: Option<string>,
                           warehouse: Option<string>, supervisor: Option<string>,
                           region: Option<string>, salesDate: Option<int>)

  /** The frame column of a dimension: Division, Sales_Office_Name, WH_Name, Supervisor, Region. */
  function Field(r: KeyRow, d: Dim): Option<string>
  {
    match d
    case Division => r.division
    case SalesOffice => r.salesOffice
    case Warehouse => r.warehouse
    case Supervisor => r.supervisor
    case Region => r.region
  }

  // ------------------------------------------------------------ string order

  /** Python's string `<`: lexicographic on code points. */
  predicate Less(a: string, b: string)
    decreases |a|
  {
    if a == [] then b != []
    else if b == [] then false
    else if a[0] != b[0] then a[0] < b[0]
    else Less(a[1..], b[1..])
  }

  lemma {:induction false} LessIrreflexive(a: string)
    ensures !Less(a, a)
    decreases |a|
  {
    if a != [] {
      LessIrreflexive(a[1..]);
    }
  }

  lemma {:induction false} LessTransitive(a: string, b: string, c: string)
    requires Less(a, b) && Less(b, c)
    ensures Less(a, c)
    decreases |a|
  {
    if a != [] && b != [] && c != [] && a[0] == b[0] && b[0] == c[0] {
      LessTransitive(a[1..], b[1..], c[1..]);
    }
  }

  lemma {:induction false} LessTotal(a: string, b: string)
    ensures a == b || Less(a, b) || Less(b, a)
    decreases |a|
  {
    if a != [] && b != [] && a[0] == b[0] {
      LessTotal(a[1..], b[1..]);
      if a[1..] == b[1..] {
        assert a == [a[0]] + a[1..] && b == [b[0]] + b[1..];
      }
    }
  }

  /** Ascending with no duplicates. */
  predicate StrictlySorted(s: seq<string>)
  {
    forall i, j :: 0 <= i < j < |s| ==> Less(s[i], s[j])
  }

  lemma SortedHasNoDuplicates(s: seq<string>, i: nat, j: nat)
    requires StrictlySorted(s) && i < j < |s|
    ensures s[i] != s[j]
  {
    LessIrreflexive(s[i]);
  }

  /** A sorted list is determined by its elements, so the option list is the only
      sorted, duplicate-free list of those values. */
  lemma {:induction false} SortedUnique(a: seq<string>, b: seq<string>)
    requires StrictlySorted(a) && StrictlySorted(b)
    requires forall v :: v in a <==> v in b
    ensures a == b
    decreases |a|
  {
    if a != [] { assert a[0] in b; }
    if b != [] { assert b[0] in a; }
    if a != [] && b != [] {
      if a[0] != b[0] {
        assert a[0] in b && b[0] in a;
        var i :| 0 <= i < |a| && a[i] == b[0];
        var j :| 0 <= j < |b| && b[j] == a[0];
        assert i > 0 && j > 0;
        assert Less(a[0], a[i]) && Less(b[0], b[j]);
        LessIrreflexive(a[0]);
        LessTransitive(a[0], b[0], a[0]);
        assert false;
      }
      forall v ensures v in a[1..] <==> v in b[1..] {
        if v in a[1..] {
          var i :| 0 <= i < |a[1..]| && a[1..][i] == v;
          assert Less(a[0], a[i + 1]);
          LessIrreflexive(v);
          assert a[i + 1] == v && v in a && v in b;
          var j :| 0 <= j < |b| && b[j] == v;
          assert j != 0;
          assert b[1..][j - 1] == v;
        }
        if v in b[1..] {
          var j :| 0 <= j < |b[1..]| && b[1..][j] == v;
          assert Less(b[0], b[j + 1]);
          LessIrreflexive(v);
          assert b[j + 1] == v && v in b && v in a;
          var i :| 0 <= i < |a| && a[i] == v;
          assert i != 0;
          assert a[1..][i - 1] == v;
        }
      }
      SortedUnique(a[1..], b[1..]);
      assert a == [a[0]] + a[1..] && b == [b[0]] + b[1..];
    }
  }

  /** Adds x to a sorted list unless it is there already. */
  function Insert(x: string, s: seq<string>): (r: seq<string>)
    requires StrictlySorted(s)
    ensures StrictlySorted(r)
    ensures forall v :: v in r <==> v == x || v in s
  {
    if s == [] then [x]
    else if x == s[0] then s
    else if Less(x, s[0]) then
      assert StrictlySorted([x] + s) by {
        forall j | 0 <= j < |s| ensures Less(x, s[j]) {
          if j > 0 { LessTransitive(x, s[0], s[j]); }
        }
      }
      [x] + s
    else
      LessTotal(x, s[0]);
      var rest := Insert(x, s[1..]);
      assert forall v :: v in rest ==> Less(s[0], v) by {
        forall v | v in rest ensures Less(s[0], v) {
          if v != x {
            var j :| 0 <= j < |s[1..]| && s[1..][j] == v;
            assert s[j + 1] == v;
          }
        }
      }
      assert StrictlySorted([s[0]] + rest) by {
        forall i, j | 0 <= i < j < |rest| + 1 ensures Less(([s[0]] + rest)[i], ([s[0]] + rest)[j]) {
          if i == 0 { assert rest[j - 1] in rest; }
        }
      }
      [s[0]] + rest
  }

  /** The row carries value v in d's column. */
  predicate Occurs(rows: seq<KeyRow>, d: Dim, v: string)
  {
    exists r :: r in rows && Field(r, d) == Some(v)
  }

  /** `sorted(frame[col].dropna().unique())`. */
  function Options(rows: seq<KeyRow>, d: Dim): (opts: seq<string>)
    ensures StrictlySorted(opts)
    ensures forall v :: v in opts <==> Occurs(rows, d, v)
  {
    if rows == [] then []
    else
      var rest := Options(rows[1..], d);
      assert forall v :: Occurs(rows, d, v) <==> Field(rows[0], d) == Some(v) || Occurs(rows[1..], d, v) by {
        forall v ensures Occurs(rows, d, v) <==> Field(rows[0], d) == Some(v) || Occurs(rows[1..], d, v) {
          if Occurs(rows, d, v) {
            var r :| r in rows && Field(r, d) == Some(v);
            if r != rows[0] {
              assert r in rows[1..];
            }
          }
          if Occurs(rows[1..], d, v) {
            var r :| r in rows[1..] && Field(r, d) == Some(v);
            assert r in rows;
          }
        }
      }
      match Field(rows[0], d)
      case None => rest
      case Some(v) => Insert(v, rest)
  }

  // ------------------------------------------------------------ narrowing

  /** `frame[frame[col] == v]`: a NULL cell equals nothing. */
  function Keep(rows: seq<KeyRow>, d: Dim, v: string): (r: seq<KeyRow>)
    ensures forall x :: x in r <==> x in rows && Field(x, d) == Some(v)
    ensures forall x :: multiset(r)[x] == if Field(x, d) == Some(v) then multiset(rows)[x] else 0
  {
    if rows == [] then []
    else
      assert rows == [rows[0]] + rows[1..];
      (if Field(rows[0], d) == Some(v) then [rows[0]] else []) + Keep(rows[1..], d, v)
  }

  /** One cascade stage: "All" leaves the frame alone, any other value keeps the rows equal to it. */
  function Narrow(rows: seq<KeyRow>, d: Dim, v: string): (r: seq<KeyRow>)
    ensures v == ALL ==> r == rows
    ensures v != ALL ==> forall x :: x in r <==> x in rows && Field(x, d) == Some(v)
    ensures multiset(r) <= multiset(rows)
  {
    if v != ALL then Keep(rows, d, v) else rows
  }

  /** The frame after the first n stages. */
  function NarrowThrough(table: seq<KeyRow>, sel: Selection, n: nat): seq<KeyRow>
    requires n <= 5
  {
    if n == 0 then table
    else Narrow(NarrowThrough(table, sel, n - 1), Chain[n - 1], Chosen(sel, Chain[n - 1]))
  }

  /** The row satisfies the non-"All" selections of the first n dimensions. */
  predicate SatisfiesFirst(r: KeyRow, sel: Selection, n: nat)
  {
    forall d :: Level(d) < n && Chosen(sel, d) != ALL ==> Field(r, d) == Some(Chosen(sel, d))
  }

  /** After n stages the frame holds exactly the table rows satisfying the first n selections. */
  lemma {:induction false} NarrowThroughMeaning(table: seq<KeyRow>, sel: Selection, n: nat)
    requires n <= 5
    ensures forall r :: r in NarrowThrough(table, sel, n) <==> r in table && SatisfiesFirst(r, sel, n)
  {
    if n > 0 {
      NarrowThroughMeaning(table, sel, n - 1);
      LevelOfChain(n - 1);
      forall r ensures SatisfiesFirst(r, sel, n) <==> (SatisfiesFirst(r, sel, n - 1)
                       && (Chosen(sel, Chain[n - 1]) != ALL ==> Field(r, Chain[n - 1]) == Some(Chosen(sel, Chain[n - 1]))))
      {
        forall d | Level(d) == n - 1 ensures d == Chain[n - 1] {
          ChainIndexesLevels(d);
        }
      }
    }
  }

  /** Each stage keeps a sub-multiset of the previous frame. */
  lemma {:induction false} NarrowThroughShrinks(table: seq<KeyRow>, sel: Selection, m: nat, n: nat)
    requires m <= n <= 5
    ensures multiset(NarrowThrough(table, sel, n)) <= multiset(NarrowThrough(table, sel, m))
    decreases n - m
  {
    if m < n {
      NarrowThroughShrinks(table, sel, m, n - 1);
    }
  }

  /** One block of the page: offer the sorted unique values of the frame so far, then narrow the frame
      by the choice unless it is "All". */
  method Stage(table: seq<KeyRow>, sel: Selection, k: nat, filtered: seq<KeyRow>)
    returns (opts: seq<string>, next: seq<KeyRow>)
    requires k < 5 && filtered == NarrowThrough(table, sel, k)
    ensures opts == Options(NarrowThrough(table, sel, k), Chain[k])
    ensures next == NarrowThrough(table, sel, k + 1)
  {
    var d := Chain[k];
    opts := Options(filtered, d);
    next := filtered;
    if Chosen(sel, d) != ALL {
      next := Keep(filtered, d, Chosen(sel, d));
    }
  }

  /** The five option lists and the final frame, stage by stage as the page computes them. */
  method Cascade(table: seq<KeyRow>, sel: Selection) returns (opts: seq<seq<string>>, filtered: seq<KeyRow>)
    ensures |opts| == 5
    ensures forall i :: 0 <= i < 5 ==> opts[i] == Options(NarrowThrough(table, sel, i), Chain[i])
    ensures filtered == NarrowThrough(table, sel, 5)
  {
    var divisionOpts, f1 := Stage(table, sel, 0, table);
    var amoOpts, f2 := Stage(table, sel, 1, f1);
    var whOpts, f3 := Stage(table, sel, 2, f2);
    var spvOpts, f4 := Stage(table, sel, 3, f3);
    var regionOpts, f5 := Stage(table, sel, 4, f4);
    opts := [divisionOpts, amoOpts, whOpts, spvOpts, regionOpts];
    filtered := f5;
    forall i | 0 <= i < 5 ensures opts[i] == Options(NarrowThrough(table, sel, i), Chain[i]) {
      if i == 0 { assert opts[0] == divisionOpts; }
      else if i == 1 { assert opts[1] == amoOpts; }
      else if i == 2 { assert opts[2] == whOpts; }
      else if i == 3 { assert opts[3] == spvOpts; }
      else { assert opts[4] == regionOpts; }
    }
  }

  /** After the cascade every remaining row matches every non-"All" selection. */
  lemma CascadeMatches(table: seq<KeyRow>, sel: Selection)
    ensures forall r :: r in NarrowThrough(table, sel, 5) ==>
              forall d :: Chosen(sel, d) != ALL ==> Field(r, d) == Some(Chosen(sel, d))
  {
    NarrowThroughMeaning(table, sel, 5);
    forall r, d | r in NarrowThrough(table, sel, 5) && Chosen(sel, d) != ALL ensures Field(r, d) == Some(Chosen(sel, d)) {
      assert SatisfiesFirst(r, sel, 5);
      assert Level(d) < 5;
    }
  }

  /** Each option offered for a facet comes from a table row satisfying all upstream selections. */
  lemma OptionFromUpstream(table: seq<KeyRow>, sel: Selection, d: Dim, v: string)
    requires v in Options(NarrowThrough(table, sel, Level(d)), d)
    ensures exists r :: r in table && SatisfiesFirst(r, sel, Level(d)) && Field(r, d) == Some(v)
  {
    NarrowThroughMeaning(table, sel, Level(d));
    var r :| r in NarrowThrough(table, sel, Level(d)) && Field(r, d) == Some(v);
    assert r in table && SatisfiesFirst(r, sel, Level(d));
  }

  /** Conversely, every value a surviving row carries is offered. */
  lemma UpstreamInOptions(table: seq<KeyRow>, sel: Selection, d: Dim, r: KeyRow, v: string)
    requires r in table && SatisfiesFirst(r, sel, Level(d)) && Field(r, d) == Some(v)
    ensures v in Options(NarrowThrough(table, sel, Level(d)), d)
  {
    NarrowThroughMeaning(table, sel, Level(d));
    assert r in NarrowThrough(table, sel, Level(d));
  }

  /** Every selection is "All" or taken from its own option list, as a selectbox returns it. */
  predicate Offered(table: seq<KeyRow>, sel: Selection)
  {
    forall i :: 0 <= i < 5 ==>
      Chosen(sel, Chain[i]) == ALL || Chosen(sel, Chain[i]) in Options(NarrowThrough(table, sel, i), Chain[i])
  }

  /** Choosing only offered values never empties the frame. */
  lemma {:induction false} NoDeadEnd(table: seq<KeyRow>, sel: Selection, n: nat)
    requires n <= 5 && table != [] && Offered(table, sel)
    ensures NarrowThrough(table, sel, n) != []
  {
    if n > 0 {
      NoDeadEnd(table, sel, n - 1);
      var prev := NarrowThrough(table, sel, n - 1);
      var d, v := Chain[n - 1], Chosen(sel, Chain[n - 1]);
      if v != ALL {
        assert v in Options(prev, d);
        var r :| r in prev && Field(r, d) == Some(v);
        assert r in NarrowThrough(table, sel, n);
      }
    }
  }

  // ------------------------------------------------------------ date span

  /** `frame["Sales_Date"].min()` and `.max()` over the non-NULL dates; None when there is none. */
  function DateSpan(rows: seq<KeyRow>): (span: Option<(int, int)>)
    ensures span.None? <==> forall r :: r in rows ==> r.salesDate.None?
    ensures span.Some? ==> span.value.0 <= span.value.1
    ensures span.Some? ==> forall r :: r in rows && r.salesDate.Some? ==>
                             span.value.0 <= r.salesDate.value <= span.value.1
    ensures span.Some? ==> exists r :: r in rows && r.salesDate == Some(span.value.0)
    ensures span.Some? ==> exists r :: r in rows && r.salesDate == Some(span.value.1)
  {
    if rows == [] then None
    else
      var rest := DateSpan(rows[1..]);
      assert forall r :: r in rows <==> r == rows[0] || r in rows[1..];
      match rows[0].salesDate
      case None => rest
      case Some(t) =>
        if rest.None? then Some((t, t))
        else
          var lo := if t < rest.value.0 then t else rest.value.0;
          var hi := if t > rest.value.1 then t else rest.value.1;
          Some((lo, hi))
  }
}
