/**
 * The five facet dimensions of the filter chain, in cascade order
 * (Division -> Sales office -> Warehouse -> Supervisor -> Region),
 * and a user selection: one string per dimension, "All" meaning no filter.
 */
module Facets {

  /** The "no filter" sentinel every facet list starts with. */
  const ALL: string := "All"

  datatype Dim = Division | SalesOffice | Warehouse | Supervisor | Region

  /** Position of a dimension in the cascade; a facet is filtered only by lower levels. */
  function Level(d: Dim): (n: nat)
    ensures n < 5
  {
    match d
    case Division => 0
    case SalesOffice => 1
    case Warehouse => 2
    case Supervisor => 3
    case Region => 4
  }

  /** The cascade order itself. */
  const Chain: seq<Dim> := [Division, SalesOffice, Warehouse, Supervisor, Region]

  lemma ChainIndexesLevels(d: Dim)
    ensures |Chain| == 5 && Chain[Level(d)] == d
  {
  }

  /** `Level` and `Chain` are inverse bijections between dimensions and positions 0..4. */
  lemma LevelOfChain(i: nat)
    requires i < 5
    ensures Level(Chain[i]) == i
  {
    assert Chain[0] == Division && Chain[1] == SalesOffice && Chain[2] == Warehouse
        && Chain[3] == Supervisor && Chain[4] == Region;
  }

  /** One value per dimension, as the five selectboxes return them. */
  datatype Selection = Selection(division: string, salesOffice: string, warehouse: string,
                                 supervisor: string, region: string)

  function Chosen(sel: Selection, d: Dim): string
  {
    match d
    case Division => sel.division
    case SalesOffice => sel.salesOffice
    case Warehouse => sel.warehouse
    case Supervisor => sel.supervisor
    case Region => sel.region
  }

  /** The selection as a list in cascade order. */
  function Values(sel: Selection): (vs: seq<string>)
    ensures |vs| == 5
    ensures forall d :: vs[Level(d)] == Chosen(sel, d)
  {
    [sel.division, sel.salesOffice, sel.warehouse, sel.supervisor, sel.region]
  }

  /** The values of the dimensions strictly upstream of `facet`. */
  function Upstream(sel: Selection, facet: Dim): (up: seq<string>)
    ensures |up| == Level(facet)
    ensures forall d :: Level(d) < Level(facet) ==> up[Level(d)] == Chosen(sel, d)
  {
    Values(sel)[..Level(facet)]
  }

  /** A facet's upstream context depends on exactly the strictly-upstream choices:
      the facet's own choice and every downstream choice are irrelevant. */
  lemma UpstreamOnly(s1: Selection, s2: Selection, facet: Dim)
    ensures Upstream(s1, facet) == Upstream(s2, facet)
            <==> forall d :: Level(d) < Level(facet) ==> Chosen(s1, d) == Chosen(s2, d)
  {
    var u1, u2 := Upstream(s1, facet), Upstream(s2, facet);
    if forall d :: Level(d) < Level(facet) ==> Chosen(s1, d) == Chosen(s2, d) {
      forall i | 0 <= i < Level(facet) ensures u1[i] == u2[i] {
        ChainIndexesLevels(Chain[i]);
        assert Level(Chain[i]) == i;
      }
    }
  }
}
