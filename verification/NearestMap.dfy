/** The map from LFRic to Atlas points by nearest neighbour (src/monio/UtilsAtlas.cc). */
module NearestMap {
  import opened Options
  import opened DataOrder

  datatype Point = Point(lon: real, lat: real)

  /** A search tree over points: for a query it gives the index of a closest point. */
  type ClosestPoint<!P> = (seq<P>, P) -> nat

  type Distance<!P> = (P, P) -> real

  ghost predicate Metric<P(!new)>(d: Distance<P>) {
    && (forall p, q {:trigger d(p, q)} :: d(p, q) >= 0.0 && d(p, q) == d(q, p))
    && (forall p, q, r {:trigger d(p, q), d(q, r)} :: d(p, r) <= d(p, q) + d(q, r))
  }

  ghost predicate IsClosest<P(!new)>(tree: ClosestPoint<P>, d: Distance<P>) {
    forall points: seq<P>, q: P :: points != [] ==>
      tree(points, q) < |points| && forall i :: 0 <= i < |points| ==> d(points[tree(points, q)], q) <= d(points[i], q)
  }

  /** The map, if the grid has as many points as the file. */
  ghost function LfricAtlasMap<P(!new)>(tree: ClosestPoint<P>, atlas: seq<P>, lfric: seq<P>): (m: Option<Map>) {
    if |atlas| != |lfric| then None
    else Some(seq(|lfric|, k requires 0 <= k < |lfric| => tree(atlas, lfric[k])))
  }

  method CreateLfricAtlasMap<P(!new)>(tree: ClosestPoint<P>, atlas: seq<P>, lfric: seq<P>) returns (m: Option<Map>)
    ensures m == LfricAtlasMap(tree, atlas, lfric)
  {
    if |atlas| != |lfric| { return None; }
    var built: Map := [];
    for k := 0 to |lfric|
      invariant |built| == k && forall h :: 0 <= h < k ==> built[h] == tree(atlas, lfric[h])
    {
      built := built + [tree(atlas, lfric[k])];
    }
    assert built == LfricAtlasMap(tree, atlas, lfric).value;
    return Some(built);
  }

  /** Different points of the grid are at least `gap` apart. */
  ghost predicate Separated<P>(atlas: seq<P>, d: Distance<P>, gap: real) {
    forall i, j :: 0 <= i < j < |atlas| ==> d(atlas[i], atlas[j]) >= gap
  }

  /** Each file point lies within half a gap of its own grid point. */
  ghost predicate Near<P>(pairing: Map, atlas: seq<P>, lfric: seq<P>, d: Distance<P>, gap: real) {
    && |pairing| == |atlas| == |lfric| && InRange(pairing)
    && forall k :: 0 <= k < |lfric| ==> d(atlas[pairing[k]], lfric[k]) < gap / 2.0
  }

  lemma ClosestIsPaired<P(!new)>(tree: ClosestPoint<P>, atlas: seq<P>, lfric: seq<P>, d: Distance<P>, gap: real,
                                 pairing: Map, k: nat)
    requires Metric(d) && IsClosest(tree, d) && Separated(atlas, d, gap) && Near(pairing, atlas, lfric, d, gap)
    requires k < |lfric|
    ensures tree(atlas, lfric[k]) == pairing[k]
  {
    var found, own, q := tree(atlas, lfric[k]), pairing[k], lfric[k];
    assert d(atlas[found], q) <= d(atlas[own], q);
    assert d(atlas[own], atlas[found]) <= d(atlas[own], q) + d(q, atlas[found]);
    assert d(q, atlas[found]) == d(atlas[found], q) && d(atlas[own], atlas[found]) == d(atlas[found], atlas[own]);
  }

  /** Then the map is exactly that pairing, whatever tree finds it, and if no two file
      points share a grid point it is a permutation, so that the writer sets every
      position of a container and the reader fills every cell of a field. */
  lemma NearestMapIsPairing<P(!new)>(tree: ClosestPoint<P>, atlas: seq<P>, lfric: seq<P>, d: Distance<P>, gap: real,
                                     pairing: Map)
    requires Metric(d) && IsClosest(tree, d) && Separated(atlas, d, gap) && Near(pairing, atlas, lfric, d, gap)
    ensures LfricAtlasMap(tree, atlas, lfric) == Some(pairing)
    ensures Injective(pairing) ==> Permutation(pairing) && forall p :: 0 <= p < |pairing| ==> p in pairing
  {
    forall k | 0 <= k < |lfric| ensures tree(atlas, lfric[k]) == pairing[k] {
      ClosestIsPaired(tree, atlas, lfric, d, gap, pairing, k);
    }
    assert LfricAtlasMap(tree, atlas, lfric).value == pairing;
    if Injective(pairing) {
      forall p | 0 <= p < |pairing| ensures p in pairing {
        Surjective(pairing, p);
      }
    }
  }
}
