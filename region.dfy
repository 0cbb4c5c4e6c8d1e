/**
 * Specified models of the local copies the halo code calls: Grid's `localCopyRegion`
 * (copy a box of local sites between two fields, each on its own grid), `InsertSliceLocal`
 * (copy one slice of a field into a slice of a field on a grid that differs only along
 * the slice's dimension) and the allocation of a field on a grid.
 */
module Region {
  import opened Lexicographic
  import opened Geometry
  import opened Marshal
  import opened Coordinates

  /** Coordinate `c` lies in the box with lower corner `ll` and extents `sz`. */
  predicate InBox(c: seq<nat>, ll: seq<nat>, sz: seq<nat>)
  {
    |c| == |ll| == |sz| && forall k :: 0 <= k < |c| ==> ll[k] <= c[k] < ll[k] + sz[k]
  }

  /** Move `c` from the box at `toLL` to the box at `fromLL`. */
  function Rebase(c: seq<nat>, toLL: seq<nat>, fromLL: seq<nat>): (r: seq<nat>)
    requires |c| == |toLL| == |fromLL| && forall k :: 0 <= k < |c| ==> toLL[k] <= c[k]
    ensures |r| == |c|
  {
    seq(|c|, k requires 0 <= k < |c| => c[k] - toLL[k] + fromLL[k])
  }

  /** The arguments of a region copy: both boxes lie inside their grids. */
  predicate RegionArgs(g: Grid, ng: Grid, fromLL: seq<nat>, toLL: seq<nat>, sz: seq<nat>)
  {
    && g.WellFormed() && ng.WellFormed() && ng.Nd() == g.Nd()
    && |fromLL| == |toLL| == |sz| == g.Nd()
    && forall k :: 0 <= k < g.Nd() ==> fromLL[k] + sz[k] <= g.ldims[k] && toLL[k] + sz[k] <= ng.ldims[k]
  }

  /** A coordinate of the destination box, moved to the source box, is a coordinate of the source grid. */
  lemma RebaseInRange(g: Grid, ng: Grid, fromLL: seq<nat>, toLL: seq<nat>, sz: seq<nat>, c: seq<nat>)
    requires RegionArgs(g, ng, fromLL, toLL, sz) && InBox(c, toLL, sz)
    ensures InRange(Rebase(c, toLL, fromLL), g.ldims)
  {
  }

  /** Lane `l` of site `o` of the destination after the region copy. */
  function CopyLane<T>(from: seq<seq<T>>, g: Grid, to: seq<seq<T>>, ng: Grid,
                       fromLL: seq<nat>, toLL: seq<nat>, sz: seq<nat>, o: nat, l: nat): T
    requires RegionArgs(g, ng, fromLL, toLL, sz) && Conforms(from, g) && Conforms(to, ng)
    requires o < ng.OSites() && l < ng.Nsimd()
  {
    LocalCoorInverse(ng, o, l);
    var c := LocalCoor(ng, o, l);
    if InBox(c, toLL, sz) then
      RebaseInRange(g, ng, fromLL, toLL, sz, c);
      Value(from, g, Rebase(c, toLL, fromLL))
    else to[o][l]
  }

  /** `localCopyRegion(from, to, fromLL, toLL, sz)`: the box `sz` at `fromLL` of `from` goes to `toLL` of `to`. */
  function LocalCopyRegion<T>(from: seq<seq<T>>, g: Grid, to: seq<seq<T>>, ng: Grid,
                              fromLL: seq<nat>, toLL: seq<nat>, sz: seq<nat>): (r: seq<seq<T>>)
    requires RegionArgs(g, ng, fromLL, toLL, sz) && Conforms(from, g) && Conforms(to, ng)
    ensures Conforms(r, ng)
  {
    seq(ng.OSites(), o requires 0 <= o < ng.OSites() =>
      seq(ng.Nsimd(), l requires 0 <= l < ng.Nsimd() => CopyLane(from, g, to, ng, fromLL, toLL, sz, o, l)))
  }

  /**
   * The region copy in coordinates: inside the destination box every site holds the source
   * site at the same offset from `fromLL`; outside it the destination keeps its value.
   */
  lemma LocalCopyRegionLaw<T>(from: seq<seq<T>>, g: Grid, to: seq<seq<T>>, ng: Grid,
                              fromLL: seq<nat>, toLL: seq<nat>, sz: seq<nat>, c: seq<nat>)
    requires RegionArgs(g, ng, fromLL, toLL, sz) && Conforms(from, g) && Conforms(to, ng)
    requires InRange(c, ng.ldims)
    ensures InBox(c, toLL, sz) ==> InRange(Rebase(c, toLL, fromLL), g.ldims)
    ensures Value(LocalCopyRegion(from, g, to, ng, fromLL, toLL, sz), ng, c)
      == if InBox(c, toLL, sz) then Value(from, g, Rebase(c, toLL, fromLL)) else Value(to, ng, c)
  {
    CoorInverse(ng, c);
  }

  /** `InsertSliceLocal(from, to, x, y, dim)`: slice `x` of `from` becomes slice `y` of `to`. */
  function InsertSliceLocal<T>(from: seq<seq<T>>, g: Grid, to: seq<seq<T>>, ng: Grid, x: nat, y: nat, dim: nat)
    : (r: seq<seq<T>>)
    requires SameFace(g, ng, dim) && x < g.ldims[dim] && y < ng.ldims[dim]
    requires Conforms(from, g) && Conforms(to, ng)
    ensures Conforms(r, ng)
  {
    FaceAgree(g, ng, dim);
    Scattered(to, SliceOf(from, g, dim, x), ng, dim, y)
  }

  /**
   * The slice insertion in coordinates: sites of slice `y` take the site of slice `x` with
   * the same coordinates elsewhere, every other site keeps its value.
   */
  lemma InsertSliceLocalLaw<T>(from: seq<seq<T>>, g: Grid, to: seq<seq<T>>, ng: Grid, x: nat, y: nat, dim: nat, c: seq<nat>)
    requires SameFace(g, ng, dim) && x < g.ldims[dim] && y < ng.ldims[dim]
    requires Conforms(from, g) && Conforms(to, ng) && InRange(c, ng.ldims)
    ensures c[dim] == y ==> InRange(c[dim := x], g.ldims)
    ensures Value(InsertSliceLocal(from, g, to, ng, x, y, dim), ng, c)
      == if c[dim] == y then Value(from, g, c[dim := x]) else Value(to, ng, c)
  {
    FaceAgree(g, ng, dim);
    var r := InsertSliceLocal(from, g, to, ng, x, y, dim);
    var j := FacePosition(ng, dim, c);
    ValueInSlice(r, ng, dim, c);
    CoorOnFace(ng, dim, c);
    if c[dim] == y {
      SliceOfScattered(to, SliceOf(from, g, dim, x), ng, dim, y);
      SliceElemValue(from, g, dim, x, j);
      assert FaceCoorAt(g, dim, j)[dim := x] == c[dim := x];
    } else {
      SliceOfScatteredOther(to, SliceOf(from, g, dim, x), ng, dim, y, c[dim]);
      ValueInSlice(to, ng, dim, c);
    }
  }

  /** `Lattice<vobj> f(grid)`: a field of the grid's shape; its contents are not specified. */
  method NewLattice<T(0)>(g: Grid) returns (f: seq<seq<T>>)
    requires g.WellFormed()
    ensures Conforms(f, g)
  {
    var z: T := *;
    f := seq(g.OSites(), _ => seq(g.Nsimd(), _ => z));
  }
}
