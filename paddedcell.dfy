/**
 * The PaddedCell object: built over an unpadded grid and a halo depth, it allocates the
 * chain of padded grids once and then pads fields dimension by dimension (Expand, through
 * periodic shifts, or ExpandTest, through explicit face exchange), pads every dimension
 * (Exchange, ExchangeTest) and crops a padded field back to the unpadded grid (Extract).
 */
module PaddedCells {
  import opened Lexicographic
  import opened Geometry
  import opened Marshal
  import opened Coordinates
  import opened Region
  import opened Decomposition
  import opened FaceExchange
  import opened Stages
  import opened Expansion

  /** The global extents `plocal[k] * processors[k]`, written over `global0` entry by entry. */
  method GlobalExtents(plocal: seq<nat>, processors: seq<nat>, global0: seq<nat>) returns (global: seq<nat>)
    requires |plocal| == |processors| == |global0|
    ensures |global| == |plocal|
    ensures forall k :: 0 <= k < |global| ==> global[k] == plocal[k] * processors[k]
  {
    global := global0;
    for k := 0 to |plocal|
      invariant |global| == |plocal|
      invariant forall j :: 0 <= j < k ==> global[j] == plocal[j] * processors[j]
    {
      global := global[k := plocal[k] * processors[k]];
    }
  }

  /** Origins of Extract's region copy: `depth` along partitioned dimensions, 0 along the others. */
  predicate CropOrigin(g: Grid, depth: nat, fll: seq<nat>)
    requires g.WellFormed()
  {
    |fll| == g.Nd() && forall k :: 0 <= k < g.Nd() ==> fll[k] == if g.processors[k] == 1 then 0 else depth
  }

  /**
   * Copying the box of unpadded extents at the crop origin of a fully padded field to the
   * origin of an unpadded field crops the padded field, whatever the unpadded field held.
   */
  lemma CopyIsCrop<T>(fs: seq<seq<seq<T>>>, g: Grid, depth: nat, blank: seq<seq<seq<T>>>, fll: seq<nat>, tll: seq<nat>, r: nat)
    requires Paddable(g, depth) && Distributed(fs, Stage(g, depth, g.Nd())) && Distributed(blank, g) && r < |fs|
    requires CropOrigin(g, depth, fll) && |tll| == g.Nd() && forall k :: 0 <= k < |tll| ==> tll[k] == 0
    ensures RegionArgs(Stage(g, depth, g.Nd()), g, fll, tll, g.ldims)
    ensures LocalCopyRegion(fs[r], Stage(g, depth, g.Nd()), blank[r], g, fll, tll, g.ldims) == Cropped(fs, g, depth)[r]
  {
    var s := Stage(g, depth, g.Nd());
    StageWellFormed(g, depth, g.Nd());
    var copied := LocalCopyRegion(fs[r], s, blank[r], g, fll, tll, g.ldims);
    forall c | InRange(c, g.ldims) ensures Value(copied, g, c) == Value(Cropped(fs, g, depth)[r], g, c) {
      LocalCopyRegionLaw(fs[r], s, blank[r], g, fll, tll, g.ldims, c);
      assert InBox(c, tll, g.ldims);
      assert Rebase(c, tll, fll) == Offset(g, depth, g.Nd(), c);
      CroppedValue(fs, g, depth, r, c);
    }
    ValuesDetermine(copied, Cropped(fs, g, depth)[r], g);
  }

  /**
   * The partitioned branch of Expand, inserting into `padded`: the interior at `depth + x`, the
   * high slices of the `+depth` shift above it, then the low slices of the `-depth` shift below it.
   */
  method ShiftPath<T>(field: seq<seq<seq<T>>>, g: Grid, padded0: seq<seq<seq<T>>>, ng: Grid, dim: nat, depth: nat)
    returns (padded: seq<seq<seq<T>>>)
    requires Distributed(field, g) && PaddedAlong(g, ng, dim, depth) && depth <= g.ldims[dim] && Distributed(padded0, ng)
    ensures padded == ShiftExpanded(field, g, ng, dim, depth, padded0)
  {
    var local := g.ldims;
    padded := InsertRange(field, g, padded0, ng, dim, 0, depth, local[dim]);
    assert padded == MiddleInserted(field, g, ng, dim, depth, padded0);
    var shifted := Cshift(field, g, dim, depth);
    padded := InsertRange(shifted, g, padded, ng, dim, local[dim] - depth, depth + local[dim], depth);
    assert padded == HighInserted(field, g, ng, dim, depth, padded0);
    shifted := Cshift(field, g, dim, -(depth as int));
    padded := InsertRange(shifted, g, padded, ng, dim, 0, 0, depth);
  }

  /** On a single-process dimension the expansion is the input itself. */
  lemma ExpandStepLocal<T>(fs: seq<seq<seq<T>>>, g: Grid, depth: nat, dim: nat)
    requires Paddable(g, depth) && dim < g.Nd() && Distributed(fs, Stage(g, depth, dim)) && g.processors[dim] == 1
    ensures ExpandStep(fs, g, depth, dim) == fs
  {
  }

  /** On a partitioned dimension the expansion is what the shift path computes, into any field of the padded shape. */
  lemma ExpandStepShift<T>(fs: seq<seq<seq<T>>>, g: Grid, depth: nat, dim: nat, init: seq<seq<seq<T>>>)
    requires Paddable(g, depth) && DepthBound(g, depth) && dim < g.Nd() && g.processors[dim] != 1
    requires Distributed(fs, Stage(g, depth, dim)) && Distributed(init, Stage(g, depth, dim + 1))
    ensures PaddedAlong(Stage(g, depth, dim), Stage(g, depth, dim + 1), dim, depth)
    ensures depth <= Stage(g, depth, dim).ldims[dim]
    ensures ExpandStep(fs, g, depth, dim) == ShiftExpanded(fs, Stage(g, depth, dim), Stage(g, depth, dim + 1), dim, depth, init)
  {
    StageStep(g, depth, dim);
    ShiftExpandedIsPadded(fs, Stage(g, depth, dim), Stage(g, depth, dim + 1), dim, depth, init);
  }

  class PaddedCell {
    var unpadded: Grid
    var dims: nat
    var depth: nat
    var grids: seq<Grid>
    /** The grid object behind each entry of `grids`. */
    ghost var refs: seq<GridRef>
    /** The grid objects deleted so far, in order of deletion. */
    ghost var freed: seq<GridRef>

    /** A constructed cell: a valid depth and the chain AllocateGrids builds. */
    ghost predicate Valid()
      reads this
    {
      && Paddable(unpadded, depth) && DepthBound(unpadded, depth) && dims == unpadded.Nd()
      && grids == Chain(unpadded, depth) && refs == ChainRefs(unpadded.processors)
    }

    /**
     * The depth must fit into the local extent of every partitioned dimension (checked by
     * assertion after the grids are allocated); the padded extents must be valid grid extents.
     */
    constructor(depth0: nat, grid: Grid)
      requires Paddable(grid, depth0) && DepthBound(grid, depth0)
      ensures Valid() && unpadded == grid && depth == depth0 && freed == []
    {
      unpadded := grid;
      depth := depth0;
      dims := grid.Nd();
      grids := [];
      refs := [];
      freed := [];
      new;
      AllocateGrids();
    }

    /**
     * Append one grid per dimension: a new grid grown by `2*depth` along each partitioned
     * dimension, otherwise the previous grid (the unpadded grid before the first allocation).
     */
    method AllocateGrids()
      requires Paddable(unpadded, depth) && dims == unpadded.Nd()
      modifies this
      ensures unpadded == old(unpadded) && depth == old(depth) && dims == old(dims) && freed == old(freed)
      ensures grids == old(grids) + Chain(unpadded, depth)
      ensures refs == old(refs) + ChainRefs(unpadded.processors)
    {
      var simd := unpadded.simd;
      var processors := unpadded.processors;
      var plocal := unpadded.ldims;
      var global := seq(dims, _ => 0);
      var oldGrid := unpadded;
      var oldRef := Unpadded;
      // the entries pushed so far, and the objects behind them
      var pushed: seq<Grid> := [];
      var pushedRefs: seq<GridRef> := [];
      StageZero(unpadded, depth);
      for d := 0 to dims
        invariant unchanged(this)
        invariant |global| == dims
        invariant plocal == Stage(unpadded, depth, d).ldims
        invariant oldGrid == Stage(unpadded, depth, d)
        invariant oldRef == LastRef(processors, d)
        invariant pushed == Chain(unpadded, depth)[..d]
        invariant pushedRefs == ChainRefs(processors)[..d]
      {
        if processors[d] > 1 {
          ghost var before := plocal;
          plocal := plocal[d := plocal[d] + 2 * depth];
          global := GlobalExtents(plocal, processors, global);
          GrowStage(unpadded, depth, d, before, global);
          oldGrid := MakeGrid(global, simd, processors);
          oldRef := Allocated(d);
        } else {
          KeepStage(unpadded, depth, d);
        }
        pushed := pushed + [oldGrid];
        pushedRefs := pushedRefs + [oldRef];
        ChainPrefix(unpadded, depth, d);
        ChainRefsPrefix(processors, d);
      }
      assert Chain(unpadded, depth)[..dims] == Chain(unpadded, depth);
      assert ChainRefs(processors)[..dims] == ChainRefs(processors);
      grids := grids + pushed;
      refs := refs + pushedRefs;
    }

    /** DeleteGrids as written: every entry of `grids` is deleted, then `grids` is emptied. */
    method DeleteGridsAsWritten()
      requires |refs| == |grids|
      modifies this
      ensures freed == old(freed) + old(refs)
      ensures grids == [] && refs == []
      ensures unpadded == old(unpadded) && depth == old(depth) && dims == old(dims)
    {
      for d := 0 to |grids|
        invariant grids == old(grids) && refs == old(refs) && freed == old(freed) + refs[..d]
        invariant unpadded == old(unpadded) && depth == old(depth) && dims == old(dims)
      {
        freed := freed + [refs[d]];
      }
      assert refs[..|grids|] == refs;
      grids := [];
      refs := [];
    }

    /** DeleteGrids deleting only the grids the cell allocated: the entries of partitioned dimensions. */
    method DeleteGrids()
      requires Valid()
      modifies this
      ensures unpadded == old(unpadded) && depth == old(depth) && dims == old(dims)
      ensures freed == old(freed) + OwnedRefs(unpadded.processors, dims)
      ensures grids == [] && refs == []
    {
      var processors := unpadded.processors;
      for d := 0 to |grids|
        invariant grids == old(grids) && refs == old(refs) && freed == old(freed) + OwnedRefs(processors, d)
        invariant unpadded == old(unpadded) && depth == old(depth) && dims == old(dims)
      {
        if processors[d] > 1 {
          ChainRefsShape(processors, d);
          freed := freed + [refs[d]];
        }
      }
      grids := [];
      refs := [];
    }

    /** The grid a field given to `Expand(dim, ...)` must be conformable with: the previous grid of the chain. */
    function InputGrid(dim: nat): (g: Grid)
      reads this
      requires Valid() && dim < dims
      ensures g == Stage(unpadded, depth, dim)
    {
      StageZero(unpadded, depth);
      if dim == 0 then unpadded else grids[dim - 1]
    }

    /**
     * Pad `field` along `dim` with periodic shifts: the interior is inserted at `depth + x`,
     * the `+depth` shift's high slices above it and the `-depth` shift's low slices below it;
     * a single-process dimension is copied unchanged.
     */
    method Expand<T(0)>(dim: nat, field: seq<seq<seq<T>>>) returns (padded: seq<seq<seq<T>>>)
      requires Valid() && dim < dims && Distributed(field, InputGrid(dim))
      ensures padded == ExpandStep(field, unpadded, depth, dim)
    {
      var processors := unpadded.processors;
      var oldGrid := InputGrid(dim);
      var newGrid := grids[dim];
      assert newGrid == Stage(unpadded, depth, dim + 1);
      StageWellFormed(unpadded, depth, dim + 1);
      padded := NewField<T>(newGrid);
      if processors[dim] == 1 {
        padded := field;
        ExpandStepLocal(field, unpadded, depth, dim);
      } else {
        ExpandStepShift(field, unpadded, depth, dim, padded);
        padded := ShiftPath(field, oldGrid, padded, newGrid, dim, depth);
      }
    }

    /** Pad `field` along `dim` by explicit face exchange; a single-process dimension is copied unchanged. */
    method ExpandTest<T(0)>(dim: nat, field: seq<seq<seq<T>>>) returns (padded: seq<seq<seq<T>>>)
      requires Valid() && dim < dims && Distributed(field, InputGrid(dim))
      requires unpadded.processors[dim] > 1 ==> 0 < depth
      ensures padded == ExpandStep(field, unpadded, depth, dim)
    {
      var processors := unpadded.processors;
      var oldGrid := InputGrid(dim);
      var newGrid := grids[dim];
      StageStep(unpadded, depth, dim);
      padded := NewField<T>(newGrid);
      if processors[dim] == 1 {
        padded := field;
      } else {
        padded := FaceExchange.FaceExchange(field, padded, oldGrid, newGrid, dim, depth);
      }
    }

    /** Pad every dimension in turn with Expand. */
    method Exchange<T(0)>(field: seq<seq<seq<T>>>) returns (tmp: seq<seq<seq<T>>>)
      requires Valid() && Distributed(field, unpadded)
      ensures tmp == Exchanged(field, unpadded, depth, dims)
      ensures Distributed(tmp, Stage(unpadded, depth, dims)) && HaloFilled(tmp, field, unpadded, depth)
    {
      var nd := unpadded.Nd();
      tmp := field;
      for d := 0 to nd
        invariant tmp == Exchanged(field, unpadded, depth, d)
      {
        tmp := Expand(d, tmp);
      }
      ExchangeFillsHalo(field, unpadded, depth);
    }

    /** Pad every dimension in turn with ExpandTest. */
    method ExchangeTest<T(0)>(field: seq<seq<seq<T>>>) returns (tmp: seq<seq<seq<T>>>)
      requires Valid() && Distributed(field, unpadded)
      requires forall d :: 0 <= d < dims && unpadded.processors[d] > 1 ==> 0 < depth
      ensures tmp == Exchanged(field, unpadded, depth, dims)
      ensures Distributed(tmp, Stage(unpadded, depth, dims)) && HaloFilled(tmp, field, unpadded, depth)
    {
      var nd := unpadded.Nd();
      tmp := field;
      for d := 0 to nd
        invariant tmp == Exchanged(field, unpadded, depth, d)
      {
        tmp := ExpandTest(d, tmp);
      }
      ExchangeFillsHalo(field, unpadded, depth);
    }

    /**
     * Crop a fully padded field to the unpadded grid: the box of unpadded extents at `depth`
     * along every partitioned dimension (0 along the others) is copied to the origin.
     */
    method Extract<T(0)>(field: seq<seq<seq<T>>>) returns (out: seq<seq<seq<T>>>)
      requires Valid() && Distributed(field, Stage(unpadded, depth, dims))
      ensures out == Cropped(field, unpadded, depth)
    {
      var grid, h := unpadded, depth;
      var processors := grid.processors;
      var blank := NewField<T>(grid);
      var local := grid.ldims;
      var fll := seq(dims, _ => h);
      var tll := seq(dims, _ => 0);
      for d := 0 to dims
        invariant |fll| == dims
        invariant forall k :: 0 <= k < dims ==> fll[k] == if k < d && processors[k] == 1 then 0 else depth
      {
        if processors[d] == 1 {
          fll := fll[d := 0];
        }
      }
      var padded := Stage(grid, h, dims);
      StageWellFormed(grid, h, dims);
      assert RegionArgs(padded, grid, fll, tll, local);
      out := seq(|field|, r requires 0 <= r < |field| => LocalCopyRegion(field[r], padded, blank[r], grid, fll, tll, local));
      forall r | 0 <= r < |field| ensures out[r] == Cropped(field, unpadded, depth)[r] {
        CopyIsCrop(field, unpadded, depth, blank, fll, tll, r);
      }
    }
  }
}
