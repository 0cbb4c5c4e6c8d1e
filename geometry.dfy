/**
 * The part of a Cartesian grid (Grid's GridCartesian) that the halo code reads: per-dimension
 * local extents, process counts and SIMD layout, and the quantities derived from them.
 */
module Geometry {
  import opened Arith
  import opened Lexicographic

  /**
   * One process's view of a decomposed domain. `ldims[d]` sites along dimension `d` are
   * held locally, `processors[d]` processes share dimension `d`, and `simd[d]` sites along
   * `d` are packed into one vector register, so `ldims[d] / simd[d]` vector sites remain
   * along `d` (the reduced extent, Grid's `_rdimensions`).
   */
  datatype Grid = Grid(ldims: seq<nat>, processors: seq<nat>, simd: seq<nat>)
  {
    function Nd(): nat { |ldims| }

    /** Extents agree in number, are positive, and the SIMD layout divides the local extents. */
    predicate WellFormed()
    {
      && |processors| == |ldims| && |simd| == |ldims|
      && Positive(ldims) && Positive(processors) && Positive(simd)
      && forall k :: 0 <= k < |ldims| ==> ldims[k] % simd[k] == 0
    }

    /** Global extents: every process holds an equal block. */
    function Global(): (g: seq<nat>)
      requires |processors| == |ldims|
      ensures |g| == |ldims|
    {
      seq(|ldims|, k requires 0 <= k < |ldims| => ldims[k] * processors[k])
    }

    /** Reduced extents `_rdimensions`: vector sites per dimension. */
    function RDims(): (r: seq<nat>)
      requires WellFormed()
      ensures |r| == |ldims|
    {
      seq(|ldims|, k requires 0 <= k < |ldims| => ldims[k] / simd[k])
    }

    /** Number of SIMD lanes of one vector site. */
    function Nsimd(): nat { Volume(simd) }

    /** Number of vector sites held locally. */
    function OSites(): nat requires WellFormed() { Volume(RDims()) }

    /** `_slice_block[dim]`: vector sites enumerated below dimension `dim`. */
    function SliceBlock(dim: nat): nat
      requires WellFormed() && dim < Nd()
    {
      Volume(RDims()[..dim])
    }

    /** `_slice_nblock[dim]`: vector sites enumerated above dimension `dim`. */
    function SliceNblock(dim: nat): nat
      requires WellFormed() && dim < Nd()
    {
      Volume(RDims()[dim + 1..])
    }

    /** `_slice_stride[dim]`: distance between consecutive blocks of one slice. */
    function SliceStride(dim: nat): nat
      requires WellFormed() && dim < Nd()
    {
      SliceBlock(dim) * RDims()[dim]
    }
  }

  /** Grid's `new GridCartesian(global, simd, processors)`: the local extents are the global ones shared out. */
  function MakeGrid(global: seq<nat>, simd: seq<nat>, processors: seq<nat>): (g: Grid)
    requires |processors| == |global| && Positive(processors)
    ensures g.processors == processors && g.simd == simd && |g.ldims| == |global|
    ensures forall k :: 0 <= k < |global| && global[k] % processors[k] == 0 ==> g.ldims[k] * processors[k] == global[k]
  {
    Grid(seq(|global|, k requires 0 <= k < |global| => global[k] / processors[k]), processors, simd)
  }

  /** Reduced-extent facts every slice computation depends on. */
  lemma RDimsFacts(g: Grid)
    requires g.WellFormed()
    ensures Positive(g.RDims())
    ensures forall k :: 0 <= k < g.Nd() ==> g.RDims()[k] * g.simd[k] == g.ldims[k]
    ensures g.OSites() > 0 && g.Nsimd() > 0
  {
    var r := g.RDims();
    forall k | 0 <= k < g.Nd() ensures r[k] * g.simd[k] == g.ldims[k] && r[k] > 0 {
      assert g.ldims[k] == (g.ldims[k] / g.simd[k]) * g.simd[k] + g.ldims[k] % g.simd[k];
    }
    VolumePositive(r);
    VolumePositive(g.simd);
  }

  /** The local vector sites split into blocks below `dim`, the reduced extent of `dim`, and blocks above. */
  lemma SliceFactors(g: Grid, dim: nat)
    requires g.WellFormed() && dim < g.Nd()
    ensures g.SliceBlock(dim) > 0 && g.SliceNblock(dim) > 0 && g.RDims()[dim] > 0
    ensures g.OSites() == g.SliceBlock(dim) * (g.RDims()[dim] * g.SliceNblock(dim))
  {
    RDimsFacts(g);
    var r := g.RDims();
    PositiveSub(r, 0, dim);
    PositiveSub(r, dim + 1, |r|);
    assert r[0..dim] == r[..dim] && r[dim + 1..|r|] == r[dim + 1..];
    VolumePositive(r[..dim]);
    VolumePositive(r[dim + 1..]);
    VolumeAround(r, dim);
    MulAssoc(Volume(r[..dim]), r[dim], Volume(r[dim + 1..]));
  }
}
