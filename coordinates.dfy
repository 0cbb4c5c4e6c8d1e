/**
 * The coordinate view of a field stored on one process. Lane `l` of vector site `o`
 * holds the site whose local coordinate along dimension `k` is `oc[k] + rd[k]*ic[k]`,
 * where `oc` decomposes `o` over the reduced extents and `ic` decomposes `l` over the
 * SIMD layout (Grid's oSite/iSite split of a local coordinate). This module relates that
 * view to the slice addressing of Marshal: element `(ss, olane)` of slice `x` is the field
 * at a face coordinate that depends on `(ss, olane)` only, with its `dim` entry set to `x`.
 */
module Coordinates {
  import opened Arith
  import opened Lexicographic
  import opened Geometry
  import opened Marshal

  /** The local coordinate held by lane `l` of vector site `o`. */
  function LocalCoor(g: Grid, o: nat, l: nat): (c: seq<nat>)
    requires g.WellFormed()
    ensures |c| == g.Nd()
  {
    RDimsFacts(g);
    var rd := g.RDims();
    var oc, ic := CoorFromIndex(o, rd), CoorFromIndex(l, g.simd);
    seq(g.Nd(), k requires 0 <= k < g.Nd() => oc[k] + rd[k] * ic[k])
  }

  /** The outer (vector-site) part of a local coordinate, `c[k] % rd[k]`. */
  function Outer(g: Grid, c: seq<nat>): (oc: seq<nat>)
    requires g.WellFormed() && |c| == g.Nd()
    ensures InRange(oc, g.RDims())
  {
    RDimsFacts(g);
    var rd := g.RDims();
    seq(|c|, k requires 0 <= k < |c| => c[k] % rd[k])
  }

  /** The inner (SIMD-lane) part of a local coordinate, `c[k] / rd[k]`. */
  function Inner(g: Grid, c: seq<nat>): (ic: seq<nat>)
    requires g.WellFormed() && InRange(c, g.ldims)
    ensures InRange(ic, g.simd)
  {
    RDimsFacts(g);
    var rd := g.RDims();
    var ic := seq(|c|, k requires 0 <= k < |c| => c[k] / rd[k]);
    forall k | 0 <= k < |c| ensures ic[k] < g.simd[k] {
      assert c[k] < rd[k] * g.simd[k];
      DivBound(c[k], rd[k], g.simd[k]);
    }
    ic
  }

  /** The vector site holding local coordinate `c`. */
  function SiteOfCoor(g: Grid, c: seq<nat>): (o: nat)
    requires g.WellFormed() && InRange(c, g.ldims)
    ensures o < g.OSites()
  {
    IndexInRange(Outer(g, c), g.RDims());
    IndexFromCoor(Outer(g, c), g.RDims())
  }

  /** The lane holding local coordinate `c`. */
  function LaneOfCoor(g: Grid, c: seq<nat>): (l: nat)
    requires g.WellFormed() && InRange(c, g.ldims)
    ensures l < g.Nsimd()
  {
    IndexInRange(Inner(g, c), g.simd);
    IndexFromCoor(Inner(g, c), g.simd)
  }

  /** The value of a stored field at local coordinate `c`. */
  function Value<T>(sites: seq<seq<T>>, g: Grid, c: seq<nat>): T
    requires g.WellFormed() && Conforms(sites, g) && InRange(c, g.ldims)
  {
    sites[SiteOfCoor(g, c)][LaneOfCoor(g, c)]
  }

  /** Every (site, lane) pair holds a local coordinate, and that coordinate is stored there. */
  lemma LocalCoorInverse(g: Grid, o: nat, l: nat)
    requires g.WellFormed() && o < g.OSites() && l < g.Nsimd()
    ensures InRange(LocalCoor(g, o, l), g.ldims)
    ensures SiteOfCoor(g, LocalCoor(g, o, l)) == o && LaneOfCoor(g, LocalCoor(g, o, l)) == l
  {
    RDimsFacts(g);
    var rd := g.RDims();
    var oc, ic := CoorFromIndex(o, rd), CoorFromIndex(l, g.simd);
    CoorInRange(o, rd);
    CoorInRange(l, g.simd);
    var c := LocalCoor(g, o, l);
    forall k | 0 <= k < g.Nd() ensures c[k] < g.ldims[k] && c[k] % rd[k] == oc[k] && c[k] / rd[k] == ic[k] {
      MixedBound(oc[k], rd[k], ic[k], g.simd[k]);
      SplitMixed(oc[k], rd[k], ic[k]);
    }
    assert Outer(g, c) == oc;
    assert Inner(g, c) == ic;
    IndexOfCoor(o, rd);
    IndexOfCoor(l, g.simd);
  }

  /** Every local coordinate is held by exactly the pair `SiteOfCoor`, `LaneOfCoor`. */
  lemma CoorInverse(g: Grid, c: seq<nat>)
    requires g.WellFormed() && InRange(c, g.ldims)
    ensures LocalCoor(g, SiteOfCoor(g, c), LaneOfCoor(g, c)) == c
  {
    RDimsFacts(g);
    var rd := g.RDims();
    var oc, ic := Outer(g, c), Inner(g, c);
    CoorOfIndex(oc, rd);
    CoorOfIndex(ic, g.simd);
    var c' := LocalCoor(g, SiteOfCoor(g, c), LaneOfCoor(g, c));
    forall k | 0 <= k < |c| ensures c'[k] == c[k] {
      assert c'[k] == oc[k] + rd[k] * ic[k];
      assert oc[k] == c[k] % rd[k] && ic[k] == c[k] / rd[k];
      Recompose(c[k], rd[k]);
    }
  }

  /** A stored field is determined by its values at the local coordinates. */
  lemma ValuesDetermine<T>(a: seq<seq<T>>, b: seq<seq<T>>, g: Grid)
    requires g.WellFormed() && Conforms(a, g) && Conforms(b, g)
    requires forall c :: InRange(c, g.ldims) ==> Value(a, g, c) == Value(b, g, c)
    ensures a == b
  {
    forall o | 0 <= o < |a| ensures a[o] == b[o] {
      forall l | 0 <= l < |a[o]| ensures a[o][l] == b[o][l] {
        LocalCoorInverse(g, o, l);
        assert Value(a, g, LocalCoor(g, o, l)) == Value(b, g, LocalCoor(g, o, l));
      }
    }
  }

  // ---------------------------------------------------------------------------------------
  // Face coordinates: the coordinates of the slice element (ss, olane), apart from `dim`.
  // ---------------------------------------------------------------------------------------

  /** The reduced coordinates of face index `ss`: the block part below `dim`, 0 at `dim`, the part above. */
  function FaceOuter(g: Grid, dim: nat, ss: nat): (oc: seq<nat>)
    requires g.WellFormed() && dim < g.Nd()
    ensures |oc| == g.Nd()
  {
    RDimsFacts(g);
    SliceFactors(g, dim);
    var rd := g.RDims();
    PositiveSub(rd, 0, dim);
    PositiveSub(rd, dim + 1, |rd|);
    assert rd[0..dim] == rd[..dim] && rd[dim + 1..|rd|] == rd[dim + 1..];
    CoorFromIndex(ss % g.SliceBlock(dim), rd[..dim]) + [0] + CoorFromIndex(ss / g.SliceBlock(dim), rd[dim + 1..])
  }

  /** The local coordinate of element `(ss, olane)` of every slice of `dim`, with 0 at `dim`. */
  function FaceCoor(g: Grid, dim: nat, ss: nat, olane: nat): (c: seq<nat>)
    requires g.WellFormed() && dim < g.Nd()
    ensures |c| == g.Nd()
  {
    RDimsFacts(g);
    var rd := g.RDims();
    var oc := FaceOuter(g, dim, ss);
    assert Positive(RSimd(g, dim));
    var ic := CoorFromIndex(olane, RSimd(g, dim));
    seq(g.Nd(), k requires 0 <= k < g.Nd() => if k == dim then 0 else oc[k] + rd[k] * ic[k])
  }

  /** The face coordinate of buffer position `j = ss + olane*face_ovol`. */
  function FaceCoorAt(g: Grid, dim: nat, j: nat): (c: seq<nat>)
    requires g.WellFormed() && dim < g.Nd()
    ensures |c| == g.Nd()
  {
    SliceFactors(g, dim);
    MulPositive(g.SliceBlock(dim), g.SliceNblock(dim));
    FaceCoor(g, dim, j % Face(g, dim), j / Face(g, dim))
  }

  /** The reduced coordinate of the site `OSite(x, ss)`: that of `ss`, with `x % rd` at `dim`. */
  lemma OSiteCoor(g: Grid, dim: nat, x: nat, ss: nat)
    requires SliceArgs(g, dim, x) && ss < Face(g, dim)
    ensures CoorFromIndex(OSite(g, dim, x, ss), g.RDims()) == FaceOuter(g, dim, ss)[dim := x % g.RDims()[dim]]
  {
    RDimsFacts(g);
    var rd := g.RDims();
    SiteCoordinate(rd, dim, ss, x % rd[dim]);
  }

  /** The SIMD coordinate of the lane `Lane(x, olane)`: that of `olane` over `rsimd`, with `x / rd` at `dim`. */
  lemma LaneCoorIs(g: Grid, dim: nat, x: nat, olane: nat)
    requires SliceArgs(g, dim, x) && olane < RNsimd(g, dim)
    ensures CoorFromIndex(Lane(g, dim, x, olane), g.simd) == LaneCoorOf(g, dim, x, olane)
  {
    LaneCoor(g, dim, x, olane);
    CoorOfIndex(LaneCoorOf(g, dim, x, olane), g.simd);
  }

  /** Lane `Lane(x, olane)` of site `OSite(x, ss)` holds the face coordinate of `(ss, olane)` with `x` at `dim`. */
  lemma SliceCoor(g: Grid, dim: nat, x: nat, ss: nat, olane: nat)
    requires SliceArgs(g, dim, x) && ss < Face(g, dim) && olane < RNsimd(g, dim)
    ensures LocalCoor(g, OSite(g, dim, x, ss), Lane(g, dim, x, olane)) == FaceCoor(g, dim, ss, olane)[dim := x]
  {
    var c := LocalCoor(g, OSite(g, dim, x, ss), Lane(g, dim, x, olane));
    var f := FaceCoor(g, dim, ss, olane)[dim := x];
    forall k | 0 <= k < g.Nd() ensures c[k] == f[k] {
      SliceCoorEntry(g, dim, x, ss, olane, k);
    }
  }

  lemma SliceCoorEntry(g: Grid, dim: nat, x: nat, ss: nat, olane: nat, k: nat)
    requires SliceArgs(g, dim, x) && ss < Face(g, dim) && olane < RNsimd(g, dim) && k < g.Nd()
    ensures LocalCoor(g, OSite(g, dim, x, ss), Lane(g, dim, x, olane))[k] == FaceCoor(g, dim, ss, olane)[dim := x][k]
  {
    RDimsFacts(g);
    var rd := g.RDims();
    OSiteCoor(g, dim, x, ss);
    LaneCoorIs(g, dim, x, olane);
    if k == dim {
      Recompose(x, rd[dim]);
    }
  }

  /** Element `j` of slice `x` is the field's value at the face coordinate of `j` with `x` at `dim`. */
  lemma SliceElemValue<T>(sites: seq<seq<T>>, g: Grid, dim: nat, x: nat, j: nat)
    requires SliceArgs(g, dim, x) && Conforms(sites, g) && j < SliceWords(g, dim)
    ensures InRange(FaceCoorAt(g, dim, j)[dim := x], g.ldims)
    ensures SliceOf(sites, g, dim, x)[j] == Value(sites, g, FaceCoorAt(g, dim, j)[dim := x])
  {
    SplitBufferPosition(g, dim, j);
    var ss, olane := j % Face(g, dim), j / Face(g, dim);
    SliceCoor(g, dim, x, ss, olane);
    LocalCoorInverse(g, OSite(g, dim, x, ss), Lane(g, dim, x, olane));
  }

  /** The buffer position, within its slice of `dim`, of local coordinate `c`. */
  function FacePosition(g: Grid, dim: nat, c: seq<nat>): (j: nat)
    requires g.WellFormed() && dim < g.Nd() && InRange(c, g.ldims)
    ensures j < SliceWords(g, dim)
  {
    AddressCover(g, dim, SiteOfCoor(g, c), LaneOfCoor(g, c));
    BufIndex(g, dim, SiteOfCoor(g, c), LaneOfCoor(g, c))
  }

  /** Every local coordinate lies in slice `c[dim]`, at the buffer position whose face coordinate it has. */
  lemma CoorOnFace(g: Grid, dim: nat, c: seq<nat>)
    requires g.WellFormed() && dim < g.Nd() && InRange(c, g.ldims)
    ensures FaceCoorAt(g, dim, FacePosition(g, dim, c))[dim := c[dim]] == c
  {
    var o, l := SiteOfCoor(g, c), LaneOfCoor(g, c);
    AddressCover(g, dim, o, l);
    var x := SliceCoordinate(g, dim, o, l);
    var ss, olane := SsOf(g, dim, o), OlaneOf(g, dim, l);
    PlaneIndex(ss, olane, Face(g, dim), RNsimd(g, dim));
    SliceCoor(g, dim, x, ss, olane);
    CoorInverse(g, c);
    assert c == FaceCoor(g, dim, ss, olane)[dim := x];
  }

  /** The value at `c` is word `FacePosition(c)` of slice `c[dim]`. */
  lemma ValueInSlice<T>(sites: seq<seq<T>>, g: Grid, dim: nat, c: seq<nat>)
    requires g.WellFormed() && dim < g.Nd() && Conforms(sites, g) && InRange(c, g.ldims)
    ensures SliceArgs(g, dim, c[dim])
    ensures Value(sites, g, c) == SliceOf(sites, g, dim, c[dim])[FacePosition(g, dim, c)]
  {
    CoorOnFace(g, dim, c);
    SliceElemValue(sites, g, dim, c[dim], FacePosition(g, dim, c));
  }

  // ---------------------------------------------------------------------------------------
  // Grids that agree off one dimension share their faces.
  // ---------------------------------------------------------------------------------------

  /** `g` and `ng` differ at most in the local extent of `dim`. */
  predicate SameFace(g: Grid, ng: Grid, dim: nat)
  {
    && g.WellFormed() && ng.WellFormed() && dim < g.Nd() && ng.Nd() == g.Nd()
    && ng.simd == g.simd && ng.processors == g.processors
    && forall k :: 0 <= k < g.Nd() && k != dim ==> ng.ldims[k] == g.ldims[k]
  }

  /** Grids that differ only along `dim` have the same face size and the same face coordinates. */
  lemma FaceAgree(g: Grid, ng: Grid, dim: nat)
    requires SameFace(g, ng, dim)
    ensures Face(ng, dim) == Face(g, dim) && RNsimd(ng, dim) == RNsimd(g, dim)
    ensures SliceWords(ng, dim) == SliceWords(g, dim)
    ensures forall ss, olane :: FaceCoor(ng, dim, ss, olane) == FaceCoor(g, dim, ss, olane)
    ensures forall j :: FaceCoorAt(ng, dim, j) == FaceCoorAt(g, dim, j)
  {
    var rd, nrd := g.RDims(), ng.RDims();
    assert nrd[..dim] == rd[..dim];
    assert nrd[dim + 1..] == rd[dim + 1..];
    forall ss, olane ensures FaceCoor(ng, dim, ss, olane) == FaceCoor(g, dim, ss, olane) {
      assert FaceOuter(ng, dim, ss) == FaceOuter(g, dim, ss);
    }
  }
}
