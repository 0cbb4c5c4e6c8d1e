/**
 * Lane-aware slice marshalling (Grid/lattice/PaddedCell.h, GatherSlice and ScatterSlice).
 *
 * A field held by one process is a sequence of vector sites, each a sequence of `Nsimd`
 * lanes. The slice at coordinate `x` of dimension `dim` is enumerated by a face index
 * `ss < face_ovol` (the vector sites of the slice) and a reduced lane `olane < rNsimd`
 * (the lanes of one vector site that lie in the slice); element `(ss, olane)` travels to
 * buffer position `ss + olane*face_ovol + offset`.
 */
module Marshal {
  import opened Arith
  import opened Lexicographic
  import opened Geometry

  /** A field stored on grid `g`: `OSites` vector sites of `Nsimd` lanes each. */
  predicate Conforms<T>(sites: seq<seq<T>>, g: Grid)
    requires g.WellFormed()
  {
    |sites| == g.OSites() && forall o :: 0 <= o < |sites| ==> |sites[o]| == g.Nsimd()
  }

  /** The arguments a slice operation is called with: a grid, a dimension of it, a slice coordinate. */
  predicate SliceArgs(g: Grid, dim: nat, x: nat)
  {
    g.WellFormed() && dim < g.Nd() && x < g.ldims[dim]
  }

  /** `face_ovol`: vector sites in one slice. */
  function Face(g: Grid, dim: nat): nat
    requires g.WellFormed() && dim < g.Nd()
  {
    g.SliceBlock(dim) * g.SliceNblock(dim)
  }

  /** `rsimd`: the SIMD layout with dimension `dim` collapsed to one lane. */
  function RSimd(g: Grid, dim: nat): seq<nat>
    requires dim < |g.simd|
  {
    g.simd[dim := 1]
  }

  /** `rNsimd`: lanes of one vector site that belong to one slice of dimension `dim`. */
  function RNsimd(g: Grid, dim: nat): nat
    requires dim < |g.simd|
  {
    Volume(RSimd(g, dim))
  }

  /** Scalar elements of one slice, the size of one plane of a halo buffer. */
  function SliceWords(g: Grid, dim: nat): nat
    requires g.WellFormed() && dim < g.Nd()
  {
    Face(g, dim) * RNsimd(g, dim)
  }

  /** `osite = b + n*stride + ox*block`, with `b = ss%block`, `n = ss/block`, `ox = x%rd`. */
  function OSite(g: Grid, dim: nat, x: nat, ss: nat): (o: nat)
    requires SliceArgs(g, dim, x) && ss < Face(g, dim)
    ensures o < g.OSites()
  {
    var block, rd, nblock := g.SliceBlock(dim), g.RDims()[dim], g.SliceNblock(dim);
    SliceFactors(g, dim);
    SiteBound(block, rd, nblock, ss, x % rd);
    SiteOf(block, g.SliceStride(dim), ss, x % rd)
  }

  /**
   * The lane of the slice element with reduced lane `olane`: decompose `olane` over `rsimd`,
   * set the coordinate of `dim` to `ix = x/rd`, and recompose over `simd`.
   */
  function Lane(g: Grid, dim: nat, x: nat, olane: nat): (l: nat)
    requires SliceArgs(g, dim, x) && olane < RNsimd(g, dim)
    ensures l < g.Nsimd()
  {
    LaneCoor(g, dim, x, olane);
    IndexInRange(LaneCoorOf(g, dim, x, olane), g.simd);
    IndexFromCoor(LaneCoorOf(g, dim, x, olane), g.simd)
  }

  /** The SIMD coordinate `icoor` that `Lane` recomposes. */
  function LaneCoorOf(g: Grid, dim: nat, x: nat, olane: nat): seq<nat>
    requires SliceArgs(g, dim, x)
  {
    RDimsFacts(g);
    var rd := g.RDims()[dim];
    assert Positive(RSimd(g, dim));
    CoorFromIndex(olane, RSimd(g, dim))[dim := x / rd]
  }

  /** The coordinate recomposed into a lane is a SIMD coordinate whose `dim` entry is `x/rd`. */
  lemma LaneCoor(g: Grid, dim: nat, x: nat, olane: nat)
    requires SliceArgs(g, dim, x) && olane < RNsimd(g, dim)
    ensures InRange(LaneCoorOf(g, dim, x, olane), g.simd)
    ensures LaneCoorOf(g, dim, x, olane)[dim] == x / g.RDims()[dim]
  {
    RDimsFacts(g);
    var rs := RSimd(g, dim);
    var rd := g.RDims()[dim];
    assert Positive(rs);
    CoorInRange(olane, rs);
    DivBound(x, rd, g.simd[dim]);
  }

  // ---------------------------------------------------------------------------------------
  // The inverse addressing: which slice, face index and reduced lane a (site, lane) pair has.
  // ---------------------------------------------------------------------------------------

  /** The `ox` component of a vector site with respect to dimension `dim`. */
  function OxOf(g: Grid, dim: nat, o: nat): nat
    requires g.WellFormed() && dim < g.Nd()
  {
    SliceFactors(g, dim);
    OuterOf(g.SliceBlock(dim), g.RDims()[dim], o)
  }

  /** The face index `ss` of a vector site with respect to dimension `dim`. */
  function SsOf(g: Grid, dim: nat, o: nat): nat
    requires g.WellFormed() && dim < g.Nd()
  {
    SliceFactors(g, dim);
    FaceIndexOf(g.SliceBlock(dim), g.RDims()[dim], o)
  }

  /** The SIMD coordinate of a lane along `dim`. */
  function IxOf(g: Grid, dim: nat, l: nat): nat
    requires g.WellFormed() && dim < g.Nd()
  {
    CoorFromIndex(l, g.simd)[dim]
  }

  /** The reduced lane of a lane: its SIMD coordinate with `dim` collapsed, recomposed over `rsimd`. */
  function OlaneOf(g: Grid, dim: nat, l: nat): nat
    requires g.WellFormed() && dim < g.Nd()
  {
    IndexFromCoor(CoorFromIndex(l, g.simd)[dim := 0], RSimd(g, dim))
  }

  /** The slice coordinate along `dim` of lane `l` of vector site `o`. */
  function SliceCoordinate(g: Grid, dim: nat, o: nat, l: nat): nat
    requires g.WellFormed() && dim < g.Nd()
  {
    OxOf(g, dim, o) + g.RDims()[dim] * IxOf(g, dim, l)
  }

  /** The position within a slice buffer of lane `l` of vector site `o`. */
  function BufIndex(g: Grid, dim: nat, o: nat, l: nat): nat
    requires g.WellFormed() && dim < g.Nd()
  {
    SsOf(g, dim, o) + OlaneOf(g, dim, l) * Face(g, dim)
  }

  /** Forward then inverse on the site part: `OSite` remembers `ss` and `x % rd`. */
  lemma OSiteInverse(g: Grid, dim: nat, x: nat, ss: nat)
    requires SliceArgs(g, dim, x) && ss < Face(g, dim)
    ensures SsOf(g, dim, OSite(g, dim, x, ss)) == ss
    ensures OxOf(g, dim, OSite(g, dim, x, ss)) == x % g.RDims()[dim]
  {
    SliceFactors(g, dim);
    SiteInverse(g.SliceBlock(dim), g.RDims()[dim], ss, x % g.RDims()[dim]);
  }

  /** Inverse then forward on the site part: every vector site is reached from the slice through it. */
  lemma OSiteCover(g: Grid, dim: nat, o: nat)
    requires g.WellFormed() && dim < g.Nd() && o < g.OSites()
    ensures SsOf(g, dim, o) < Face(g, dim)
    ensures OxOf(g, dim, o) < g.RDims()[dim]
    ensures forall x :: SliceArgs(g, dim, x) && x % g.RDims()[dim] == OxOf(g, dim, o) ==> OSite(g, dim, x, SsOf(g, dim, o)) == o
  {
    SliceFactors(g, dim);
    SiteCover(g.SliceBlock(dim), g.RDims()[dim], g.SliceNblock(dim), o);
  }

  /** Forward then inverse on the lane part: `Lane` remembers `olane` and `x / rd`. */
  lemma LaneInverse(g: Grid, dim: nat, x: nat, olane: nat)
    requires SliceArgs(g, dim, x) && olane < RNsimd(g, dim)
    ensures IxOf(g, dim, Lane(g, dim, x, olane)) == x / g.RDims()[dim]
    ensures OlaneOf(g, dim, Lane(g, dim, x, olane)) == olane
  {
    var rs := RSimd(g, dim);
    var c := CoorFromIndex(olane, rs);
    LaneCoor(g, dim, x, olane);
    CoorInRange(olane, rs);
    var ic := LaneCoorOf(g, dim, x, olane);
    CoorOfIndex(ic, g.simd);
    assert c[dim] == 0;
    assert ic[dim := 0] == c;
    IndexOfCoor(olane, rs);
  }

  /** Inverse then forward on the lane part: every lane is reached from the slice through it. */
  lemma LaneCover(g: Grid, dim: nat, l: nat)
    requires g.WellFormed() && dim < g.Nd() && l < g.Nsimd()
    ensures OlaneOf(g, dim, l) < RNsimd(g, dim)
    ensures IxOf(g, dim, l) < g.simd[dim]
    ensures forall x :: SliceArgs(g, dim, x) && x / g.RDims()[dim] == IxOf(g, dim, l) ==> Lane(g, dim, x, OlaneOf(g, dim, l)) == l
  {
    var rs := RSimd(g, dim);
    CoorInRange(l, g.simd);
    var c := CoorFromIndex(l, g.simd);
    var c0 := c[dim := 0];
    assert InRange(c0, rs);
    IndexInRange(c0, rs);
    CoorOfIndex(c0, rs);
    assert c0[dim := c[dim]] == c;
    IndexOfCoor(l, g.simd);
  }

  /** The addressed pair lies in slice `x`, at buffer position `ss + olane*face_ovol`. */
  lemma AddressInverse(g: Grid, dim: nat, x: nat, ss: nat, olane: nat)
    requires SliceArgs(g, dim, x) && ss < Face(g, dim) && olane < RNsimd(g, dim)
    ensures SliceCoordinate(g, dim, OSite(g, dim, x, ss), Lane(g, dim, x, olane)) == x
    ensures BufIndex(g, dim, OSite(g, dim, x, ss), Lane(g, dim, x, olane)) == ss + olane * Face(g, dim)
  {
    OSiteInverse(g, dim, x, ss);
    LaneInverse(g, dim, x, olane);
    RDimsFacts(g);
  }

  /** Every lane of every vector site belongs to exactly one slice, at a position inside the buffer. */
  lemma AddressCover(g: Grid, dim: nat, o: nat, l: nat)
    requires g.WellFormed() && dim < g.Nd() && o < g.OSites() && l < g.Nsimd()
    ensures SliceArgs(g, dim, SliceCoordinate(g, dim, o, l))
    ensures SsOf(g, dim, o) < Face(g, dim) && OlaneOf(g, dim, l) < RNsimd(g, dim)
    ensures BufIndex(g, dim, o, l) < SliceWords(g, dim)
    ensures OSite(g, dim, SliceCoordinate(g, dim, o, l), SsOf(g, dim, o)) == o
    ensures Lane(g, dim, SliceCoordinate(g, dim, o, l), OlaneOf(g, dim, l)) == l
  {
    RDimsFacts(g);
    SliceFactors(g, dim);
    OSiteCover(g, dim, o);
    LaneCover(g, dim, l);
    var rd := g.RDims()[dim];
    var x := SliceCoordinate(g, dim, o, l);
    MixedBound(OxOf(g, dim, o), rd, IxOf(g, dim, l), g.simd[dim]);
    SplitMixed(OxOf(g, dim, o), rd, IxOf(g, dim, l));
    MixedBound(SsOf(g, dim, o), Face(g, dim), OlaneOf(g, dim, l), RNsimd(g, dim));
    assert OlaneOf(g, dim, l) * Face(g, dim) == Face(g, dim) * OlaneOf(g, dim, l);
  }

  /**
   * Slice addressing is injective: distinct (slice, face index, reduced lane) triples
   * address distinct (vector site, lane) pairs.
   */
  lemma AddressInjective(g: Grid, dim: nat, x1: nat, ss1: nat, ol1: nat, x2: nat, ss2: nat, ol2: nat)
    requires SliceArgs(g, dim, x1) && ss1 < Face(g, dim) && ol1 < RNsimd(g, dim)
    requires SliceArgs(g, dim, x2) && ss2 < Face(g, dim) && ol2 < RNsimd(g, dim)
    requires OSite(g, dim, x1, ss1) == OSite(g, dim, x2, ss2)
    requires Lane(g, dim, x1, ol1) == Lane(g, dim, x2, ol2)
    ensures x1 == x2 && ss1 == ss2 && ol1 == ol2
  {
    AddressInverse(g, dim, x1, ss1, ol1);
    AddressInverse(g, dim, x2, ss2, ol2);
    SliceFactors(g, dim);
    SplitMixed(ss1, Face(g, dim), ol1);
    SplitMixed(ss2, Face(g, dim), ol2);
    assert ol1 * Face(g, dim) == Face(g, dim) * ol1;
    assert ol2 * Face(g, dim) == Face(g, dim) * ol2;
  }
  // ---------------------------------------------------------------------------------------
  // Slices as buffer contents, and writing a slice back.
  // ---------------------------------------------------------------------------------------

  /** A buffer position of one slice inside `ss + olane*face_ovol`, split back into `ss` and `olane`. */
  lemma SplitBufferPosition(g: Grid, dim: nat, j: nat)
    requires g.WellFormed() && dim < g.Nd() && j < SliceWords(g, dim)
    ensures Face(g, dim) > 0 && j % Face(g, dim) < Face(g, dim) && j / Face(g, dim) < RNsimd(g, dim)
    ensures j == j % Face(g, dim) + (j / Face(g, dim)) * Face(g, dim)
  {
    SliceFactors(g, dim);
    MulPositive(g.SliceBlock(dim), g.SliceNblock(dim));
    PlaneSplit(j, Face(g, dim), RNsimd(g, dim));
  }

  /** Element `j = ss + olane*face_ovol` of slice `x`: lane `Lane(olane)` of site `OSite(ss)`. */
  function SliceElem<T>(sites: seq<seq<T>>, g: Grid, dim: nat, x: nat, j: nat): T
    requires SliceArgs(g, dim, x) && Conforms(sites, g) && j < SliceWords(g, dim)
  {
    SplitBufferPosition(g, dim, j);
    sites[OSite(g, dim, x, j % Face(g, dim))][Lane(g, dim, x, j / Face(g, dim))]
  }

  /** The slice at coordinate `x` of dimension `dim`, in the order GatherSlice writes it. */
  function SliceOf<T>(sites: seq<seq<T>>, g: Grid, dim: nat, x: nat): (s: seq<T>)
    requires SliceArgs(g, dim, x) && Conforms(sites, g)
    ensures |s| == SliceWords(g, dim)
  {
    seq(SliceWords(g, dim), j requires 0 <= j < SliceWords(g, dim) => SliceElem(sites, g, dim, x, j))
  }

  /** Lane `l` of site `o` once slice `x` has been overwritten with `data`. */
  function ScatterLane<T>(sites: seq<seq<T>>, data: seq<T>, g: Grid, dim: nat, x: nat, o: nat, l: nat): T
    requires SliceArgs(g, dim, x) && Conforms(sites, g) && |data| == SliceWords(g, dim)
    requires o < g.OSites() && l < g.Nsimd()
  {
    AddressCover(g, dim, o, l);
    if SliceCoordinate(g, dim, o, l) == x then data[BufIndex(g, dim, o, l)] else sites[o][l]
  }

  /**
   * The field after slice `x` of dimension `dim` has been overwritten with `data`: every lane
   * that lies in slice `x` takes the buffer word at its position, every other lane keeps its value.
   */
  function Scattered<T>(sites: seq<seq<T>>, data: seq<T>, g: Grid, dim: nat, x: nat): (r: seq<seq<T>>)
    requires SliceArgs(g, dim, x) && Conforms(sites, g) && |data| == SliceWords(g, dim)
    ensures Conforms(r, g)
  {
    seq(|sites|, o requires 0 <= o < |sites| =>
      seq(|sites[o]|, l requires 0 <= l < |sites[o]| => ScatterLane(sites, data, g, dim, x, o, l)))
  }

  /** A (site, lane) pair of slice `x` at buffer position `ss + olane*face_ovol` is the pair addressed by `(ss, olane)`. */
  lemma AddressAt(g: Grid, dim: nat, x: nat, o: nat, l: nat, ss: nat, olane: nat)
    requires SliceArgs(g, dim, x) && o < g.OSites() && l < g.Nsimd()
    requires ss < Face(g, dim) && olane < RNsimd(g, dim)
    requires SliceCoordinate(g, dim, o, l) == x && BufIndex(g, dim, o, l) == ss + olane * Face(g, dim)
    ensures o == OSite(g, dim, x, ss) && l == Lane(g, dim, x, olane)
  {
    AddressCover(g, dim, o, l);
    PlaneIndex(SsOf(g, dim, o), OlaneOf(g, dim, l), Face(g, dim), RNsimd(g, dim));
    PlaneIndex(ss, olane, Face(g, dim), RNsimd(g, dim));
  }

  /** Scattering `data` into slice `x` and gathering slice `x` again gives `data`. */
  lemma SliceOfScattered<T>(sites: seq<seq<T>>, data: seq<T>, g: Grid, dim: nat, x: nat)
    requires SliceArgs(g, dim, x) && Conforms(sites, g) && |data| == SliceWords(g, dim)
    ensures SliceOf(Scattered(sites, data, g, dim, x), g, dim, x) == data
  {
    var r := Scattered(sites, data, g, dim, x);
    forall j | 0 <= j < SliceWords(g, dim) ensures SliceOf(r, g, dim, x)[j] == data[j] {
      ScatteredElem(sites, data, g, dim, x, j);
    }
  }

  lemma ScatteredElem<T>(sites: seq<seq<T>>, data: seq<T>, g: Grid, dim: nat, x: nat, j: nat)
    requires SliceArgs(g, dim, x) && Conforms(sites, g) && |data| == SliceWords(g, dim) && j < SliceWords(g, dim)
    ensures SliceElem(Scattered(sites, data, g, dim, x), g, dim, x, j) == data[j]
  {
    SplitBufferPosition(g, dim, j);
    var ss, olane := j % Face(g, dim), j / Face(g, dim);
    AddressInverse(g, dim, x, ss, olane);
  }

  /** Scattering into slice `x` leaves every other slice of the same dimension as it was. */
  lemma SliceOfScatteredOther<T>(sites: seq<seq<T>>, data: seq<T>, g: Grid, dim: nat, x: nat, y: nat)
    requires SliceArgs(g, dim, x) && SliceArgs(g, dim, y) && x != y
    requires Conforms(sites, g) && |data| == SliceWords(g, dim)
    ensures SliceOf(Scattered(sites, data, g, dim, x), g, dim, y) == SliceOf(sites, g, dim, y)
  {
    var r := Scattered(sites, data, g, dim, x);
    forall j | 0 <= j < SliceWords(g, dim) ensures SliceOf(r, g, dim, y)[j] == SliceOf(sites, g, dim, y)[j] {
      ScatteredOtherElem(sites, data, g, dim, x, y, j);
    }
  }

  lemma ScatteredOtherElem<T>(sites: seq<seq<T>>, data: seq<T>, g: Grid, dim: nat, x: nat, y: nat, j: nat)
    requires SliceArgs(g, dim, x) && SliceArgs(g, dim, y) && x != y
    requires Conforms(sites, g) && |data| == SliceWords(g, dim) && j < SliceWords(g, dim)
    ensures SliceElem(Scattered(sites, data, g, dim, x), g, dim, y, j) == SliceElem(sites, g, dim, y, j)
  {
    SplitBufferPosition(g, dim, j);
    var ss, olane := j % Face(g, dim), j / Face(g, dim);
    var o, l := OSite(g, dim, x, ss), Lane(g, dim, y, olane);
    AddressInverse(g, dim, y, ss, olane);
  }

  /** Gather then scatter at the same slice restores the field: every addressed lane gets its own value back. */
  lemma ScatterOfGathered<T>(sites: seq<seq<T>>, g: Grid, dim: nat, x: nat)
    requires SliceArgs(g, dim, x) && Conforms(sites, g)
    ensures Scattered(sites, SliceOf(sites, g, dim, x), g, dim, x) == sites
  {
    var r := Scattered(sites, SliceOf(sites, g, dim, x), g, dim, x);
    forall o | 0 <= o < |sites| ensures r[o] == sites[o] {
      forall l | 0 <= l < |sites[o]| ensures r[o][l] == sites[o][l] {
        AddressCover(g, dim, o, l);
        if SliceCoordinate(g, dim, o, l) == x {
          var j := BufIndex(g, dim, o, l);
          PlaneIndex(SsOf(g, dim, o), OlaneOf(g, dim, l), Face(g, dim), RNsimd(g, dim));
        }
      }
    }
  }

  /** A field is determined by its slices along any one dimension. */
  lemma SlicesDetermine<T>(a: seq<seq<T>>, b: seq<seq<T>>, g: Grid, dim: nat)
    requires g.WellFormed() && dim < g.Nd() && Conforms(a, g) && Conforms(b, g)
    requires forall x :: 0 <= x < g.ldims[dim] ==> SliceOf(a, g, dim, x) == SliceOf(b, g, dim, x)
    ensures a == b
  {
    forall o | 0 <= o < |a| ensures a[o] == b[o] {
      forall l | 0 <= l < |a[o]| ensures a[o][l] == b[o][l] {
        AddressCover(g, dim, o, l);
        var x, j := SliceCoordinate(g, dim, o, l), BufIndex(g, dim, o, l);
        PlaneIndex(SsOf(g, dim, o), OlaneOf(g, dim, l), Face(g, dim), RNsimd(g, dim));
        assert SliceOf(a, g, dim, x)[j] == SliceOf(b, g, dim, x)[j];
      }
    }
  }

  // ---------------------------------------------------------------------------------------
  // The two marshalling loops.
  // ---------------------------------------------------------------------------------------

  /**
   * GatherSlice: copy slice `x` of dimension `dim` into `buf` from position `offset`. The
   * buffer must hold `offset + face_ovol*rNsimd` words; exactly the words of
   * `[offset, offset + face_ovol*rNsimd)` change, and they hold the slice.
   */
  method GatherSlice<T>(buf: array<T>, sites: seq<seq<T>>, g: Grid, x: nat, dim: nat, offset: nat)
    requires SliceArgs(g, dim, x) && Conforms(sites, g)
    requires offset + SliceWords(g, dim) <= buf.Length
    modifies buf
    ensures buf[offset..offset + SliceWords(g, dim)] == SliceOf(sites, g, dim, x)
    ensures forall i :: 0 <= i < buf.Length && !(offset <= i < offset + SliceWords(g, dim)) ==> buf[i] == old(buf[i])
  {
    var block, nblock := g.SliceBlock(dim), g.SliceNblock(dim);
    var rNsimd := Product(RSimd(g, dim));
    var faceOvol := block * nblock;
    ghost var slice := SliceOf(sites, g, dim, x);
    ghost var orig := buf[..];
    SliceFactors(g, dim);
    ghost var done: nat := 0;
    var olane := 0;
    while olane < rNsimd
      invariant 0 <= olane <= rNsimd && done == olane * faceOvol
      invariant GatheredTo(buf[..], orig, offset, slice, done)
    {
      GatherRow(buf, sites, g, x, dim, offset, olane, orig);
      MulSucc(olane, faceOvol);
      done := done + faceOvol;
      olane := olane + 1;
    }
    MulCommute(rNsimd, faceOvol);
    GatheredAll(buf[..], orig, offset, slice);
  }

  /** The inner loop of GatherSlice: gather the `face_ovol` words of reduced lane `olane`. */
  method GatherRow<T>(buf: array<T>, sites: seq<seq<T>>, g: Grid, x: nat, dim: nat, offset: nat, olane: nat, ghost orig: seq<T>)
    requires SliceArgs(g, dim, x) && Conforms(sites, g)
    requires offset + SliceWords(g, dim) <= buf.Length && olane < RNsimd(g, dim)
    requires GatheredTo(buf[..], orig, offset, SliceOf(sites, g, dim, x), olane * Face(g, dim))
    modifies buf
    ensures GatheredTo(buf[..], orig, offset, SliceOf(sites, g, dim, x), olane * Face(g, dim) + Face(g, dim))
  {
    var faceOvol := g.SliceBlock(dim) * g.SliceNblock(dim);
    ghost var slice := SliceOf(sites, g, dim, x);
    var ss := 0;
    while ss < faceOvol
      invariant 0 <= ss <= faceOvol
      invariant GatheredTo(buf[..], orig, offset, slice, olane * faceOvol + ss)
    {
      PlaneIndex(ss, olane, faceOvol, RNsimd(g, dim));
      var osite := OSite(g, dim, x, ss);
      var lane := Lane(g, dim, x, olane);
      assert sites[osite][lane] == slice[ss + olane * faceOvol];
      ghost var before := buf[..];
      buf[ss + olane * faceOvol + offset] := sites[osite][lane];
      GatherStep(before, buf[..], orig, offset, slice, ss + olane * faceOvol);
      ss := ss + 1;
    }
  }

  /** `b` is `orig` with the first `done` words of `slice` written from `offset`. */
  ghost predicate GatheredTo<T>(b: seq<T>, orig: seq<T>, offset: nat, slice: seq<T>, done: nat)
  {
    && |b| == |orig| && done <= |slice| && offset + |slice| <= |b|
    && forall i :: 0 <= i < |b| ==> b[i] == if offset <= i < offset + done then slice[i - offset] else orig[i]
  }

  lemma GatherStep<T>(before: seq<T>, after: seq<T>, orig: seq<T>, offset: nat, slice: seq<T>, done: nat)
    requires GatheredTo(before, orig, offset, slice, done) && done < |slice|
    requires after == before[offset + done := slice[done]]
    ensures GatheredTo(after, orig, offset, slice, done + 1)
  {
  }

  /** Once every word is written, the slice lies at `offset` and nothing else has changed. */
  lemma GatheredAll<T>(b: seq<T>, orig: seq<T>, offset: nat, slice: seq<T>)
    requires GatheredTo(b, orig, offset, slice, |slice|)
    ensures b[offset..offset + |slice|] == slice
    ensures forall i :: 0 <= i < |b| && !(offset <= i < offset + |slice|) ==> b[i] == orig[i]
  {
    forall i | 0 <= i < |slice| ensures b[offset..offset + |slice|][i] == slice[i] {
      assert b[offset + i] == slice[i];
    }
  }

  /**
   * ScatterSlice: write the words `[offset, offset + face_ovol*rNsimd)` of `buf` into slice
   * `x` of dimension `dim`. The returned field is `Scattered`: the lanes of slice `x` take the
   * buffer words, every other lane keeps its value.
   */
  method ScatterSlice<T>(buf: array<T>, sites: seq<seq<T>>, g: Grid, x: nat, dim: nat, offset: nat)
    returns (lat: seq<seq<T>>)
    requires SliceArgs(g, dim, x) && Conforms(sites, g)
    requires offset + SliceWords(g, dim) <= buf.Length
    ensures lat == Scattered(sites, buf[offset..offset + SliceWords(g, dim)], g, dim, x)
  {
    var block, nblock := g.SliceBlock(dim), g.SliceNblock(dim);
    var rNsimd := Product(RSimd(g, dim));
    var faceOvol := block * nblock;
    ghost var data := buf[offset..offset + SliceWords(g, dim)];
    SliceFactors(g, dim);
    ScatteredNone(sites, data, g, dim, x);
    lat := sites;
    ghost var done: nat := 0;
    var olane := 0;
    while olane < rNsimd
      invariant 0 <= olane <= rNsimd && done == olane * faceOvol
      invariant ScatteredTo(lat, sites, data, g, dim, x, done)
    {
      lat := ScatterRow(buf, sites, g, x, dim, offset, lat, olane);
      MulSucc(olane, faceOvol);
      done := done + faceOvol;
      olane := olane + 1;
    }
    MulCommute(rNsimd, faceOvol);
    ScatteredAll(sites, data, g, dim, x, lat);
  }

  /** The inner loop of ScatterSlice: scatter the `face_ovol` words of reduced lane `olane`. */
  method ScatterRow<T>(buf: array<T>, sites: seq<seq<T>>, g: Grid, x: nat, dim: nat, offset: nat, lat0: seq<seq<T>>, olane: nat)
    returns (lat: seq<seq<T>>)
    requires SliceArgs(g, dim, x) && Conforms(sites, g)
    requires offset + SliceWords(g, dim) <= buf.Length && olane < RNsimd(g, dim)
    requires ScatteredTo(lat0, sites, buf[offset..offset + SliceWords(g, dim)], g, dim, x, olane * Face(g, dim))
    ensures ScatteredTo(lat, sites, buf[offset..offset + SliceWords(g, dim)], g, dim, x, olane * Face(g, dim) + Face(g, dim))
  {
    var faceOvol := g.SliceBlock(dim) * g.SliceNblock(dim);
    ghost var data := buf[offset..offset + SliceWords(g, dim)];
    lat := lat0;
    var ss := 0;
    while ss < faceOvol
      invariant 0 <= ss <= faceOvol
      invariant ScatteredTo(lat, sites, data, g, dim, x, olane * faceOvol + ss)
    {
      PlaneIndex(ss, olane, faceOvol, RNsimd(g, dim));
      var osite := OSite(g, dim, x, ss);
      var lane := Lane(g, dim, x, olane);
      assert buf[ss + olane * faceOvol + offset] == data[ss + olane * faceOvol];
      ghost var before := lat;
      lat := lat[osite := lat[osite][lane := buf[ss + olane * faceOvol + offset]]];
      ScatterStep(sites, data, g, dim, x, before, lat, ss, olane);
      ss := ss + 1;
    }
  }

  /** `lat` is `sites` with the first `done` words of `data` scattered into slice `x`. */
  ghost predicate ScatteredTo<T>(lat: seq<seq<T>>, sites: seq<seq<T>>, data: seq<T>, g: Grid, dim: nat, x: nat, done: nat)
    requires SliceArgs(g, dim, x) && Conforms(sites, g) && |data| == SliceWords(g, dim)
  {
    && Conforms(lat, g)
    && forall o, l :: 0 <= o < |lat| && 0 <= l < |lat[o]| ==>
      lat[o][l] == ScatteredUpTo(sites, data, g, dim, x, o, l, done)
  }

  /** Nothing scattered yet: the field itself. */
  lemma ScatteredNone<T>(sites: seq<seq<T>>, data: seq<T>, g: Grid, dim: nat, x: nat)
    requires SliceArgs(g, dim, x) && Conforms(sites, g) && |data| == SliceWords(g, dim)
    ensures ScatteredTo(sites, sites, data, g, dim, x, 0)
  {
  }

  /** Scattering word `ss + olane*face_ovol` extends a field scattered up to it by one word. */
  lemma ScatterStep<T>(sites: seq<seq<T>>, data: seq<T>, g: Grid, dim: nat, x: nat, before: seq<seq<T>>, after: seq<seq<T>>,
                       ss: nat, olane: nat)
    requires SliceArgs(g, dim, x) && Conforms(sites, g) && |data| == SliceWords(g, dim)
    requires ss < Face(g, dim) && olane < RNsimd(g, dim) && ss + olane * Face(g, dim) < |data|
    requires ScatteredTo(before, sites, data, g, dim, x, ss + olane * Face(g, dim))
    requires after == before[OSite(g, dim, x, ss) := before[OSite(g, dim, x, ss)][Lane(g, dim, x, olane) := data[ss + olane * Face(g, dim)]]]
    ensures ScatteredTo(after, sites, data, g, dim, x, ss + olane * Face(g, dim) + 1)
  {
    var done := ss + olane * Face(g, dim);
    AddressInverse(g, dim, x, ss, olane);
    forall o, l | 0 <= o < |after| && 0 <= l < |after[o]|
      ensures after[o][l] == ScatteredUpTo(sites, data, g, dim, x, o, l, done + 1)
    {
      AddressCover(g, dim, o, l);
      if SliceCoordinate(g, dim, o, l) == x && BufIndex(g, dim, o, l) == done {
        AddressAt(g, dim, x, o, l, ss, olane);
      }
    }
  }

  /** A field scattered up to the whole slice is the scattered field. */
  lemma ScatteredAll<T>(sites: seq<seq<T>>, data: seq<T>, g: Grid, dim: nat, x: nat, lat: seq<seq<T>>)
    requires SliceArgs(g, dim, x) && Conforms(sites, g) && |data| == SliceWords(g, dim)
    requires ScatteredTo(lat, sites, data, g, dim, x, |data|)
    ensures lat == Scattered(sites, data, g, dim, x)
  {
    forall o | 0 <= o < |lat| ensures lat[o] == Scattered(sites, data, g, dim, x)[o] {
      forall l | 0 <= l < |lat[o]| ensures lat[o][l] == Scattered(sites, data, g, dim, x)[o][l] {
        AddressCover(g, dim, o, l);
      }
    }
  }

  /** Lane `l` of site `o` once the first `done` words of `data` have been scattered into slice `x`. */
  ghost function ScatteredUpTo<T>(sites: seq<seq<T>>, data: seq<T>, g: Grid, dim: nat, x: nat, o: nat, l: nat, done: nat): T
    requires SliceArgs(g, dim, x) && Conforms(sites, g) && |data| == SliceWords(g, dim)
    requires o < g.OSites() && l < g.Nsimd()
  {
    AddressCover(g, dim, o, l);
    if SliceCoordinate(g, dim, o, l) == x && BufIndex(g, dim, o, l) < done
    then data[BufIndex(g, dim, o, l)] else sites[o][l]
  }
}
