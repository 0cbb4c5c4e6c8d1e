/**
 * The chain of padded grids a PaddedCell builds over an unpadded grid, the grid objects the
 * chain refers to, and what expansion, exchange and extraction are meant to compute on a
 * distributed field: stage `k` of the chain is the unpadded grid with every partitioned
 * dimension below `k` grown by `2*depth`.
 */
module Stages {
  import opened Arith
  import opened Lexicographic
  import opened Geometry
  import opened Marshal
  import opened Coordinates
  import opened Region
  import opened Decomposition

  /**
   * The padded local extents are valid grid extents: on every partitioned dimension the
   * SIMD layout divides `local + 2*depth` (what the grid constructor needs of them).
   */
  predicate Paddable(g: Grid, depth: nat)
  {
    g.WellFormed() && forall d :: 0 <= d < g.Nd() && g.processors[d] > 1 ==> (g.ldims[d] + 2 * depth) % g.simd[d] == 0
  }

  /** The depth bound checked at construction: every partitioned dimension holds at least `depth` sites. */
  predicate DepthBound(g: Grid, depth: nat)
    requires g.WellFormed()
  {
    forall d :: 0 <= d < g.Nd() && g.processors[d] > 1 ==> depth <= g.ldims[d]
  }

  /** Stage `k` of the chain: partitioned dimensions below `k` grown by `2*depth`. */
  function Stage(g: Grid, depth: nat, k: nat): (s: Grid)
    requires |g.processors| == |g.ldims|
    ensures s.processors == g.processors && s.simd == g.simd && s.Nd() == g.Nd()
  {
    Grid(seq(|g.ldims|, d requires 0 <= d < |g.ldims| =>
           if d < k && g.processors[d] > 1 then g.ldims[d] + 2 * depth else g.ldims[d]),
         g.processors, g.simd)
  }

  /** Every stage is a well-formed grid with as many ranks as the unpadded grid. */
  lemma StageWellFormed(g: Grid, depth: nat, k: nat)
    requires Paddable(g, depth)
    ensures Stage(g, depth, k).WellFormed() && NRanks(Stage(g, depth, k)) == NRanks(g)
  {
    var s := Stage(g, depth, k);
    forall d | 0 <= d < s.Nd() ensures s.ldims[d] > 0 && s.ldims[d] % s.simd[d] == 0 {
    }
  }

  /** Stage 0 is the unpadded grid. */
  lemma StageZero(g: Grid, depth: nat)
    requires |g.processors| == |g.ldims|
    ensures Stage(g, depth, 0) == g
  {
    assert Stage(g, depth, 0).ldims == g.ldims;
  }

  /**
   * Chain shape: stage `d+1` is stage `d` grown by `2*depth` along `d` when `d` is
   * partitioned, and stage `d` itself otherwise. Along `d` stage `d` still has the local extent.
   */
  lemma StageStep(g: Grid, depth: nat, d: nat)
    requires Paddable(g, depth) && d < g.Nd()
    ensures Stage(g, depth, d).WellFormed() && Stage(g, depth, d + 1).WellFormed()
    ensures Stage(g, depth, d).ldims[d] == g.ldims[d]
    ensures g.processors[d] > 1 ==> PaddedAlong(Stage(g, depth, d), Stage(g, depth, d + 1), d, depth)
    ensures g.processors[d] <= 1 ==> Stage(g, depth, d + 1) == Stage(g, depth, d)
  {
    StageWellFormed(g, depth, d);
    StageWellFormed(g, depth, d + 1);
    if g.processors[d] <= 1 {
      assert Stage(g, depth, d + 1).ldims == Stage(g, depth, d).ldims;
    }
  }

  /** The stage after the last dimension grows exactly the partitioned dimensions. */
  lemma LastStage(g: Grid, depth: nat, k: nat)
    requires |g.processors| == |g.ldims| && g.Nd() <= k
    ensures Stage(g, depth, k) == Stage(g, depth, g.Nd())
  {
    assert Stage(g, depth, k).ldims == Stage(g, depth, g.Nd()).ldims;
  }

  /** The local extents of stage `d + 1`: those of stage `d`, with `2*depth` more along `d` when `d` is partitioned. */
  lemma StageGrows(g: Grid, depth: nat, d: nat)
    requires |g.processors| == |g.ldims| && d < g.Nd()
    ensures Stage(g, depth, d).ldims[d] == g.ldims[d]
    ensures g.processors[d] > 1 ==> Stage(g, depth, d + 1).ldims == Stage(g, depth, d).ldims[d := g.ldims[d] + 2 * depth]
    ensures g.processors[d] <= 1 ==> Stage(g, depth, d + 1).ldims == Stage(g, depth, d).ldims
  {
    var s0, s1 := Stage(g, depth, d).ldims, Stage(g, depth, d + 1).ldims;
    if g.processors[d] > 1 {
      assert s1 == s0[d := g.ldims[d] + 2 * depth];
    } else {
      assert s1 == s0;
    }
  }

  /** A grid built from the global extents `local * processors` of a stage is that stage. */
  lemma MakeStage(g: Grid, depth: nat, k: nat, global: seq<nat>)
    requires |g.processors| == |g.ldims| && Positive(g.processors) && |global| == g.Nd()
    requires forall j :: 0 <= j < |global| ==> global[j] == Stage(g, depth, k).ldims[j] * g.processors[j]
    ensures MakeGrid(global, g.simd, g.processors) == Stage(g, depth, k)
  {
    var made, s := MakeGrid(global, g.simd, g.processors), Stage(g, depth, k);
    forall j | 0 <= j < |global| ensures made.ldims[j] == s.ldims[j] {
      DivModUnique(global[j], g.processors[j], s.ldims[j], 0);
    }
    assert made.ldims == s.ldims;
  }

  /**
   * One growing step of AllocateGrids: the extents of stage `d` with `2*depth` more along a
   * partitioned `d` are those of stage `d + 1`, and the grid built from their global extents is stage `d + 1`.
   */
  lemma GrowStage(g: Grid, depth: nat, d: nat, plocal: seq<nat>, global: seq<nat>)
    requires |g.processors| == |g.ldims| && Positive(g.processors) && d < g.Nd() && g.processors[d] > 1
    requires plocal == Stage(g, depth, d).ldims && |global| == g.Nd()
    requires forall k :: 0 <= k < |global| ==> global[k] == plocal[d := plocal[d] + 2 * depth][k] * g.processors[k]
    ensures plocal[d := plocal[d] + 2 * depth] == Stage(g, depth, d + 1).ldims
    ensures MakeGrid(global, g.simd, g.processors) == Stage(g, depth, d + 1)
  {
    StageGrows(g, depth, d);
    MakeStage(g, depth, d + 1, global);
  }

  /** A single-process dimension leaves the stage as it is. */
  lemma KeepStage(g: Grid, depth: nat, d: nat)
    requires |g.processors| == |g.ldims| && d < g.Nd() && g.processors[d] <= 1
    ensures Stage(g, depth, d + 1) == Stage(g, depth, d)
  {
    StageGrows(g, depth, d);
  }

  /** `grids` after AllocateGrids: entry `d` is stage `d + 1`. */
  function Chain(g: Grid, depth: nat): (grids: seq<Grid>)
    requires |g.processors| == |g.ldims|
    ensures |grids| == g.Nd()
  {
    seq(g.Nd(), d requires 0 <= d < g.Nd() => Stage(g, depth, d + 1))
  }

  /** The first `d + 1` entries of the chain are the first `d` followed by stage `d + 1`. */
  lemma ChainPrefix(g: Grid, depth: nat, d: nat)
    requires |g.processors| == |g.ldims| && d < g.Nd()
    ensures Chain(g, depth)[..d + 1] == Chain(g, depth)[..d] + [Stage(g, depth, d + 1)]
  {
    assert Chain(g, depth)[d] == Stage(g, depth, d + 1);
  }

  // ---------------------------------------------------------------------------------------
  // The grid objects the chain refers to.
  // ---------------------------------------------------------------------------------------

  /** A grid object: the caller's unpadded grid, or the one allocated while growing dimension `dim`. */
  datatype GridRef = Unpadded | Allocated(dim: nat)

  /** The grid object `old_grid` refers to after the first `k` steps of AllocateGrids. */
  function LastRef(procs: seq<nat>, k: nat): GridRef
    requires k <= |procs|
  {
    if k == 0 then Unpadded
    else if procs[k - 1] > 1 then Allocated(k - 1)
    else LastRef(procs, k - 1)
  }

  /** The grid objects `grids` holds after AllocateGrids. */
  function ChainRefs(procs: seq<nat>): (refs: seq<GridRef>)
    ensures |refs| == |procs|
  {
    seq(|procs|, d requires 0 <= d < |procs| => LastRef(procs, d + 1))
  }

  /** The first `d + 1` chain objects are the first `d` followed by the object after step `d + 1`. */
  lemma ChainRefsPrefix(procs: seq<nat>, d: nat)
    requires d < |procs|
    ensures ChainRefs(procs)[..d + 1] == ChainRefs(procs)[..d] + [LastRef(procs, d + 1)]
  {
    assert ChainRefs(procs)[d] == LastRef(procs, d + 1);
  }

  /**
   * Chain shape, by object: entry `d` is a grid allocated for `d` when `d` is partitioned;
   * otherwise it is the previous entry again, or the unpadded grid for `d == 0`.
   */
  lemma ChainRefsShape(procs: seq<nat>, d: nat)
    requires d < |procs|
    ensures procs[d] > 1 ==> ChainRefs(procs)[d] == Allocated(d)
    ensures procs[d] <= 1 && d == 0 ==> ChainRefs(procs)[d] == Unpadded
    ensures procs[d] <= 1 && d > 0 ==> ChainRefs(procs)[d] == ChainRefs(procs)[d - 1]
  {
    assert ChainRefs(procs)[d] == LastRef(procs, d + 1);
    assert LastRef(procs, 0) == Unpadded;
  }

  /** A grid object in the chain is either the unpadded grid or one allocated for a partitioned dimension below `k`. */
  lemma {:induction false} LastRefAllocated(procs: seq<nat>, k: nat)
    requires k <= |procs|
    ensures LastRef(procs, k).Allocated? ==> LastRef(procs, k).dim < k && procs[LastRef(procs, k).dim] > 1
  {
    if k > 0 && procs[k - 1] <= 1 {
      LastRefAllocated(procs, k - 1);
    }
  }

  predicate Distinct<U(==)>(s: seq<U>)
  {
    forall i, j :: 0 <= i < j < |s| ==> s[i] != s[j]
  }

  /**
   * Deleting every entry of `grids`, as DeleteGrids does, deletes only grids the cell
   * allocated, each once, exactly when every dimension is partitioned. Otherwise the
   * unpadded grid (the caller's) is deleted, or one allocated grid is deleted twice.
   */
  lemma DeleteEveryEntrySafe(procs: seq<nat>)
    ensures (Unpadded !in ChainRefs(procs) && Distinct(ChainRefs(procs)))
        <==> (forall d :: 0 <= d < |procs| ==> procs[d] > 1)
  {
    var refs := ChainRefs(procs);
    if forall d :: 0 <= d < |procs| ==> procs[d] > 1 {
      forall d | 0 <= d < |procs| ensures refs[d] == Allocated(d) {
        ChainRefsShape(procs, d);
      }
    } else {
      var d :| 0 <= d < |procs| && procs[d] <= 1;
      ChainRefsShape(procs, d);
      if d > 0 {
        assert refs[d - 1] == refs[d];
      }
    }
  }

  /** With a single-process first dimension the chain's first entry is the caller's grid. */
  lemma DeleteEveryEntryFreesCallerGrid()
    ensures ChainRefs([1, 2]) == [Unpadded, Allocated(1)]
  {
  }

  /** With a single-process second dimension the first allocated grid is entered twice. */
  lemma DeleteEveryEntryFreesTwice()
    ensures ChainRefs([2, 1]) == [Allocated(0), Allocated(0)]
  {
  }

  /** The grid objects the cell allocated: one per partitioned dimension below `k`, in order. */
  function OwnedRefs(procs: seq<nat>, k: nat): seq<GridRef>
    requires k <= |procs|
  {
    if k == 0 then []
    else OwnedRefs(procs, k - 1) + (if procs[k - 1] > 1 then [Allocated(k - 1)] else [])
  }

  /** Every grid the cell allocated for a dimension below `k` is owned, and owned refs are allocated below `k`. */
  lemma {:induction false} OwnedRefsAre(procs: seq<nat>, k: nat)
    requires k <= |procs|
    ensures forall d :: 0 <= d < k && procs[d] > 1 ==> Allocated(d) in OwnedRefs(procs, k)
    ensures forall x :: x in OwnedRefs(procs, k) ==> x.Allocated? && x.dim < k && procs[x.dim] > 1
    ensures Distinct(OwnedRefs(procs, k))
  {
    if k > 0 {
      OwnedRefsAre(procs, k - 1);
    }
  }

  /**
   * Deleting the entries of partitioned dimensions deletes every allocated grid of the
   * chain exactly once and never the caller's grid.
   */
  lemma DeleteOwnedSafe(procs: seq<nat>)
    ensures Unpadded !in OwnedRefs(procs, |procs|) && Distinct(OwnedRefs(procs, |procs|))
    ensures forall x :: x in OwnedRefs(procs, |procs|) <==> x in ChainRefs(procs) && x != Unpadded
  {
    OwnedRefsAre(procs, |procs|);
    forall x ensures x in OwnedRefs(procs, |procs|) <==> x in ChainRefs(procs) && x != Unpadded {
      if x in ChainRefs(procs) && x != Unpadded {
        ChainEntryOwned(procs, x);
      }
      if x in OwnedRefs(procs, |procs|) {
        ChainRefsShape(procs, x.dim);
      }
    }
  }

  /** A chain entry other than the unpadded grid is an owned grid. */
  lemma ChainEntryOwned(procs: seq<nat>, x: GridRef)
    requires x in ChainRefs(procs) && x != Unpadded
    ensures x in OwnedRefs(procs, |procs|)
  {
    var refs := ChainRefs(procs);
    var d :| 0 <= d < |refs| && refs[d] == x;
    assert x == LastRef(procs, d + 1);
    LastRefAllocated(procs, d + 1);
    assert x.dim < |procs| && procs[x.dim] > 1;
    OwnedRefsAre(procs, |procs|);
  }

  // ---------------------------------------------------------------------------------------
  // What expansion, exchange and extraction compute.
  // ---------------------------------------------------------------------------------------

  /**
   * Expansion along `dim` of a field on stage `dim`: on a partitioned dimension the padded
   * field, whose padded local position `q` on the rank at process coordinate `k` holds the
   * input at global position `k*ld + q - depth`, cyclically; on a single-process dimension the
   * input itself.
   */
  function ExpandStep<T>(fs: seq<seq<seq<T>>>, g: Grid, depth: nat, dim: nat): (out: seq<seq<seq<T>>>)
    requires Paddable(g, depth) && dim < g.Nd() && Distributed(fs, Stage(g, depth, dim))
    ensures Distributed(out, Stage(g, depth, dim + 1))
  {
    StageStep(g, depth, dim);
    if g.processors[dim] > 1 then Padded(fs, Stage(g, depth, dim), Stage(g, depth, dim + 1), dim, depth) else fs
  }

  /** The field after expanding dimensions `0 .. k-1` in order. */
  function Exchanged<T>(fs: seq<seq<seq<T>>>, g: Grid, depth: nat, k: nat): (out: seq<seq<seq<T>>>)
    requires Paddable(g, depth) && k <= g.Nd() && Distributed(fs, g)
    ensures Distributed(out, Stage(g, depth, k))
  {
    if k == 0 then
      StageZero(g, depth);
      fs
    else
      ExpandStep(Exchanged(fs, g, depth, k - 1), g, depth, k - 1)
  }

  /** Where unpadded local coordinate `c` sits on stage `k`: `depth` further along each partitioned dimension below `k`. */
  function Offset(g: Grid, depth: nat, k: nat, c: seq<nat>): (c': seq<nat>)
    requires |g.processors| == |c|
    ensures |c'| == |c|
  {
    seq(|c|, d requires 0 <= d < |c| => c[d] + if d < k && g.processors[d] > 1 then depth else 0)
  }

  lemma OffsetInRange(g: Grid, depth: nat, k: nat, c: seq<nat>)
    requires g.WellFormed() && InRange(c, g.ldims)
    ensures InRange(Offset(g, depth, k, c), Stage(g, depth, k).ldims)
  {
  }

  /** One expansion step moves a site from its offset on stage `d` to its offset on stage `d + 1`, on the same rank. */
  lemma ExpandStepValue<T>(fs: seq<seq<seq<T>>>, g: Grid, depth: nat, d: nat, r: nat, c: seq<nat>)
    requires Paddable(g, depth) && d < g.Nd() && Distributed(fs, Stage(g, depth, d)) && r < NRanks(g)
    requires InRange(c, g.ldims)
    ensures InRange(Offset(g, depth, d, c), Stage(g, depth, d).ldims)
    ensures InRange(Offset(g, depth, d + 1, c), Stage(g, depth, d + 1).ldims)
    ensures Value(ExpandStep(fs, g, depth, d)[r], Stage(g, depth, d + 1), Offset(g, depth, d + 1, c))
      == Value(fs[r], Stage(g, depth, d), Offset(g, depth, d, c))
  {
    OffsetInRange(g, depth, d, c);
    OffsetInRange(g, depth, d + 1, c);
    StageStep(g, depth, d);
    if g.processors[d] > 1 {
      PaddedOffsetValue(fs, g, depth, d, r, c);
    } else {
      assert Offset(g, depth, d + 1, c) == Offset(g, depth, d, c);
    }
  }

  /** On a partitioned dimension the padded field holds each site `depth` further along it. */
  lemma PaddedOffsetValue<T>(fs: seq<seq<seq<T>>>, g: Grid, depth: nat, d: nat, r: nat, c: seq<nat>)
    requires Paddable(g, depth) && d < g.Nd() && Distributed(fs, Stage(g, depth, d)) && r < NRanks(g)
    requires InRange(c, g.ldims) && g.processors[d] > 1
    ensures PaddedAlong(Stage(g, depth, d), Stage(g, depth, d + 1), d, depth)
    ensures InRange(Offset(g, depth, d, c), Stage(g, depth, d).ldims)
    ensures InRange(Offset(g, depth, d + 1, c), Stage(g, depth, d + 1).ldims)
    ensures Value(Padded(fs, Stage(g, depth, d), Stage(g, depth, d + 1), d, depth)[r], Stage(g, depth, d + 1), Offset(g, depth, d + 1, c))
      == Value(fs[r], Stage(g, depth, d), Offset(g, depth, d, c))
  {
    OffsetInRange(g, depth, d, c);
    OffsetInRange(g, depth, d + 1, c);
    StageStep(g, depth, d);
    var c0, c1 := Offset(g, depth, d, c), Offset(g, depth, d + 1, c);
    var s0, s1 := Stage(g, depth, d), Stage(g, depth, d + 1);
    PaddedLocal(fs, s0, s1, d, depth, r, c1);
    assert c1[d] == c[d] + depth;
    FetchOwn(fs, s0, d, r, c1, c[d]);
    assert c1[d := c[d]] == c0;
  }

  /**
   * Expanding the first `k` dimensions moves every site of the input to its offset
   * coordinate on the same rank: the interior of the padded field is the input.
   */
  lemma {:induction false} ExchangedValue<T>(fs: seq<seq<seq<T>>>, g: Grid, depth: nat, k: nat, r: nat, c: seq<nat>)
    requires Paddable(g, depth) && k <= g.Nd() && Distributed(fs, g) && r < NRanks(g) && InRange(c, g.ldims)
    ensures Stage(g, depth, k).WellFormed() && InRange(Offset(g, depth, k, c), Stage(g, depth, k).ldims)
    ensures Value(Exchanged(fs, g, depth, k)[r], Stage(g, depth, k), Offset(g, depth, k, c)) == Value(fs[r], g, c)
  {
    StageWellFormed(g, depth, k);
    OffsetInRange(g, depth, k, c);
    if k == 0 {
      StageZero(g, depth);
      assert Offset(g, depth, 0, c) == c;
    } else {
      ExchangedValue(fs, g, depth, k - 1, r, c);
      ExpandStepValue(Exchanged(fs, g, depth, k - 1), g, depth, k - 1, r, c);
    }
  }

  /**
   * The unpadded global position that padded global position `p` stands for along a dimension
   * with local extent `ld` over `procs` processes: block `p / (ld + 2*depth)`, position
   * `p % (ld + 2*depth) - depth` inside it, modulo the global extent.
   */
  function Unpad(p: nat, ld: nat, procs: nat, depth: nat): (x: nat)
    requires ld > 0 && procs > 0
    ensures x < ld * procs
  {
    ((p / (ld + 2 * depth)) * ld + p % (ld + 2 * depth) - depth) % (ld * procs)
  }

  /** The global coordinate of the unpadded grid that global coordinate `G'` of stage `k` stands for. */
  function SourceOf(g: Grid, depth: nat, k: nat, G': seq<nat>): (G: seq<nat>)
    requires g.WellFormed() && |G'| == g.Nd()
    ensures |G| == |G'|
  {
    seq(|G'|, j requires 0 <= j < |G'| =>
      if j < k && g.processors[j] > 1 then Unpad(G'[j], g.ldims[j], g.processors[j], depth) else G'[j])
  }

  /** The padded position law of one dimension, written with the extents of the grids on either side. */
  lemma UnpadIs(p: nat, n: nat, ld: nat, glob: nat, procs: nat, depth: nat)
    requires ld > 0 && procs > 0 && n == ld + 2 * depth && glob == ld * procs
    ensures ((p / n) * ld + p % n - depth) % glob == Unpad(p, ld, procs, depth)
  {
  }

  /** Growing dimension `d`: unpadding coordinate `d` then taking the source on stage `d` is the source on stage `d + 1`. */
  lemma SourceOfGrow(g: Grid, depth: nat, d: nat, G': seq<nat>, x: nat)
    requires g.WellFormed() && d < g.Nd() && |G'| == g.Nd() && g.processors[d] > 1
    requires x == Unpad(G'[d], g.ldims[d], g.processors[d], depth)
    ensures SourceOf(g, depth, d, G'[d := x]) == SourceOf(g, depth, d + 1, G')
  {
  }

  /** An unpartitioned dimension `d` adds nothing to the source coordinate. */
  lemma SourceOfKeep(g: Grid, depth: nat, d: nat, G': seq<nat>)
    requires g.WellFormed() && d < g.Nd() && |G'| == g.Nd() && g.processors[d] <= 1
    ensures SourceOf(g, depth, d, G') == SourceOf(g, depth, d + 1, G')
  {
  }

  /**
   * The halo law of the exchange: after expanding the first `k` dimensions, every site of
   * stage `k`, halo and corners included, holds the input at the wrapped global coordinate
   * `SourceOf(G')`, each grown dimension shifted back by `depth` modulo its global extent.
   */
  lemma {:induction false} ExchangedGlobal<T>(fs: seq<seq<seq<T>>>, g: Grid, depth: nat, k: nat, G': seq<nat>)
    requires Paddable(g, depth) && k <= g.Nd() && Distributed(fs, g) && InRange(G', Stage(g, depth, k).Global())
    ensures InRange(SourceOf(g, depth, k, G'), g.Global())
    ensures GlobalValue(Exchanged(fs, g, depth, k), Stage(g, depth, k), G') == GlobalValue(fs, g, SourceOf(g, depth, k, G'))
  {
    if k == 0 {
      StageZero(g, depth);
      assert SourceOf(g, depth, 0, G') == G';
    } else {
      var d := k - 1;
      if g.processors[d] > 1 {
        var x := Unpad(G'[d], g.ldims[d], g.processors[d], depth);
        GrowStepGlobal(Exchanged(fs, g, depth, d), g, depth, d, G');
        ExchangedGlobal(fs, g, depth, d, G'[d := x]);
        SourceOfGrow(g, depth, d, G', x);
      } else {
        KeepStepGlobal(Exchanged(fs, g, depth, d), g, depth, d, G');
        ExchangedGlobal(fs, g, depth, d, G');
        SourceOfKeep(g, depth, d, G');
      }
    }
  }

  /**
   * `out`, on the last stage, is the input padded on every partitioned dimension: each global
   * site, halo and corners included, holds the input at its source coordinate.
   */
  ghost predicate HaloFilled<T>(out: seq<seq<seq<T>>>, fs: seq<seq<seq<T>>>, g: Grid, depth: nat)
    requires Paddable(g, depth) && Distributed(fs, g) && Distributed(out, Stage(g, depth, g.Nd()))
  {
    forall G' :: InRange(G', Stage(g, depth, g.Nd()).Global()) ==>
      InRange(SourceOf(g, depth, g.Nd(), G'), g.Global())
      && GlobalValue(out, Stage(g, depth, g.Nd()), G') == GlobalValue(fs, g, SourceOf(g, depth, g.Nd(), G'))
  }

  /** Exchanging every dimension fills the whole halo, corners included, from the input. */
  lemma ExchangeFillsHalo<T>(fs: seq<seq<seq<T>>>, g: Grid, depth: nat)
    requires Paddable(g, depth) && Distributed(fs, g)
    ensures HaloFilled(Exchanged(fs, g, depth, g.Nd()), fs, g, depth)
  {
    forall G' | InRange(G', Stage(g, depth, g.Nd()).Global())
      ensures InRange(SourceOf(g, depth, g.Nd(), G'), g.Global())
      ensures GlobalValue(Exchanged(fs, g, depth, g.Nd()), Stage(g, depth, g.Nd()), G') == GlobalValue(fs, g, SourceOf(g, depth, g.Nd(), G'))
    {
      ExchangedGlobal(fs, g, depth, g.Nd(), G');
    }
  }

  /** Expanding a partitioned dimension `d`: padded global position `p` along `d` holds the input at `Unpad(p)`. */
  lemma GrowStepGlobal<T>(fs: seq<seq<seq<T>>>, g: Grid, depth: nat, d: nat, G': seq<nat>)
    requires Paddable(g, depth) && d < g.Nd() && g.processors[d] > 1 && Distributed(fs, Stage(g, depth, d))
    requires InRange(G', Stage(g, depth, d + 1).Global())
    ensures InRange(G'[d := Unpad(G'[d], g.ldims[d], g.processors[d], depth)], Stage(g, depth, d).Global())
    ensures GlobalValue(ExpandStep(fs, g, depth, d), Stage(g, depth, d + 1), G')
      == GlobalValue(fs, Stage(g, depth, d), G'[d := Unpad(G'[d], g.ldims[d], g.processors[d], depth)])
  {
    var s0, s1 := Stage(g, depth, d), Stage(g, depth, d + 1);
    StageStep(g, depth, d);
    StageGrows(g, depth, d);
    PaddedGlobal(fs, s0, s1, d, depth, G');
    UnpadIs(G'[d], s1.ldims[d], s0.ldims[d], s0.Global()[d], g.processors[d], depth);
  }

  /** Expanding an unpartitioned dimension `d` changes neither the grid nor the field. */
  lemma KeepStepGlobal<T>(fs: seq<seq<seq<T>>>, g: Grid, depth: nat, d: nat, G': seq<nat>)
    requires Paddable(g, depth) && d < g.Nd() && g.processors[d] <= 1 && Distributed(fs, Stage(g, depth, d))
    requires InRange(G', Stage(g, depth, d + 1).Global())
    ensures InRange(G', Stage(g, depth, d).Global())
    ensures GlobalValue(ExpandStep(fs, g, depth, d), Stage(g, depth, d + 1), G') == GlobalValue(fs, Stage(g, depth, d), G')
  {
    StageStep(g, depth, d);
  }

  /** Lane `l` of site `o` of rank `r` of the crop of a field on the last stage. */
  function CropLane<T>(fs: seq<seq<seq<T>>>, g: Grid, depth: nat, r: nat, o: nat, l: nat): T
    requires Paddable(g, depth) && Distributed(fs, Stage(g, depth, g.Nd()))
    requires r < |fs| && o < g.OSites() && l < g.Nsimd()
  {
    LocalCoorInverse(g, o, l);
    var c := LocalCoor(g, o, l);
    OffsetInRange(g, depth, g.Nd(), c);
    Value(fs[r], Stage(g, depth, g.Nd()), Offset(g, depth, g.Nd(), c))
  }

  /** The crop of a fully padded field: each unpadded site takes the padded site at its offset coordinate. */
  function Cropped<T>(fs: seq<seq<seq<T>>>, g: Grid, depth: nat): (out: seq<seq<seq<T>>>)
    requires Paddable(g, depth) && Distributed(fs, Stage(g, depth, g.Nd()))
    ensures Distributed(out, g)
  {
    StageWellFormed(g, depth, g.Nd());
    seq(|fs|, r requires 0 <= r < |fs| =>
      seq(g.OSites(), o requires 0 <= o < g.OSites() =>
        seq(g.Nsimd(), l requires 0 <= l < g.Nsimd() => CropLane(fs, g, depth, r, o, l))))
  }

  /** The crop in coordinates. */
  lemma CroppedValue<T>(fs: seq<seq<seq<T>>>, g: Grid, depth: nat, r: nat, c: seq<nat>)
    requires Paddable(g, depth) && Distributed(fs, Stage(g, depth, g.Nd())) && r < |fs| && InRange(c, g.ldims)
    ensures InRange(Offset(g, depth, g.Nd(), c), Stage(g, depth, g.Nd()).ldims)
    ensures Value(Cropped(fs, g, depth)[r], g, c) == Value(fs[r], Stage(g, depth, g.Nd()), Offset(g, depth, g.Nd(), c))
  {
    OffsetInRange(g, depth, g.Nd(), c);
    CoorInverse(g, c);
  }

  /** Extracting the exchanged field gives back the input: `Extract(Exchange(in)) == in`. */
  lemma ExtractExchanged<T>(fs: seq<seq<seq<T>>>, g: Grid, depth: nat)
    requires Paddable(g, depth) && Distributed(fs, g)
    ensures Cropped(Exchanged(fs, g, depth, g.Nd()), g, depth) == fs
  {
    var ex := Exchanged(fs, g, depth, g.Nd());
    var out := Cropped(ex, g, depth);
    forall r | 0 <= r < |fs| ensures out[r] == fs[r] {
      forall c | InRange(c, g.ldims) ensures Value(out[r], g, c) == Value(fs[r], g, c) {
        CroppedValue(ex, g, depth, r, c);
        ExchangedValue(fs, g, depth, g.Nd(), r, c);
      }
      ValuesDetermine(out[r], fs[r], g);
    }
  }
}
