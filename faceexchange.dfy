/**
 * Face_exchange: padding a distributed field by `depth` along one dimension by explicit
 * halo exchange. Every rank gathers its `depth` lowest and `depth` highest slices into a
 * send buffer of `2*depth` planes, exchanges planes with its two neighbours along the
 * dimension, copies its interior into the middle of the padded field and scatters the
 * received planes into the halo slices. The result is the padded field of Decomposition.
 */
module FaceExchange {
  import opened Arith
  import opened Lexicographic
  import opened Geometry
  import opened Marshal
  import opened Coordinates
  import opened Region
  import opened Decomposition
  import opened Transport
  import opened Buffers

  /** The `buffer_size` loop: the product of the local extents other than `dim`. */
  method BufferSize(lds: seq<nat>, dim: nat) returns (size: nat)
    requires dim < |lds|
    ensures size == Volume(lds[dim := 1])
  {
    ghost var e := lds[dim := 1];
    size := 1;
    var d := 0;
    while d < |lds|
      invariant 0 <= d <= |lds|
      invariant size == Volume(e[..d])
    {
      assert e[..d + 1] == e[..d] + [e[d]];
      VolumeSnoc(e[..d], e[d]);
      if d != dim {
        size := size * lds[d];
      }
      d := d + 1;
    }
    assert e[..d] == e;
  }

  /** The reduced extents with `dim` collapsed multiply up to the face volume. */
  lemma FaceVolume(g: Grid, dim: nat)
    requires g.WellFormed() && dim < g.Nd()
    ensures Volume(g.RDims()[dim := 1]) == Face(g, dim)
  {
    var rd := g.RDims();
    VolumeAround(rd[dim := 1], dim);
    assert rd[dim := 1][..dim] == rd[..dim] && rd[dim := 1][dim + 1..] == rd[dim + 1..];
  }

  /** `Nsimd / simd[dim]` is the lane count of one slice. */
  lemma LanesOfSlice(g: Grid, dim: nat)
    requires g.WellFormed() && dim < g.Nd()
    ensures g.simd[dim] > 0 && g.Nsimd() / g.simd[dim] == RNsimd(g, dim)
  {
    VolumeUpdate(g.simd, dim, 1);
    DivModUnique(g.Nsimd(), g.simd[dim], RNsimd(g, dim), 0);
  }

  /** The local extents with `dim` collapsed are the reduced extents times the SIMD layout, both collapsed. */
  lemma CollapsedExtents(g: Grid, dim: nat)
    requires g.WellFormed() && dim < g.Nd()
    ensures g.ldims[dim := 1] == Times(g.RDims()[dim := 1], g.simd[dim := 1])
  {
    RDimsFacts(g);
  }

  /**
   * The buffer size is the number of words of one slice: the product of the local extents
   * other than `dim` is `nblock * block * rNsimd`, with `rNsimd = Nsimd / simd[dim]`.
   */
  lemma FaceWords(g: Grid, dim: nat)
    requires g.WellFormed() && dim < g.Nd()
    ensures g.simd[dim] > 0
    ensures Volume(g.ldims[dim := 1]) == g.SliceNblock(dim) * g.SliceBlock(dim) * (g.Nsimd() / g.simd[dim])
    ensures Volume(g.ldims[dim := 1]) == SliceWords(g, dim)
  {
    CollapsedExtents(g, dim);
    VolumeTimes(g.RDims()[dim := 1], g.simd[dim := 1]);
    FaceVolume(g, dim);
    LanesOfSlice(g, dim);
  }

  /** The source slice of send plane `k`: planes below `depth` hold the low slices, the others the high ones. */
  function SendSlice(ld: nat, depth: nat, k: nat): (x: nat)
    requires depth <= ld && k < 2 * depth
    ensures x < ld
  {
    if k < depth then k else ld - 2 * depth + k
  }

  /** The first `n` planes of `buf` hold the first `n` send slices of `from`. */
  ghost predicate Sent<T>(buf: seq<T>, from: seq<seq<T>>, g: Grid, dim: nat, depth: nat, words: nat, n: nat)
    requires g.WellFormed() && dim < g.Nd() && Conforms(from, g) && depth <= g.ldims[dim] && n <= 2 * depth
  {
    forall k {:trigger Plane(buf, words, k)} :: 0 <= k < n ==>
      Span(k, words) + words <= |buf| && Plane(buf, words, k) == SliceOf(from, g, dim, SendSlice(g.ldims[dim], depth, k))
  }

  /** Gather slice `x` into plane `plane`, the one after the planes already gathered into `send`. */
  method GatherPlane<T>(send: array<T>, from: seq<seq<T>>, g: Grid, x: nat, dim: nat, depth: nat, words: nat, plane: nat)
    requires g.WellFormed() && dim < g.Nd() && Conforms(from, g) && words == SliceWords(g, dim)
    requires depth <= g.ldims[dim] && plane < 2 * depth && x == SendSlice(g.ldims[dim], depth, plane)
    requires Sent(send[..], from, g, dim, depth, words, plane) && Span(plane, words) + words <= send.Length
    modifies send
    ensures Sent(send[..], from, g, dim, depth, words, plane + 1)
  {
    ghost var before := send[..];
    var at := Span(plane, words);
    GatherSlice(send, from, g, x, dim, at);
    forall k | 0 <= k < plane + 1
      ensures Span(k, words) + words <= send.Length && Plane(send[..], words, k) == SliceOf(from, g, dim, SendSlice(g.ldims[dim], depth, k))
    {
      if k < plane {
        PlaneWithin(k, plane, words);
        PlaneKept(before, send[..], words, k, at);
      } else {
        assert Plane(send[..], words, k) == send[at..at + words];
      }
    }
  }

  /**
   * Gather all surface terms: a fresh send buffer of `2*depth` planes, plane `d` holding
   * slice `d` and plane `depth + d` holding slice `ld - depth + d`.
   */
  method GatherFaces<T(0)>(from: seq<seq<T>>, g: Grid, dim: nat, depth: nat, words: nat, size: nat) returns (send: array<T>)
    requires g.WellFormed() && dim < g.Nd() && Conforms(from, g)
    requires 0 < depth <= g.ldims[dim] && words == SliceWords(g, dim) && size == Span(2 * depth, words)
    ensures fresh(send) && send.Length == size
    ensures Sent(send[..], from, g, dim, depth, words, 2 * depth)
  {
    var ld := g.ldims[dim];
    send := new T[size];
    for d := 0 to depth
      invariant Sent(send[..], from, g, dim, depth, words, d)
    {
      PlaneWithin(d, 2 * depth, words);
      assert SendSlice(ld, depth, d) == d;
      GatherPlane(send, from, g, d, dim, depth, words, d);
    }
    for d := 0 to depth
      invariant Sent(send[..], from, g, dim, depth, words, depth + d)
    {
      PlaneWithin(depth + d, 2 * depth, words);
      assert SendSlice(ld, depth, depth + d) == ld - depth + d;
      GatherPlane(send, from, g, ld - depth + d, dim, depth, words, depth + d);
    }
  }

  /**
   * One step of the exchange at offset `o` of each half: `words` words of the upper half of
   * the lower neighbour's buffer land in the lower half, and `words` words of the lower half
   * of the upper neighbour's buffer land in the upper half.
   */
  method ExchangePlane<T>(sent: seq<seq<T>>, recv: array<T>, half: nat, o: nat, words: nat, xmitToRank: nat, recvFromRank: nat)
    requires xmitToRank < |sent| && recvFromRank < |sent| && o + words <= half
    requires |sent[xmitToRank]| == |sent[recvFromRank]| == recv.Length == 2 * half
    requires HalvesFilled(recv[..], sent[xmitToRank], sent[recvFromRank], half, o)
    modifies recv
    ensures HalvesFilled(recv[..], sent[xmitToRank], sent[recvFromRank], half, o + words)
  {
    ghost var before := recv[..];
    SendToRecvFrom(sent, o, recv, half + o, recvFromRank, words);
    ghost var middle := recv[..];
    SendToRecvFrom(sent, half + o, recv, o, xmitToRank, words);
    ExchangeStep(before, middle, recv[..], sent[xmitToRank], sent[recvFromRank], half, words, o);
  }

  /**
   * Communicate: for each `d < depth`, plane `d` goes to `xmit_to_rank` while plane
   * `depth + d` is received from `recv_from_rank`, and plane `depth + d` goes to
   * `recv_from_rank` while plane `d` is received from `xmit_to_rank`. Under the direct copy
   * the lower half of the receive buffer is the upper half of the lower neighbour's send
   * buffer, and the upper half is the lower half of the upper neighbour's send buffer.
   */
  method Communicate<T(0)>(sent: seq<seq<T>>, g: Grid, r: nat, dim: nat, depth: nat, words: nat, size: nat)
    returns (recv: array<T>)
    requires g.WellFormed() && dim < g.Nd() && r < NRanks(g) && |sent| == NRanks(g)
    requires size == Span(2 * depth, words) && forall q :: 0 <= q < |sent| ==> |sent[q]| == size
    ensures fresh(recv) && recv.Length == size && Span(depth, words) <= size
    ensures recv[..Span(depth, words)] == sent[ShiftedRanks(g, r, dim, 1).0][Span(depth, words)..]
    ensures recv[Span(depth, words)..] == sent[ShiftedRanks(g, r, dim, 1).1][..Span(depth, words)]
  {
    var commProc := 1;
    var xmitToRank, recvFromRank := ShiftedRanks(g, r, dim, commProc).0, ShiftedRanks(g, r, dim, commProc).1;
    recv := ExchangeHalves(sent, xmitToRank, recvFromRank, depth, words, size);
  }

  /**
   * The plane-by-plane exchange loop of one rank: plane `d` of the upper half of rank
   * `xmitToRank`'s buffer lands in plane `d` of the lower half, and plane `d` of the lower
   * half of rank `recvFromRank`'s buffer in plane `d` of the upper half.
   */
  method ExchangeHalves<T(0)>(sent: seq<seq<T>>, xmitToRank: nat, recvFromRank: nat, depth: nat, words: nat, size: nat)
    returns (recv: array<T>)
    requires xmitToRank < |sent| && recvFromRank < |sent| && size == Span(2 * depth, words)
    requires |sent[xmitToRank]| == size && |sent[recvFromRank]| == size
    ensures fresh(recv) && recv.Length == size && Span(depth, words) <= size
    ensures recv[..Span(depth, words)] == sent[xmitToRank][Span(depth, words)..]
    ensures recv[Span(depth, words)..] == sent[recvFromRank][..Span(depth, words)]
  {
    var half := Span(depth, words);
    SpanAdd(depth, depth, words);
    recv := new T[size];
    var d, o := 0, 0;
    while d < depth
      invariant 0 <= d <= depth && o == Span(d, words) && o <= half
      invariant HalvesFilled(recv[..], sent[xmitToRank], sent[recvFromRank], half, o)
    {
      PlaneWithin(d, depth, words);
      ExchangePlane(sent, recv, half, o, words, xmitToRank, recvFromRank);
      d, o := d + 1, o + words;
    }
    HalvesFilledAll(recv[..], sent[xmitToRank], sent[recvFromRank], half);
  }

  /** Zero in every dimension. */
  function Zeros(n: nat): (z: seq<nat>)
    ensures |z| == n && forall k :: 0 <= k < n ==> z[k] == 0
  {
    seq(n, _ => 0)
  }

  /** The interior copy region: the whole source grid, placed at `depth` along `dim`. */
  lemma InteriorArgs(g: Grid, ng: Grid, dim: nat, depth: nat)
    requires PaddedAlong(g, ng, dim, depth)
    ensures RegionArgs(g, ng, Zeros(g.Nd()), Zeros(g.Nd())[dim := depth], g.ldims)
  {
  }

  /** Moving a coordinate of the interior box back to the source box subtracts `depth` along `dim`. */
  lemma RebaseInterior(c: seq<nat>, dim: nat, depth: nat, p: nat)
    requires dim < |c| && depth <= p
    ensures Rebase(c[dim := p], Zeros(|c|)[dim := depth], Zeros(|c|)) == c[dim := p - depth]
  {
  }

  /** One word of an interior slice of the copied field comes from the input. */
  lemma InteriorWord<T>(from: seq<seq<T>>, to: seq<seq<T>>, g: Grid, ng: Grid, dim: nat, depth: nat, p: nat, j: nat)
    requires PaddedAlong(g, ng, dim, depth) && Conforms(from, g) && Conforms(to, ng)
    requires depth <= p < depth + g.ldims[dim] && j < SliceWords(g, dim)
    ensures RegionArgs(g, ng, Zeros(g.Nd()), Zeros(g.Nd())[dim := depth], g.ldims) && j < SliceWords(ng, dim)
    ensures SliceOf(LocalCopyRegion(from, g, to, ng, Zeros(g.Nd()), Zeros(g.Nd())[dim := depth], g.ldims), ng, dim, p)[j]
      == SliceOf(from, g, dim, p - depth)[j]
  {
    var ll, toLL := Zeros(g.Nd()), Zeros(g.Nd())[dim := depth];
    InteriorArgs(g, ng, dim, depth);
    FaceAgree(g, ng, dim);
    var out := LocalCopyRegion(from, g, to, ng, ll, toLL, g.ldims);
    SliceElemValue(out, ng, dim, p, j);
    var c := FaceCoorAt(ng, dim, j)[dim := p];
    LocalCopyRegionLaw(from, g, to, ng, ll, toLL, g.ldims, c);
    var cg := FaceCoorAt(g, dim, j);
    assert c == cg[dim := p];
    SliceElemValue(from, g, dim, p - depth, j);
    assert InBox(c, toLL, g.ldims) by {
      forall k | 0 <= k < |c| ensures toLL[k] <= c[k] < toLL[k] + g.ldims[k] {
        if k != dim {
          assert c[k] == cg[dim := p - depth][k];
        }
      }
    }
    RebaseInterior(cg, dim, depth, p);
    assert Rebase(c, toLL, ll) == cg[dim := p - depth];
    assert Value(out, ng, c) == Value(from, g, cg[dim := p - depth]);
  }

  /** One word of a halo slice of the copied field is the target's word. */
  lemma HaloWord<T>(from: seq<seq<T>>, to: seq<seq<T>>, g: Grid, ng: Grid, dim: nat, depth: nat, p: nat, j: nat)
    requires PaddedAlong(g, ng, dim, depth) && Conforms(from, g) && Conforms(to, ng) && p < ng.ldims[dim]
    requires !(depth <= p < depth + g.ldims[dim]) && j < SliceWords(g, dim)
    ensures RegionArgs(g, ng, Zeros(g.Nd()), Zeros(g.Nd())[dim := depth], g.ldims) && j < SliceWords(ng, dim)
    ensures SliceOf(LocalCopyRegion(from, g, to, ng, Zeros(g.Nd()), Zeros(g.Nd())[dim := depth], g.ldims), ng, dim, p)[j]
      == SliceOf(to, ng, dim, p)[j]
  {
    var ll, toLL := Zeros(g.Nd()), Zeros(g.Nd())[dim := depth];
    InteriorArgs(g, ng, dim, depth);
    FaceAgree(g, ng, dim);
    var out := LocalCopyRegion(from, g, to, ng, ll, toLL, g.ldims);
    SliceElemValue(out, ng, dim, p, j);
    var c := FaceCoorAt(ng, dim, j)[dim := p];
    LocalCopyRegionLaw(from, g, to, ng, ll, toLL, g.ldims, c);
    SliceElemValue(to, ng, dim, p, j);
    assert !InBox(c, toLL, g.ldims) by { assert !(toLL[dim] <= c[dim] < toLL[dim] + g.ldims[dim]); }
  }

  /** The interior copy moves input slice `x` to padded slice `depth + x` and leaves the halo slices alone. */
  lemma InteriorCopy<T>(from: seq<seq<T>>, to: seq<seq<T>>, g: Grid, ng: Grid, dim: nat, depth: nat, p: nat)
    requires PaddedAlong(g, ng, dim, depth) && Conforms(from, g) && Conforms(to, ng) && p < ng.ldims[dim]
    ensures RegionArgs(g, ng, Zeros(g.Nd()), Zeros(g.Nd())[dim := depth], g.ldims)
    ensures depth <= p < depth + g.ldims[dim] ==>
      SliceOf(LocalCopyRegion(from, g, to, ng, Zeros(g.Nd()), Zeros(g.Nd())[dim := depth], g.ldims), ng, dim, p) == SliceOf(from, g, dim, p - depth)
    ensures !(depth <= p < depth + g.ldims[dim]) ==>
      SliceOf(LocalCopyRegion(from, g, to, ng, Zeros(g.Nd()), Zeros(g.Nd())[dim := depth], g.ldims), ng, dim, p) == SliceOf(to, ng, dim, p)
  {
    InteriorArgs(g, ng, dim, depth);
    FaceAgree(g, ng, dim);
    var out := LocalCopyRegion(from, g, to, ng, Zeros(g.Nd()), Zeros(g.Nd())[dim := depth], g.ldims);
    var s := SliceOf(out, ng, dim, p);
    if depth <= p < depth + g.ldims[dim] {
      var t := SliceOf(from, g, dim, p - depth);
      forall j | 0 <= j < |s| ensures s[j] == t[j] {
        InteriorWord(from, to, g, ng, dim, depth, p, j);
      }
      assert s == t;
    } else {
      var t := SliceOf(to, ng, dim, p);
      forall j | 0 <= j < |s| ensures s[j] == t[j] {
        HaloWord(from, to, g, ng, dim, depth, p, j);
      }
      assert s == t;
    }
  }

  /** The slice `p` of the padded field assembled from the receive buffer and the input. */
  function Assembled<T>(recv: seq<T>, from: seq<seq<T>>, g: Grid, dim: nat, depth: nat, words: nat, p: nat): seq<T>
    requires g.WellFormed() && dim < g.Nd() && Conforms(from, g) && depth <= g.ldims[dim]
    requires p < g.ldims[dim] + 2 * depth && |recv| == Span(2 * depth, words)
  {
    var ld := g.ldims[dim];
    if p < depth then
      PlaneWithin(p, 2 * depth, words);
      Plane(recv, words, p)
    else if p < depth + ld then SliceOf(from, g, dim, p - depth)
    else
      PlaneWithin(p - ld, 2 * depth, words);
      Plane(recv, words, p - ld)
  }

  /** Scattering `data` into slice `y` sets that slice and keeps every other. */
  lemma ScatterSets<T>(sites: seq<seq<T>>, data: seq<T>, g: Grid, dim: nat, y: nat, p: nat)
    requires SliceArgs(g, dim, y) && SliceArgs(g, dim, p) && Conforms(sites, g) && |data| == SliceWords(g, dim)
    ensures SliceOf(Scattered(sites, data, g, dim, y), g, dim, p) == if p == y then data else SliceOf(sites, g, dim, p)
  {
    if p == y {
      SliceOfScattered(sites, data, g, dim, y);
    } else {
      SliceOfScatteredOther(sites, data, g, dim, y, p);
    }
  }

  /** Scatter receive plane `plane` into slice `y` of the padded field. */
  method ScatterPlane<T>(recv: array<T>, out: seq<seq<T>>, ng: Grid, y: nat, dim: nat, words: nat, plane: nat)
    returns (lat: seq<seq<T>>)
    requires SliceArgs(ng, dim, y) && Conforms(out, ng) && words == SliceWords(ng, dim)
    requires Span(plane, words) + words <= recv.Length
    ensures Conforms(lat, ng)
    ensures forall p :: 0 <= p < ng.ldims[dim] ==>
      SliceOf(lat, ng, dim, p) == if p == y then Plane(recv[..], words, plane) else SliceOf(out, ng, dim, p)
  {
    lat := ScatterSlice(recv, out, ng, y, dim, Span(plane, words));
    forall p | 0 <= p < ng.ldims[dim]
      ensures SliceOf(lat, ng, dim, p) == if p == y then Plane(recv[..], words, plane) else SliceOf(out, ng, dim, p)
    {
      ScatterSets(out, recv[..][Span(plane, words)..Span(plane, words) + words], ng, dim, y, p);
    }
  }

  /** Scatter receive planes `first .. first+n-1` into slices `lo .. lo+n-1`, keeping every other slice. */
  method ScatterRange<T>(recv: array<T>, out: seq<seq<T>>, ng: Grid, dim: nat, words: nat, lo: nat, first: nat, n: nat)
    returns (lat: seq<seq<T>>)
    requires ng.WellFormed() && dim < ng.Nd() && Conforms(out, ng) && words == SliceWords(ng, dim)
    requires lo + n <= ng.ldims[dim] && Span(first + n, words) <= recv.Length
    ensures Conforms(lat, ng)
    ensures forall p :: 0 <= p < ng.ldims[dim] ==>
      SliceOf(lat, ng, dim, p) == if lo <= p < lo + n then Plane(recv[..], words, first + (p - lo)) else SliceOf(out, ng, dim, p)
  {
    lat := out;
    for d := 0 to n
      invariant Conforms(lat, ng)
      invariant forall p :: 0 <= p < ng.ldims[dim] ==>
        SliceOf(lat, ng, dim, p) == if lo <= p < lo + d then Plane(recv[..], words, first + (p - lo)) else SliceOf(out, ng, dim, p)
    {
      PlaneWithin(first + d, first + n, words);
      lat := ScatterPlane(recv, lat, ng, lo + d, dim, words, first + d);
    }
  }

  /**
   * Copy the interior, then scatter all faces: receive plane `d` into slice `d` and receive
   * plane `depth + d` into slice `nld - depth + d`.
   */
  method ScatterFaces<T>(recv: array<T>, from: seq<seq<T>>, to: seq<seq<T>>, g: Grid, ng: Grid, dim: nat, depth: nat, words: nat)
    returns (out: seq<seq<T>>)
    requires PaddedAlong(g, ng, dim, depth) && 0 < depth <= g.ldims[dim]
    requires Conforms(from, g) && Conforms(to, ng) && words == SliceWords(g, dim) && recv.Length == Span(2 * depth, words)
    ensures Conforms(out, ng)
    ensures forall p :: 0 <= p < ng.ldims[dim] ==> SliceOf(out, ng, dim, p) == Assembled(recv[..], from, g, dim, depth, words, p)
  {
    var ld, nld := g.ldims[dim], ng.ldims[dim];
    FaceAgree(g, ng, dim);
    var ll := Zeros(g.Nd());
    var toLL := ll[dim := depth];
    InteriorArgs(g, ng, dim, depth);
    var copied := LocalCopyRegion(from, g, to, ng, ll, toLL, g.ldims);
    SpanAdd(depth, depth, words);
    var low := ScatterRange(recv, copied, ng, dim, words, 0, 0, depth);
    out := ScatterRange(recv, low, ng, dim, words, nld - depth, depth, depth);
    forall p | 0 <= p < nld ensures SliceOf(out, ng, dim, p) == Assembled(recv[..], from, g, dim, depth, words, p) {
      InteriorCopy(from, to, g, ng, dim, depth, p);
    }
  }

  /**
   * Slice `p` of rank `r`'s padded field by neighbours: the lower neighbour's high slices
   * below `depth`, the rank's own slices in the middle and the upper neighbour's low slices above.
   */
  function NeighbourSlice<T>(froms: seq<seq<seq<T>>>, g: Grid, dim: nat, depth: nat, r: nat, p: nat): seq<T>
    requires Distributed(froms, g) && dim < g.Nd() && depth <= g.ldims[dim] && r < NRanks(g)
    requires p < g.ldims[dim] + 2 * depth
  {
    var ld := g.ldims[dim];
    var ranks := ShiftedRanks(g, r, dim, 1);
    if p < depth then SliceOf(froms[ranks.0], g, dim, ld - depth + p)
    else if p < depth + ld then SliceOf(froms[r], g, dim, p - depth)
    else SliceOf(froms[ranks.1], g, dim, p - depth - ld)
  }

  /** Below `depth`, the padded field holds the high slices of the lower neighbour. */
  lemma LowHalo<T>(froms: seq<seq<seq<T>>>, g: Grid, ng: Grid, dim: nat, depth: nat, r: nat, p: nat)
    requires Distributed(froms, g) && PaddedAlong(g, ng, dim, depth) && depth <= g.ldims[dim]
    requires r < NRanks(g) && p < depth
    ensures SliceOf(Padded(froms, g, ng, dim, depth)[r], ng, dim, p)
      == SliceOf(froms[ShiftedRanks(g, r, dim, 1).0], g, dim, g.ldims[dim] - depth + p)
  {
    var ld := g.ldims[dim];
    var t := Position(g, r, dim, p) - depth;
    SliceOfPadded(froms, g, ng, dim, depth, r, p);
    FetchNeighbour(g, r, dim, ld - depth + p, -1, t);
    assert RowRank(g, r, dim, t) == ShiftedRanks(g, r, dim, 1).0;
  }

  /** Between the halos, the padded field holds the rank's own slices. */
  lemma InteriorOwn<T>(froms: seq<seq<seq<T>>>, g: Grid, ng: Grid, dim: nat, depth: nat, r: nat, p: nat)
    requires Distributed(froms, g) && PaddedAlong(g, ng, dim, depth)
    requires r < NRanks(g) && depth <= p < depth + g.ldims[dim]
    ensures SliceOf(Padded(froms, g, ng, dim, depth)[r], ng, dim, p) == SliceOf(froms[r], g, dim, p - depth)
  {
    var t := Position(g, r, dim, p) - depth;
    SliceOfPadded(froms, g, ng, dim, depth, r, p);
    RowOwn(g, r, dim, p - depth, t);
  }

  /** Above the interior, the padded field holds the low slices of the upper neighbour. */
  lemma HighHalo<T>(froms: seq<seq<seq<T>>>, g: Grid, ng: Grid, dim: nat, depth: nat, r: nat, p: nat)
    requires Distributed(froms, g) && PaddedAlong(g, ng, dim, depth) && depth <= g.ldims[dim]
    requires r < NRanks(g) && depth + g.ldims[dim] <= p < g.ldims[dim] + 2 * depth
    ensures SliceOf(Padded(froms, g, ng, dim, depth)[r], ng, dim, p)
      == SliceOf(froms[ShiftedRanks(g, r, dim, 1).1], g, dim, p - depth - g.ldims[dim])
  {
    var ld := g.ldims[dim];
    var t := Position(g, r, dim, p) - depth;
    SliceOfPadded(froms, g, ng, dim, depth, r, p);
    FetchNeighbour(g, r, dim, p - depth - ld, 1, t);
    assert RowRank(g, r, dim, t) == ShiftedRanks(g, r, dim, 1).1;
  }

  /**
   * One rank's padded field is determined slice by slice: assembled from its neighbours'
   * faces and its own interior, it is that rank's part of the padded field.
   */
  lemma RankPadded<T>(froms: seq<seq<seq<T>>>, g: Grid, ng: Grid, dim: nat, depth: nat, r: nat, out: seq<seq<T>>)
    requires Distributed(froms, g) && PaddedAlong(g, ng, dim, depth) && depth <= g.ldims[dim]
    requires r < NRanks(g) && Conforms(out, ng)
    requires forall p :: 0 <= p < ng.ldims[dim] ==> SliceOf(out, ng, dim, p) == NeighbourSlice(froms, g, dim, depth, r, p)
    ensures out == Padded(froms, g, ng, dim, depth)[r]
  {
    var padded := Padded(froms, g, ng, dim, depth)[r];
    forall p | 0 <= p < ng.ldims[dim] ensures SliceOf(out, ng, dim, p) == SliceOf(padded, ng, dim, p) {
      if p < depth {
        LowHalo(froms, g, ng, dim, depth, r, p);
      } else if p < depth + g.ldims[dim] {
        InteriorOwn(froms, g, ng, dim, depth, r, p);
      } else {
        HighHalo(froms, g, ng, dim, depth, r, p);
      }
    }
    SlicesDetermine(out, padded, ng, dim);
  }

  /** Received plane `p < depth` is the lower neighbour's high slice `ld - depth + p`. */
  lemma ReceivedLow<T>(recv: seq<T>, low: seq<T>, src: seq<seq<T>>, g: Grid, dim: nat, depth: nat, words: nat, p: nat)
    requires g.WellFormed() && dim < g.Nd() && Conforms(src, g) && depth <= g.ldims[dim] && p < depth
    requires |recv| == |low| == Span(2 * depth, words) && Span(depth, words) <= |recv|
    requires Sent(low, src, g, dim, depth, words, 2 * depth)
    requires recv[..Span(depth, words)] == low[Span(depth, words)..]
    ensures Span(p, words) + words <= |recv|
    ensures Plane(recv, words, p) == SliceOf(src, g, dim, g.ldims[dim] - depth + p)
  {
    LowHalfReceived(recv, low, words, depth, p);
    var x := SendSlice(g.ldims[dim], depth, p + depth);
    assert x == g.ldims[dim] - depth + p;
    assert Plane(low, words, p + depth) == SliceOf(src, g, dim, x);
  }

  /** Plane `p < depth` of a buffer whose lower half is the upper half of `low` is plane `p + depth` of `low`. */
  lemma LowHalfReceived<T>(recv: seq<T>, low: seq<T>, words: nat, depth: nat, p: nat)
    requires |recv| == |low| == Span(2 * depth, words) && p < depth
    requires Span(depth, words) <= |recv| && recv[..Span(depth, words)] == low[Span(depth, words)..]
    ensures Span(p, words) + words <= |recv| && Span(p + depth, words) + words <= |low|
    ensures Plane(recv, words, p) == Plane(low, words, p + depth)
  {
    var half := Span(depth, words);
    LowerPlane(recv, words, depth, p);
    UpperPlane(low, words, depth, p);
    assert Plane(recv[..half], words, p) == Plane(low[half..], words, p);
  }

  /** Received plane `depth + k`, `k < depth`, is the upper neighbour's low slice `k`. */
  lemma ReceivedHigh<T>(recv: seq<T>, high: seq<T>, dst: seq<seq<T>>, g: Grid, dim: nat, depth: nat, words: nat, k: nat)
    requires g.WellFormed() && dim < g.Nd() && Conforms(dst, g) && depth <= g.ldims[dim] && k < depth
    requires |recv| == |high| == Span(2 * depth, words) && Span(depth, words) <= |recv|
    requires Sent(high, dst, g, dim, depth, words, 2 * depth)
    requires recv[Span(depth, words)..] == high[..Span(depth, words)]
    ensures Span(k + depth, words) + words <= |recv|
    ensures Plane(recv, words, k + depth) == SliceOf(dst, g, dim, k)
  {
    HighHalfReceived(recv, high, words, depth, k);
    var x := SendSlice(g.ldims[dim], depth, k);
    assert x == k;
    assert Plane(high, words, k) == SliceOf(dst, g, dim, x);
  }

  /** Plane `depth + k`, `k < depth`, of a buffer whose upper half is the lower half of `high` is plane `k` of `high`. */
  lemma HighHalfReceived<T>(recv: seq<T>, high: seq<T>, words: nat, depth: nat, k: nat)
    requires |recv| == |high| == Span(2 * depth, words) && k < depth
    requires Span(depth, words) <= |recv| && recv[Span(depth, words)..] == high[..Span(depth, words)]
    ensures Span(k + depth, words) + words <= |recv| && Span(k, words) + words <= |high|
    ensures Plane(recv, words, k + depth) == Plane(high, words, k)
  {
    var half := Span(depth, words);
    UpperPlane(recv, words, depth, k);
    LowerPlane(high, words, depth, k);
    assert Plane(recv[half..], words, k) == Plane(high[..half], words, k);
  }

  /** Assembled slice `p < depth` is the lower neighbour's slice `ld - depth + p`. */
  lemma LowAssembled<T>(recv: seq<T>, low: seq<T>, froms: seq<seq<seq<T>>>, g: Grid, dim: nat, depth: nat, words: nat, r: nat, p: nat)
    requires Distributed(froms, g) && dim < g.Nd() && depth <= g.ldims[dim] && r < NRanks(g) && p < depth
    requires |recv| == |low| == Span(2 * depth, words) && Span(depth, words) <= |recv|
    requires Sent(low, froms[ShiftedRanks(g, r, dim, 1).0], g, dim, depth, words, 2 * depth)
    requires recv[..Span(depth, words)] == low[Span(depth, words)..]
    ensures Assembled(recv, froms[r], g, dim, depth, words, p) == NeighbourSlice(froms, g, dim, depth, r, p)
  {
    var src := froms[ShiftedRanks(g, r, dim, 1).0];
    ReceivedLow(recv, low, src, g, dim, depth, words, p);
    assert Assembled(recv, froms[r], g, dim, depth, words, p) == Plane(recv, words, p);
    assert NeighbourSlice(froms, g, dim, depth, r, p) == SliceOf(src, g, dim, g.ldims[dim] - depth + p);
  }

  /** Assembled slice `p >= depth + ld` is the upper neighbour's slice `p - depth - ld`. */
  lemma HighAssembled<T>(recv: seq<T>, high: seq<T>, froms: seq<seq<seq<T>>>, g: Grid, dim: nat, depth: nat, words: nat, r: nat, p: nat)
    requires Distributed(froms, g) && dim < g.Nd() && depth <= g.ldims[dim] && r < NRanks(g)
    requires depth + g.ldims[dim] <= p < g.ldims[dim] + 2 * depth
    requires |recv| == |high| == Span(2 * depth, words) && Span(depth, words) <= |recv|
    requires Sent(high, froms[ShiftedRanks(g, r, dim, 1).1], g, dim, depth, words, 2 * depth)
    requires recv[Span(depth, words)..] == high[..Span(depth, words)]
    ensures Assembled(recv, froms[r], g, dim, depth, words, p) == NeighbourSlice(froms, g, dim, depth, r, p)
  {
    var dst := froms[ShiftedRanks(g, r, dim, 1).1];
    var k := p - depth - g.ldims[dim];
    ReceivedHigh(recv, high, dst, g, dim, depth, words, k);
    assert p - g.ldims[dim] == k + depth;
    assert Assembled(recv, froms[r], g, dim, depth, words, p) == Plane(recv, words, k + depth);
    assert NeighbourSlice(froms, g, dim, depth, r, p) == SliceOf(dst, g, dim, k);
  }

  /**
   * With the receive buffer made of the lower neighbour's high planes and the upper
   * neighbour's low planes, every assembled slice is the slice the neighbours provide.
   */
  lemma AssembledFromNeighbours<T>(recv: seq<T>, low: seq<T>, high: seq<T>, froms: seq<seq<seq<T>>>, g: Grid,
                                   dim: nat, depth: nat, words: nat, r: nat)
    requires Distributed(froms, g) && dim < g.Nd() && 0 < depth <= g.ldims[dim] && r < NRanks(g)
    requires |recv| == |low| == |high| == Span(2 * depth, words) && Span(depth, words) <= |recv|
    requires Sent(low, froms[ShiftedRanks(g, r, dim, 1).0], g, dim, depth, words, 2 * depth)
    requires Sent(high, froms[ShiftedRanks(g, r, dim, 1).1], g, dim, depth, words, 2 * depth)
    requires recv[..Span(depth, words)] == low[Span(depth, words)..]
    requires recv[Span(depth, words)..] == high[..Span(depth, words)]
    ensures forall p :: 0 <= p < g.ldims[dim] + 2 * depth ==>
      Assembled(recv, froms[r], g, dim, depth, words, p) == NeighbourSlice(froms, g, dim, depth, r, p)
  {
    var ld := g.ldims[dim];
    forall p | 0 <= p < ld + 2 * depth
      ensures Assembled(recv, froms[r], g, dim, depth, words, p) == NeighbourSlice(froms, g, dim, depth, r, p)
    {
      if p < depth {
        LowAssembled(recv, low, froms, g, dim, depth, words, r, p);
      } else if p >= depth + ld {
        HighAssembled(recv, high, froms, g, dim, depth, words, r, p);
      }
    }
  }

  /** The send planes of every rank, gathered into one send buffer each. */
  method GatherAll<T(0)>(froms: seq<seq<seq<T>>>, g: Grid, dim: nat, depth: nat, words: nat, size: nat)
    returns (sent: seq<seq<T>>)
    requires Distributed(froms, g) && dim < g.Nd() && 0 < depth <= g.ldims[dim]
    requires words == SliceWords(g, dim) && size == Span(2 * depth, words)
    ensures |sent| == |froms|
    ensures forall q :: 0 <= q < |sent| ==> |sent[q]| == size && Sent(sent[q], froms[q], g, dim, depth, words, 2 * depth)
  {
    sent := [];
    for r := 0 to |froms|
      invariant |sent| == r
      invariant forall q :: 0 <= q < r ==> |sent[q]| == size && Sent(sent[q], froms[q], g, dim, depth, words, 2 * depth)
    {
      var send := GatherFaces(froms[r], g, dim, depth, words, size);
      sent := sent + [send[..]];
    }
  }

  /** Rank `r`'s part of Face_exchange: receive its halo planes, copy its interior and scatter the planes. */
  method ExchangeRank<T(0)>(sent: seq<seq<T>>, froms: seq<seq<seq<T>>>, to: seq<seq<T>>, g: Grid, ng: Grid,
                            dim: nat, depth: nat, words: nat, size: nat, r: nat)
    returns (out: seq<seq<T>>)
    requires Distributed(froms, g) && PaddedAlong(g, ng, dim, depth) && 0 < depth <= g.ldims[dim]
    requires r < NRanks(g) && Conforms(to, ng) && words == SliceWords(g, dim) && size == Span(2 * depth, words)
    requires |sent| == |froms|
    requires forall q :: 0 <= q < |sent| ==> |sent[q]| == size && Sent(sent[q], froms[q], g, dim, depth, words, 2 * depth)
    ensures out == Padded(froms, g, ng, dim, depth)[r]
  {
    var recv := Communicate(sent, g, r, dim, depth, words, size);
    out := ScatterFaces(recv, froms[r], to, g, ng, dim, depth, words);
    var ranks := ShiftedRanks(g, r, dim, 1);
    AssembledFromNeighbours(recv[..], sent[ranks.0], sent[ranks.1], froms, g, dim, depth, words, r);
    RankPadded(froms, g, ng, dim, depth, r, out);
  }

  /**
   * Face_exchange on every rank of the process grid at once. It requires
   * `0 < depth <= ld` and a target grid that is the source grid grown by `2*depth` along
   * `dim`, and it produces the padded field: padded local position `q` of the rank at process
   * coordinate `k` holds the input at global position `k*ld + q - depth` along `dim`, periodically.
   */
  method FaceExchange<T(0)>(froms: seq<seq<seq<T>>>, tos: seq<seq<seq<T>>>, g: Grid, ng: Grid, dim: nat, depth: nat)
    returns (outs: seq<seq<seq<T>>>)
    requires Distributed(froms, g) && Distributed(tos, ng) && PaddedAlong(g, ng, dim, depth)
    requires 0 < depth <= g.ldims[dim]
    ensures outs == Padded(froms, g, ng, dim, depth)
  {
    var bufferSize := BufferSize(g.ldims, dim);
    var nsimd := Product(g.simd);
    FaceWords(g, dim);
    var rNsimd := nsimd / g.simd[dim];
    assert bufferSize == g.SliceNblock(dim) * g.SliceBlock(dim) * rNsimd;
    var words := bufferSize;
    var size := bufferSize * 2 * depth;
    BufferLength(words, depth);
    var sent := GatherAll(froms, g, dim, depth, words, size);
    outs := [];
    for r := 0 to |froms|
      invariant |outs| == r
      invariant forall q :: 0 <= q < r ==> outs[q] == Padded(froms, g, ng, dim, depth)[q]
    {
      var out := ExchangeRank(sent, froms, tos[r], g, ng, dim, depth, words, size, r);
      outs := outs + [out];
    }
  }
}
