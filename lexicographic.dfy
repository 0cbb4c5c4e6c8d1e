/**
 * Mixed-radix coordinates: Grid's Lexicographic::IndexFromCoor and CoorFromIndex.
 * The first coordinate varies fastest: index = c[0] + d[0]*(c[1] + d[1]*(c[2] + ...)).
 */
module Lexicographic {
  import opened Arith

  /** Every extent is at least one. */
  predicate Positive(dims: seq<nat>)
  {
    forall k :: 0 <= k < |dims| ==> dims[k] > 0
  }

  /** Number of points of a box with the given extents. */
  function Volume(dims: seq<nat>): nat
  {
    if |dims| == 0 then 1 else dims[0] * Volume(dims[1..])
  }

  /** `c` is a coordinate of the box `dims`. */
  predicate InRange(c: seq<nat>, dims: seq<nat>)
  {
    |c| == |dims| && forall k :: 0 <= k < |c| ==> c[k] < dims[k]
  }

  function IndexFromCoor(c: seq<nat>, dims: seq<nat>): nat
    requires |c| == |dims|
  {
    if |c| == 0 then 0 else c[0] + dims[0] * IndexFromCoor(c[1..], dims[1..])
  }

  function CoorFromIndex(index: nat, dims: seq<nat>): (c: seq<nat>)
    requires Positive(dims)
    ensures |c| == |dims|
    decreases |dims|
  {
    if |dims| == 0 then [] else [index % dims[0]] + CoorFromIndex(index / dims[0], dims[1..])
  }

  /** Any contiguous part of positive extents is positive. */
  lemma PositiveSub(dims: seq<nat>, i: nat, j: nat)
    requires Positive(dims) && i <= j <= |dims|
    ensures Positive(dims[i..j])
  {
    forall k | 0 <= k < j - i ensures dims[i..j][k] > 0 {
      assert dims[i..j][k] == dims[i + k];
    }
  }

  lemma {:induction false} VolumePositive(dims: seq<nat>)
    requires Positive(dims)
    ensures Volume(dims) > 0
  {
    if |dims| > 0 {
      VolumePositive(dims[1..]);
    }
  }

  /** The flat index of a coordinate of the box lies inside the box's volume. */
  lemma {:induction false} IndexInRange(c: seq<nat>, dims: seq<nat>)
    requires InRange(c, dims)
    ensures IndexFromCoor(c, dims) < Volume(dims)
  {
    if |c| > 0 {
      IndexInRange(c[1..], dims[1..]);
      MixedBound(c[0], dims[0], IndexFromCoor(c[1..], dims[1..]), Volume(dims[1..]));
    }
  }

  /** Decomposing an index of the box gives a coordinate of the box. */
  lemma {:induction false} CoorInRange(index: nat, dims: seq<nat>)
    requires Positive(dims) && index < Volume(dims)
    ensures InRange(CoorFromIndex(index, dims), dims)
    decreases |dims|
  {
    if |dims| > 0 {
      DivBound(index, dims[0], Volume(dims[1..]));
      CoorInRange(index / dims[0], dims[1..]);
      var c := CoorFromIndex(index, dims);
      assert c[1..] == CoorFromIndex(index / dims[0], dims[1..]);
      forall k | 0 <= k < |c| ensures c[k] < dims[k] {
        if k > 0 {
          assert c[k] == c[1..][k - 1];
        }
      }
    }
  }

  /** Recomposing a decomposed index gives the index back. */
  lemma {:induction false} IndexOfCoor(index: nat, dims: seq<nat>)
    requires Positive(dims) && index < Volume(dims)
    ensures IndexFromCoor(CoorFromIndex(index, dims), dims) == index
    decreases |dims|
  {
    if |dims| > 0 {
      DivBound(index, dims[0], Volume(dims[1..]));
      IndexOfCoor(index / dims[0], dims[1..]);
      var c := CoorFromIndex(index, dims);
      assert c[1..] == CoorFromIndex(index / dims[0], dims[1..]);
    }
  }

  /** Decomposing the index of a coordinate gives the coordinate back. */
  lemma {:induction false} CoorOfIndex(c: seq<nat>, dims: seq<nat>)
    requires InRange(c, dims)
    ensures Positive(dims)
    ensures CoorFromIndex(IndexFromCoor(c, dims), dims) == c
  {
    if |c| > 0 {
      CoorOfIndex(c[1..], dims[1..]);
      SplitMixed(c[0], dims[0], IndexFromCoor(c[1..], dims[1..]));
      var r := CoorFromIndex(IndexFromCoor(c, dims), dims);
      assert r[1..] == c[1..];
    }
  }

  /** Distinct coordinates of one box have distinct indices. */
  lemma IndexInjective(c1: seq<nat>, c2: seq<nat>, dims: seq<nat>)
    requires InRange(c1, dims) && InRange(c2, dims)
    requires IndexFromCoor(c1, dims) == IndexFromCoor(c2, dims)
    ensures c1 == c2
  {
    CoorOfIndex(c1, dims);
    CoorOfIndex(c2, dims);
  }

  /** Replacing one extent scales the volume accordingly. */
  lemma {:induction false} VolumeUpdate(dims: seq<nat>, k: nat, v: nat)
    requires k < |dims|
    ensures Volume(dims[k := v]) * dims[k] == Volume(dims) * v
  {
    var rest := Volume(dims[1..]);
    if k == 0 {
      assert dims[k := v][1..] == dims[1..];
      assert Volume(dims[k := v]) == v * rest;
      MulRotate(v, rest, dims[0]);
    } else {
      VolumeUpdate(dims[1..], k - 1, v);
      assert dims[k := v][1..] == dims[1..][k - 1 := v];
      var updated := Volume(dims[1..][k - 1 := v]);
      assert Volume(dims[k := v]) == dims[0] * updated;
      MulAssoc(dims[0], updated, dims[k]);
      MulAssoc(dims[0], rest, v);
    }
  }

  /** Appending an extent multiplies the volume by it. */
  lemma {:induction false} VolumeSnoc(dims: seq<nat>, v: nat)
    ensures Volume(dims + [v]) == Volume(dims) * v
  {
    if |dims| > 0 {
      assert (dims + [v])[1..] == dims[1..] + [v];
      VolumeSnoc(dims[1..], v);
    }
  }

  /** The volume of a box is the product of the volumes of its first `k` and its remaining extents. */
  lemma {:induction false} VolumeSplit(dims: seq<nat>, k: nat)
    requires k <= |dims|
    ensures Volume(dims) == Volume(dims[..k]) * Volume(dims[k..])
  {
    if k == 0 {
      assert dims[..0] == [] && dims[0..] == dims;
    } else {
      VolumeSplit(dims[1..], k - 1);
      assert dims[..k][1..] == dims[1..][..k - 1];
      assert dims[1..][k - 1..] == dims[k..];
      var low, high := Volume(dims[1..][..k - 1]), Volume(dims[k..]);
      assert Volume(dims[..k]) == dims[0] * low;
      MulAssoc(dims[0], low, high);
    }
  }

  /** The volume of a box, with extent `k` singled out. */
  lemma VolumeAround(dims: seq<nat>, k: nat)
    requires k < |dims|
    ensures Volume(dims) == Volume(dims[..k]) * dims[k] * Volume(dims[k + 1..])
  {
    VolumeSplit(dims, k);
    assert dims[k..][1..] == dims[k + 1..];
    var lo, mid, hi := Volume(dims[..k]), dims[k], Volume(dims[k + 1..]);
    assert Volume(dims[k..]) == mid * hi;
    MulAssoc(lo, mid, hi);
  }

  /** The index of a concatenated coordinate: the first part varies fastest. */
  lemma {:induction false} IndexConcat(a: seq<nat>, da: seq<nat>, b: seq<nat>, db: seq<nat>)
    requires |a| == |da| && |b| == |db|
    ensures IndexFromCoor(a + b, da + db) == IndexFromCoor(a, da) + Volume(da) * IndexFromCoor(b, db)
  {
    if |a| == 0 {
      assert a + b == b && da + db == db;
    } else {
      assert (a + b)[1..] == a[1..] + b && (da + db)[1..] == da[1..] + db;
      IndexConcat(a[1..], da[1..], b, db);
      var ia, ib := IndexFromCoor(a[1..], da[1..]), IndexFromCoor(b, db);
      MulDistribute(da[0], ia, Volume(da[1..]) * ib);
      MulAssoc(da[0], Volume(da[1..]), ib);
    }
  }

  /** Concatenated coordinates of concatenated boxes are coordinates of the whole box. */
  lemma InRangeConcat(a: seq<nat>, da: seq<nat>, b: seq<nat>, db: seq<nat>)
    requires InRange(a, da) && InRange(b, db)
    ensures InRange(a + b, da + db)
  {
    forall k | 0 <= k < |a + b| ensures (a + b)[k] < (da + db)[k] {
      if k >= |a| {
        assert (a + b)[k] == b[k - |a|] && (da + db)[k] == db[k - |a|];
      }
    }
  }

  /** A coordinate with entry `k` singled out: its index mixes the part below `k`, entry `k`, and the part above. */
  lemma IndexAround(lo: seq<nat>, v: nat, hi: seq<nat>, dims: seq<nat>, k: nat)
    requires k < |dims| && InRange(lo, dims[..k]) && v < dims[k] && InRange(hi, dims[k + 1..])
    ensures InRange(lo + [v] + hi, dims)
    ensures IndexFromCoor(lo + [v] + hi, dims)
      == IndexFromCoor(lo, dims[..k]) + Volume(dims[..k]) * (v + dims[k] * IndexFromCoor(hi, dims[k + 1..]))
  {
    var top := [dims[k]] + dims[k + 1..];
    assert dims == dims[..k] + top;
    assert lo + [v] + hi == lo + ([v] + hi);
    assert ([v] + hi)[1..] == hi && top[1..] == dims[k + 1..];
    InRangeConcat([v], [dims[k]], hi, dims[k + 1..]);
    InRangeConcat(lo, dims[..k], [v] + hi, top);
    IndexConcat(lo, dims[..k], [v] + hi, top);
  }

  /** The coordinate of `b` below `k`, `ox` at `k` and `n` above `k`, and its index. */
  lemma {:induction false} PartsIndex(dims: seq<nat>, k: nat, b: nat, ox: nat, n: nat)
    requires Positive(dims) && k < |dims| && ox < dims[k]
    requires Positive(dims[..k]) && Positive(dims[k + 1..])
    requires b < Volume(dims[..k]) && n < Volume(dims[k + 1..])
    ensures InRange(CoorFromIndex(b, dims[..k]) + [ox] + CoorFromIndex(n, dims[k + 1..]), dims)
    ensures IndexFromCoor(CoorFromIndex(b, dims[..k]) + [ox] + CoorFromIndex(n, dims[k + 1..]), dims)
      == b + Volume(dims[..k]) * (ox + dims[k] * n)
  {
    var lo, hi := CoorFromIndex(b, dims[..k]), CoorFromIndex(n, dims[k + 1..]);
    CoorInRange(b, dims[..k]);
    CoorInRange(n, dims[k + 1..]);
    IndexOfCoor(b, dims[..k]);
    IndexOfCoor(n, dims[k + 1..]);
    IndexAround(lo, ox, hi, dims, k);
  }

  /** The index of the coordinate of `b` below `k`, `ox` at `k` and `n` above `k` is the site of `ss = b + n*block`. */
  lemma SiteIndex(dims: seq<nat>, k: nat, ss: nat, ox: nat)
    requires Positive(dims) && k < |dims| && ox < dims[k]
    requires ss < Volume(dims[..k]) * Volume(dims[k + 1..])
    ensures Positive(dims[..k]) && Positive(dims[k + 1..]) && Volume(dims[..k]) > 0
    ensures InRange(CoorFromIndex(ss % Volume(dims[..k]), dims[..k]) + [ox] + CoorFromIndex(ss / Volume(dims[..k]), dims[k + 1..]), dims)
    ensures IndexFromCoor(CoorFromIndex(ss % Volume(dims[..k]), dims[..k]) + [ox] + CoorFromIndex(ss / Volume(dims[..k]), dims[k + 1..]), dims)
      == SiteOf(Volume(dims[..k]), Volume(dims[..k]) * dims[k], ss, ox)
  {
    PositiveSub(dims, 0, k);
    PositiveSub(dims, k + 1, |dims|);
    assert dims[0..k] == dims[..k] && dims[k + 1..|dims|] == dims[k + 1..];
    var block, nblock := Volume(dims[..k]), Volume(dims[k + 1..]);
    VolumePositive(dims[..k]);
    DivBound(ss, block, nblock);
    PartsIndex(dims, k, ss % block, ox, ss / block);
    SiteMixed(block, dims[k], ss, ox);
  }

  /**
   * Decomposing the site `b + n*(block*rd) + ox*block` over `dims` (with `rd = dims[k]`,
   * `block` the volume below `k`, `b = ss % block`, `n = ss / block`) gives the coordinate
   * of `b` below `k`, `ox` at `k`, and the coordinate of `n` above `k`.
   */
  lemma SiteCoordinate(dims: seq<nat>, k: nat, ss: nat, ox: nat)
    requires Positive(dims) && k < |dims| && ox < dims[k]
    requires ss < Volume(dims[..k]) * Volume(dims[k + 1..])
    ensures Positive(dims[..k]) && Positive(dims[k + 1..]) && Volume(dims[..k]) > 0
    ensures CoorFromIndex(SiteOf(Volume(dims[..k]), Volume(dims[..k]) * dims[k], ss, ox), dims)
      == CoorFromIndex(ss % Volume(dims[..k]), dims[..k]) + [ox] + CoorFromIndex(ss / Volume(dims[..k]), dims[k + 1..])
  {
    SiteIndex(dims, k, ss, ox);
    var c := CoorFromIndex(ss % Volume(dims[..k]), dims[..k]) + [ox] + CoorFromIndex(ss / Volume(dims[..k]), dims[k + 1..]);
    CoorOfIndex(c, dims);
  }

  /** Extents multiplied entry by entry. */
  function Times(a: seq<nat>, b: seq<nat>): (c: seq<nat>)
    requires |a| == |b|
    ensures |c| == |a| && forall k :: 0 <= k < |a| ==> c[k] == a[k] * b[k]
  {
    seq(|a|, k requires 0 <= k < |a| => a[k] * b[k])
  }

  /** The volume of an entry-wise product of boxes is the product of their volumes. */
  lemma {:induction false} VolumeTimes(a: seq<nat>, b: seq<nat>)
    requires |a| == |b|
    ensures Volume(Times(a, b)) == Volume(a) * Volume(b)
  {
    if |a| > 0 {
      assert Times(a, b)[1..] == Times(a[1..], b[1..]);
      VolumeTimes(a[1..], b[1..]);
      MulInterchange(a[0], b[0], Volume(a[1..]), Volume(b[1..]));
    }
  }

  /** The running product over `dims`, as Grid computes Nsimd from a SIMD layout. */
  method Product(dims: seq<nat>) returns (p: nat)
    ensures p == Volume(dims)
  {
    p := 1;
    var d := 0;
    while d < |dims|
      invariant 0 <= d <= |dims|
      invariant p == Volume(dims[..d])
    {
      assert dims[..d + 1] == dims[..d] + [dims[d]];
      VolumeSnoc(dims[..d], dims[d]);
      p := p * dims[d];
      d := d + 1;
    }
    assert dims[..d] == dims;
  }
}
