/**
 * Gather of a tiled tensor into a single-tile tensor on one node.
 *
 * The source is a grid of tiles, each a Fortran-ordered buffer of its own
 * shape; the destination is the one buffer of a single-tile tensor of the
 * same shape. After checking the destination and the shapes, a single source
 * tile is copied whole; otherwise the tiles are visited in grid order (first
 * dimension fastest) by an odometer, and each is copied whole, as a strided
 * box copy, to its start `tile_index * basetile` in the destination.
 */
module Gather {
  import opened IndexAlgebra
  import opened Tiling
  import opened TileCopy

  /** A tiled tensor: its traits and the buffers of its tiles, by linear grid position. */
  datatype Tensor<T> = Tensor(traits: TensorTraits, tiles: seq<seq<T>>)
  {
    predicate Valid()
    {
      traits.Valid() && |tiles| == Product(traits.Grid()) &&
      forall i :: 0 <= i < |tiles| ==> |tiles[i]| == Product(traits.TileShape(LinearToIndex(traits.Grid(), i)))
    }

    /** The tensor's element at global linear position `k`: found in its tile at its local coordinate. */
    function GlobalAt(k: nat): T
      requires Valid() && k < Product(traits.shape)
    {
      var g := LinearToIndex(traits.shape, k);
      ElementInTile(traits, g);
      var t := traits.TileOf(g);
      IndexRoundTrip(traits.Grid(), t);
      Element(tiles[IndexToLinear(traits.Grid(), t)], traits.TileShape(t), traits.InTile(g))
    }

    /** The tensor as one Fortran-ordered buffer of its whole shape. */
    function Assembled(): (r: seq<T>)
      requires Valid()
      ensures |r| == Product(traits.shape)
    {
      seq(Product(traits.shape), k requires 0 <= k < Product(traits.shape) => GlobalAt(k))
    }
  }

  datatype Error = DstNotSingleTile | ShapeMismatch

  datatype Result<T> = Ok(value: T) | Err(error: Error)

  /** A copy into the destination tile: the whole-tile data copy, or a strided copy of source tile `tile`. */
  datatype Submission = WholeTileCopy | Subcopy(tile: nat, mode: AccessMode)

  /**
   * Every element of every tile lands in the assembled buffer at its global
   * coordinate `tile_start + local`.
   */
  lemma AssembledAt<T>(x: Tensor<T>, t: seq<nat>, l: seq<nat>)
    requires x.Valid() && InBounds(x.traits.Grid(), t) && InBounds(x.traits.TileShape(t), l)
    ensures InBounds(x.traits.shape, AddVec(x.traits.TileStart(t), l))
    ensures 0 <= IndexToLinear(x.traits.Grid(), t) < |x.tiles|
    ensures 0 <= IndexToLinear(x.traits.shape, AddVec(x.traits.TileStart(t), l)) < Product(x.traits.shape)
    ensures |x.tiles[IndexToLinear(x.traits.Grid(), t)]| == Product(x.traits.TileShape(t))
    ensures x.Assembled()[IndexToLinear(x.traits.shape, AddVec(x.traits.TileStart(t), l))]
            == Element(x.tiles[IndexToLinear(x.traits.Grid(), t)], x.traits.TileShape(t), l)
  {
    var tr := x.traits;
    var g := AddVec(tr.TileStart(t), l);
    TileInside(tr, t);
    assert InBounds(tr.shape, g);
    IndexRoundTrip(tr.shape, g);
    IndexRoundTrip(tr.Grid(), t);
    ElementInTile(tr, g);
    TileBoxIff(tr, t, g);
    assert tr.TileOf(g) == t;
    assert tr.InTile(g) == l by {
      assert AddVec(tr.TileStart(t), tr.InTile(g)) == AddVec(tr.TileStart(t), l);
      forall k | 0 <= k < |l|
        ensures tr.InTile(g)[k] == l[k]
      {
        assert AddVec(tr.TileStart(t), tr.InTile(g))[k] == AddVec(tr.TileStart(t), l)[k];
      }
    }
  }

  /** A tensor whose every tile holds only `v` assembles to a buffer holding only `v`. */
  lemma AssembledConstant<T>(x: Tensor<T>, v: T)
    requires x.Valid()
    requires forall i, j :: 0 <= i < |x.tiles| && 0 <= j < |x.tiles[i]| ==> x.tiles[i][j] == v
    ensures forall k :: 0 <= k < |x.Assembled()| ==> x.Assembled()[k] == v
  {
    forall k | 0 <= k < |x.Assembled()|
      ensures x.Assembled()[k] == v
    {
      var g := LinearToIndex(x.traits.shape, k);
      ElementInTile(x.traits, g);
      var t := x.traits.TileOf(g);
      IndexRoundTrip(x.traits.Grid(), t);
      IndexRoundTrip(x.traits.TileShape(t), x.traits.InTile(g));
    }
  }

  /** A tensor of one tile is that tile's buffer. */
  lemma SingleTileAssembled<T>(x: Tensor<T>)
    requires x.Valid() && Product(x.traits.Grid()) == 1
    ensures x.Assembled() == x.tiles[0]
  {
    var tr := x.traits;
    var z := Zeros(tr.Ndim());
    SingleTile(tr);
    GridOfOne(tr.Grid());
    ZeroIndex(tr.Grid());
    IndexRoundTrip(tr.Grid(), z);
    forall k | 0 <= k < Product(tr.shape)
      ensures x.Assembled()[k] == x.tiles[0][k]
    {
      var g := LinearToIndex(tr.shape, k);
      ElementInTile(tr, g);
      assert tr.TileOf(g) == z;
      assert tr.TileStart(z) == z;
      assert tr.InTile(g) == g by {
        forall j | 0 <= j < |g|
          ensures tr.InTile(g)[j] == g[j]
        {
          assert AddVec(tr.TileStart(z), tr.InTile(g))[j] == g[j];
        }
      }
      LinearRoundTrip(tr.shape, k);
    }
  }

  // ---------------------------------------------------------------------------
  // The destination while the tiles are copied

  /** Element `k` of the destination once the tiles at grid positions below `n` are copied. */
  ghost function GatheredAt<T>(d: seq<T>, x: Tensor<T>, n: int, k: nat): T
    requires x.Valid() && |d| == Product(x.traits.shape) && k < |d|
  {
    var g := LinearToIndex(x.traits.shape, k);
    ElementInTile(x.traits, g);
    if IndexToLinear(x.traits.Grid(), x.traits.TileOf(g)) < n then x.GlobalAt(k) else d[k]
  }

  /** The destination once the tiles at grid positions below `n` are copied over `d`. */
  ghost function GatheredUpTo<T>(d: seq<T>, x: Tensor<T>, n: int): (r: seq<T>)
    requires x.Valid() && |d| == Product(x.traits.shape)
    ensures |r| == |d|
  {
    seq(|d|, k requires 0 <= k < |d| => GatheredAt(d, x, n, k))
  }

  lemma GatheredNone<T>(d: seq<T>, x: Tensor<T>)
    requires x.Valid() && |d| == Product(x.traits.shape)
    ensures GatheredUpTo(d, x, 0) == d
  {
    forall k | 0 <= k < |d|
      ensures GatheredUpTo(d, x, 0)[k] == d[k]
    {
      var g := LinearToIndex(x.traits.shape, k);
      ElementInTile(x.traits, g);
      IndexRoundTrip(x.traits.Grid(), x.traits.TileOf(g));
    }
  }

  lemma GatheredAll<T>(d: seq<T>, x: Tensor<T>)
    requires x.Valid() && |d| == Product(x.traits.shape)
    ensures GatheredUpTo(d, x, Product(x.traits.Grid())) == x.Assembled()
  {
    forall k | 0 <= k < |d|
      ensures GatheredUpTo(d, x, Product(x.traits.Grid()))[k] == x.Assembled()[k]
    {
      var g := LinearToIndex(x.traits.shape, k);
      ElementInTile(x.traits, g);
      IndexRoundTrip(x.traits.Grid(), x.traits.TileOf(g));
    }
  }

  /** A tile of the grid, as a box copy: from 0 in itself, to its start in the whole tensor. */
  lemma TileFacts<T>(x: Tensor<T>, t: seq<nat>)
    requires x.Valid() && InBounds(x.traits.Grid(), t)
    ensures 0 <= IndexToLinear(x.traits.Grid(), t) < |x.tiles|
    ensures |x.tiles[IndexToLinear(x.traits.Grid(), t)]| == Product(x.traits.TileShape(t))
    ensures Fits(Zeros(x.traits.Ndim()), x.traits.TileShape(t), x.traits.TileShape(t))
    ensures Fits(x.traits.TileStart(t), x.traits.TileShape(t), x.traits.shape)
    ensures Product(x.traits.TileShape(t)) >= 1
  {
    IndexRoundTrip(x.traits.Grid(), t);
    TileInside(x.traits, t);
    ProductPositive(x.traits.TileShape(t));
  }

  /** Copying tile `t` (at grid position `i`) whole to its start changes exactly the elements of that tile. */
  lemma GatheredAtStep<T>(d: seq<T>, x: Tensor<T>, t: seq<nat>, i: nat, tile: seq<T>, shape: seq<nat>, start: seq<nat>, k: nat)
    requires x.Valid() && |d| == Product(x.traits.shape) && k < |d| && InBounds(x.traits.Grid(), t)
    requires i == IndexToLinear(x.traits.Grid(), t) && i < |x.tiles| && tile == x.tiles[i]
    requires shape == x.traits.TileShape(t) && start == x.traits.TileStart(t)
    requires Fits(Zeros(x.traits.Ndim()), shape, shape) && Fits(start, shape, x.traits.shape) && |tile| == Product(shape)
    ensures BoxCopied(GatheredUpTo(d, x, i), tile, shape, Zeros(x.traits.Ndim()), x.traits.shape, start, shape)[k]
            == GatheredAt(d, x, i + 1, k)
  {
    var tr := x.traits;
    IndexRoundTrip(tr.Grid(), t);
    var g := LinearToIndex(tr.shape, k);
    ElementInTile(tr, g);
    TileBoxIff(tr, t, g);
    var u := tr.TileOf(g);
    IndexRoundTrip(tr.Grid(), u);
    if InBox(g, start, shape) {
      assert u == t;
      assert SourceOf(Zeros(tr.Ndim()), start, g) == tr.InTile(g) by {
        forall j | 0 <= j < |g|
          ensures SourceOf(Zeros(tr.Ndim()), start, g)[j] == tr.InTile(g)[j]
        {
          assert AddVec(tr.TileStart(u), tr.InTile(g))[j] == g[j];
        }
      }
    }
  }

  /** Copying the tile at grid position `i` whole extends the copied prefix by one tile. */
  lemma GatheredStep<T>(d: seq<T>, x: Tensor<T>, t: seq<nat>, i: nat, tile: seq<T>, shape: seq<nat>, start: seq<nat>)
    requires x.Valid() && |d| == Product(x.traits.shape) && InBounds(x.traits.Grid(), t)
    requires i == IndexToLinear(x.traits.Grid(), t) && i < |x.tiles| && tile == x.tiles[i]
    requires shape == x.traits.TileShape(t) && start == x.traits.TileStart(t)
    requires Fits(Zeros(x.traits.Ndim()), shape, shape) && Fits(start, shape, x.traits.shape) && |tile| == Product(shape)
    ensures BoxCopied(GatheredUpTo(d, x, i), tile, shape, Zeros(x.traits.Ndim()), x.traits.shape, start, shape)
            == GatheredUpTo(d, x, i + 1)
  {
    forall k | 0 <= k < |d|
      ensures BoxCopied(GatheredUpTo(d, x, i), tile, shape, Zeros(x.traits.Ndim()), x.traits.shape, start, shape)[k]
              == GatheredUpTo(d, x, i + 1)[k]
    {
      GatheredAtStep(d, x, t, i, tile, shape, start, k);
    }
  }

  // ---------------------------------------------------------------------------
  // gather_async

  /**
   * The tile odometer: `++src_tile_index[0]`, then every coordinate that
   * reached the grid extent is reset to 0 and the next one is advanced.
   */
  method NextTileIndex(grid: seq<nat>, index: seq<nat>) returns (next: seq<nat>)
    requires InBounds(grid, index) && NotLast(grid, index)
    ensures next == Succ(grid, index)
  {
    ghost var f := FirstBelowMax(grid, index, 0);
    next := index[0 := index[0] + 1];
    var k := 0;
    while next[k] == grid[k]
      invariant 0 <= k <= f
      invariant next == Carried(index, k)
      decreases |grid| - k
    {
      next := next[k := 0];
      k := k + 1;
      next := next[k := next[k] + 1];
    }
  }

  /** `dst_tile_start[k] = src_tile_index[k] * basetile[k]` for every k. */
  method TileStartOf(tr: TensorTraits, index: seq<nat>) returns (start: seq<nat>)
    requires tr.Valid() && |index| == tr.Ndim()
    ensures start == tr.TileStart(index)
  {
    start := [];
    for k := 0 to tr.Ndim()
      invariant start == tr.TileStart(index)[..k]
    {
      start := start + [index[k] * tr.basetile[k]];
    }
  }

  /** A whole-buffer data copy: the destination becomes the source. */
  method DataCopy<T>(src: seq<T>, dst: array<T>)
    requires |src| == dst.Length
    modifies dst
    ensures dst[..] == src
  {
    forall k | 0 <= k < dst.Length {
      dst[k] := src[k];
    }
  }

  /**
   * One strided copy: source tile `t`, from its start 0 and of its whole
   * shape, to `dstStart` in the destination buffer.
   */
  method CopyTile<T>(x: Tensor<T>, t: seq<nat>, dstStart: seq<nat>, dst: array<T>, scratch: array<int>, ghost d0: seq<T>)
    requires x.Valid() && x.traits.Ndim() >= 1 && InBounds(x.traits.Grid(), t)
    requires dstStart == x.traits.TileStart(t)
    requires dst.Length == Product(x.traits.shape) && |d0| == dst.Length
    requires scratch.Length >= 2 * x.traits.Ndim() && dst as object != scratch as object
    requires dst[..] == GatheredUpTo(d0, x, IndexToLinear(x.traits.Grid(), t))
    modifies dst, scratch
    ensures dst[..] == GatheredUpTo(d0, x, IndexToLinear(x.traits.Grid(), t) + 1)
  {
    var tr := x.traits;
    var ndim := tr.Ndim();
    TileFacts(x, t);
    var i := IndexToLinear(tr.Grid(), t);
    var shape := tr.TileShape(t);
    GatheredStep(d0, x, t, i, x.tiles[i], shape, dstStart);
    CpuCopyIntersection(ndim, Zeros(ndim), Strides(shape), shape, dstStart, Strides(tr.shape),
                        x.tiles[i], dst, scratch, shape, tr.shape);
  }

  /**
   * `gather_async` on one node, each copy run when it is submitted. It fails
   * before copying anything when the destination has more than one tile or
   * the shapes differ; otherwise the destination holds the source's
   * elements at their global coordinates, and the returned schedule is the
   * one whole-tile copy for a single source tile, or one strided copy per
   * source tile in grid order, write-only for the first and read-write after.
   */
  method GatherAsync<T>(src: Tensor<T>, dstTraits: TensorTraits, dst: array<T>) returns (r: Result<seq<Submission>>)
    requires src.Valid() && dstTraits.Valid() && dst.Length == Product(dstTraits.shape)
    modifies dst
    ensures r == Err(DstNotSingleTile) <==> Product(dstTraits.Grid()) != 1
    ensures r == Err(ShapeMismatch) <==> Product(dstTraits.Grid()) == 1 && src.traits.shape != dstTraits.shape
    ensures r.Err? ==> dst[..] == old(dst[..])
    ensures r.Ok? ==> src.traits.shape == dstTraits.shape && dst[..] == src.Assembled()
    ensures r.Ok? && Product(src.traits.Grid()) == 1 ==> r.value == [WholeTileCopy]
    ensures r.Ok? && Product(src.traits.Grid()) != 1 ==>
              |r.value| == Product(src.traits.Grid()) &&
              forall i :: 0 <= i < |r.value| ==> r.value[i] == Subcopy(i, if i == 0 then W else RW)
  {
    if Product(dstTraits.Grid()) != 1 {
      return Err(DstNotSingleTile);
    }
    if src.traits.shape != dstTraits.shape {
      return Err(ShapeMismatch);
    }
    var tr := src.traits;
    var nelems := Product(tr.Grid());
    if nelems == 1 {
      SingleTileAssembled(src);
      DataCopy(src.tiles[0], dst);
      return Ok([WholeTileCopy]);
    }
    GridPositive(dstTraits);
    GridPositive(tr);
    assert tr.Ndim() >= 1;
    var log := GatherTiles(src, dst);
    return Ok(log);
  }

  /**
   * The multi-tile path of `gather_async`: the first tile is copied write-only
   * to the start of the destination, then the odometer visits every other
   * tile in grid order and copies it read-write to its start.
   */
  method GatherTiles<T>(src: Tensor<T>, dst: array<T>) returns (log: seq<Submission>)
    requires src.Valid() && src.traits.Ndim() >= 1 && Product(src.traits.Grid()) >= 1
    requires dst.Length == Product(src.traits.shape)
    modifies dst
    ensures dst[..] == src.Assembled()
    ensures |log| == Product(src.traits.Grid())
    ensures forall i :: 0 <= i < |log| ==> log[i] == Subcopy(i, if i == 0 then W else RW)
  {
    var tr := src.traits;
    var ndim := tr.Ndim();
    var nelems := Product(tr.Grid());
    var scratch := new int[2 * ndim];
    ghost var d0 := dst[..];
    // The first source tile: index 0 in every dimension, copied to the start
    var index := Zeros(ndim);
    var dstStart := Zeros(ndim);
    ZeroIndex(tr.Grid());
    IndexRoundTrip(tr.Grid(), index);
    assert dstStart == tr.TileStart(index);
    GatheredNone(d0, src);
    CopyTile(src, index, dstStart, dst, scratch, d0);
    log := [Subcopy(0, W)];
    for i := 1 to nelems
      invariant InBounds(tr.Grid(), index) && index == LinearToIndex(tr.Grid(), i - 1)
      invariant IndexToLinear(tr.Grid(), index) == i - 1
      invariant dst[..] == GatheredUpTo(d0, src, i)
      invariant |log| == i && forall j :: 0 <= j < i ==> log[j] == Subcopy(j, if j == 0 then W else RW)
    {
      LinearSucc(tr.Grid(), i - 1);
      index := NextTileIndex(tr.Grid(), index);
      LinearRoundTrip(tr.Grid(), i);
      dstStart := TileStartOf(tr, index);
      CopyTile(src, index, dstStart, dst, scratch, d0);
      log := log + [Subcopy(i, RW)];
    }
    GatheredAll(d0, src);
  }

  /** `gather`: `gather_async` followed by waiting for every task, which here have all run. */
  method Gather<T>(src: Tensor<T>, dstTraits: TensorTraits, dst: array<T>) returns (r: Result<seq<Submission>>)
    requires src.Valid() && dstTraits.Valid() && dst.Length == Product(dstTraits.shape)
    modifies dst
    ensures r == Err(DstNotSingleTile) <==> Product(dstTraits.Grid()) != 1
    ensures r == Err(ShapeMismatch) <==> Product(dstTraits.Grid()) == 1 && src.traits.shape != dstTraits.shape
    ensures r.Err? ==> dst[..] == old(dst[..])
    ensures r.Ok? ==> src.traits.shape == dstTraits.shape && dst[..] == src.Assembled()
  {
    r := GatherAsync(src, dstTraits, dst);
  }
}
