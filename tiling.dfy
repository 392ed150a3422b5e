/**
 * Tiling of a tensor by a regular "basetile" shape: the grid of tiles
 * (ceil(shape / basetile) per dimension), the leftover shape of the last tile
 * in each dimension, the shape of a tile at a grid coordinate, and the tile
 * and local coordinate of a global element.
 */
module Tiling {
  import opened IndexAlgebra

  datatype TensorTraits = TensorTraits(shape: seq<nat>, basetile: seq<nat>)
  {
    predicate Valid()
    {
      |shape| == |basetile| && forall k :: 0 <= k < |basetile| ==> basetile[k] > 0
    }

    function Ndim(): nat
    {
      |shape|
    }

    /** Number of tiles in each dimension. */
    function Grid(): (g: seq<nat>)
      requires Valid()
      ensures |g| == |shape|
    {
      seq(|shape|, k requires 0 <= k < |shape| => GridDim(shape[k], basetile[k]))
    }

    /** Extent of the last tile in each dimension. */
    function Leftover(): (l: seq<nat>)
      requires Valid()
      ensures |l| == |shape|
    {
      seq(|shape|, k requires 0 <= k < |shape| => LeftoverDim(shape[k], basetile[k]))
    }

    /** `get_tile_shape`: basetile inside the grid, leftover on the far boundary, per dimension. */
    function TileShape(t: seq<nat>): (r: seq<nat>)
      requires Valid() && InBounds(Grid(), t)
      ensures |r| == |shape|
    {
      seq(|shape|, k requires 0 <= k < |shape| =>
        if t[k] + 1 < Grid()[k] then basetile[k] else Leftover()[k])
    }

    /** Global coordinate of the first element of tile `t`. */
    function TileStart(t: seq<nat>): (r: seq<nat>)
      requires Valid() && |t| == |shape|
      ensures |r| == |shape|
    {
      seq(|shape|, k requires 0 <= k < |shape| => t[k] * basetile[k])
    }

    /** Grid coordinate of the tile holding global element `g`. */
    function TileOf(g: seq<nat>): (t: seq<nat>)
      requires Valid() && |g| == |shape|
      ensures |t| == |shape|
    {
      seq(|shape|, k requires 0 <= k < |shape| => g[k] / basetile[k])
    }

    /** Coordinate of global element `g` inside its tile. */
    function InTile(g: seq<nat>): (l: seq<nat>)
      requires Valid() && |g| == |shape|
      ensures |l| == |shape|
    {
      seq(|shape|, k requires 0 <= k < |shape| => g[k] % basetile[k])
    }
  }

  function GridDim(n: nat, b: nat): nat
    requires b > 0
  {
    (n + b - 1) / b
  }

  function LeftoverDim(n: nat, b: nat): nat
    requires b > 0
  {
    if n % b == 0 then b else n % b
  }

  /** The tiles of one dimension: grid-1 full tiles followed by the leftover one exactly cover n. */
  lemma DimCover(n: nat, b: nat)
    requires b > 0
    ensures n == 0 ==> GridDim(n, b) == 0
    ensures n > 0 ==> GridDim(n, b) >= 1
    ensures n > 0 ==> (GridDim(n, b) - 1) * b + LeftoverDim(n, b) == n
    ensures 1 <= LeftoverDim(n, b) <= b
  {
    var q, r := n / b, n % b;
    assert n == r + b * q;
    if r == 0 {
      assert n + b - 1 == (b - 1) + b * q;
      DivModOf(b - 1, b, q);
      if n > 0 {
        assert q >= 1;
        assert (q - 1) * b + b == q * b;
      }
    } else {
      assert n + b - 1 == (r - 1) + b * (q + 1);
      DivModOf(r - 1, b, q + 1);
    }
  }

  /** A tile of one dimension ends inside the dimension. */
  lemma DimTileInside(n: nat, b: nat, t: nat)
    requires b > 0 && t < GridDim(n, b)
    ensures t * b + (if t + 1 < GridDim(n, b) then b else LeftoverDim(n, b)) <= n
    ensures 1 <= (if t + 1 < GridDim(n, b) then b else LeftoverDim(n, b)) <= b
  {
    DimCover(n, b);
    var g := GridDim(n, b);
    if t + 1 < g {
      MulMono(b, t + 1, g - 1);
      assert t * b + b == b * (t + 1);
      assert (g - 1) * b == b * (g - 1);
    }
  }

  /** Element g of one dimension lies in tile g / b, at local position g % b. */
  lemma DimElementInTile(n: nat, b: nat, g: nat)
    requires b > 0 && g < n
    ensures g / b < GridDim(n, b)
    ensures g % b < (if g / b + 1 < GridDim(n, b) then b else LeftoverDim(n, b))
    ensures (g / b) * b + g % b == g
  {
    DimCover(n, b);
    var G := GridDim(n, b);
    assert n <= b * G by {
      assert (G - 1) * b + b == b * G;
    }
    DivBelow(g, b, G);
    if g / b + 1 >= G {
      assert g / b == G - 1;
      assert g == (G - 1) * b + g % b;
    }
  }

  /** Tile t of one dimension holds exactly the elements g with g / b == t. */
  lemma DimTileUnique(n: nat, b: nat, t: nat, g: nat)
    requires b > 0 && t < GridDim(n, b)
    requires t * b <= g < t * b + (if t + 1 < GridDim(n, b) then b else LeftoverDim(n, b))
    ensures g / b == t && g % b == g - t * b
  {
    DimTileInside(n, b, t);
    DivModOf(g - t * b, b, t);
    assert g == (g - t * b) + b * t;
  }

  /** Every tile of the grid lies inside the tensor and has a positive extent in every dimension. */
  lemma TileInside(tr: TensorTraits, t: seq<nat>)
    requires tr.Valid() && InBounds(tr.Grid(), t)
    ensures forall k :: 0 <= k < tr.Ndim() ==>
      1 <= tr.TileShape(t)[k] && tr.TileStart(t)[k] + tr.TileShape(t)[k] <= tr.shape[k]
  {
    forall k | 0 <= k < tr.Ndim()
      ensures 1 <= tr.TileShape(t)[k] && tr.TileStart(t)[k] + tr.TileShape(t)[k] <= tr.shape[k]
    {
      DimTileInside(tr.shape[k], tr.basetile[k], t[k]);
    }
  }

  /** Every element of the tensor belongs to a tile of the grid, at an in-bounds local coordinate. */
  lemma ElementInTile(tr: TensorTraits, g: seq<nat>)
    requires tr.Valid() && InBounds(tr.shape, g)
    ensures InBounds(tr.Grid(), tr.TileOf(g))
    ensures InBounds(tr.TileShape(tr.TileOf(g)), tr.InTile(g))
    ensures AddVec(tr.TileStart(tr.TileOf(g)), tr.InTile(g)) == g
  {
    forall k | 0 <= k < tr.Ndim()
      ensures g[k] / tr.basetile[k] < tr.Grid()[k]
    {
      DimElementInTile(tr.shape[k], tr.basetile[k], g[k]);
    }
    forall k | 0 <= k < tr.Ndim()
      ensures tr.InTile(g)[k] < tr.TileShape(tr.TileOf(g))[k]
      ensures tr.TileStart(tr.TileOf(g))[k] + tr.InTile(g)[k] == g[k]
    {
      DimElementInTile(tr.shape[k], tr.basetile[k], g[k]);
    }
  }

  /** The box of tile t contains element g exactly when t is the tile of g. */
  lemma TileBoxIff(tr: TensorTraits, t: seq<nat>, g: seq<nat>)
    requires tr.Valid() && InBounds(tr.Grid(), t) && InBounds(tr.shape, g)
    ensures (forall k :: 0 <= k < tr.Ndim() ==>
               tr.TileStart(t)[k] <= g[k] < tr.TileStart(t)[k] + tr.TileShape(t)[k])
            <==> t == tr.TileOf(g)
  {
    ElementInTile(tr, g);
    if forall k :: 0 <= k < tr.Ndim() ==>
         tr.TileStart(t)[k] <= g[k] < tr.TileStart(t)[k] + tr.TileShape(t)[k]
    {
      forall k | 0 <= k < tr.Ndim()
        ensures t[k] == tr.TileOf(g)[k]
      {
        DimTileUnique(tr.shape[k], tr.basetile[k], t[k], g[k]);
      }
    }
  }

  /** A grid of one tile exists only for a tensor with no zero extent, and its tile is the whole tensor. */
  lemma SingleTile(tr: TensorTraits)
    requires tr.Valid() && Product(tr.Grid()) == 1
    ensures InBounds(tr.Grid(), Zeros(tr.Ndim()))
    ensures tr.TileShape(Zeros(tr.Ndim())) == tr.shape
    ensures forall k :: 0 <= k < tr.Ndim() ==> tr.shape[k] <= tr.basetile[k]
  {
    var z: seq<nat> := Zeros(tr.Ndim());
    GridOfOne(tr.Grid());
    forall k | 0 <= k < tr.Ndim()
      ensures tr.TileShape(z)[k] == tr.shape[k] && tr.shape[k] <= tr.basetile[k]
    {
      DimCover(tr.shape[k], tr.basetile[k]);
    }
  }

  /** A product of naturals is 1 only when every factor is 1. */
  lemma {:induction false} GridOfOne(g: seq<nat>)
    requires Product(g) == 1
    ensures forall k :: 0 <= k < |g| ==> g[k] == 1
  {
    if |g| > 0 {
      assert g[0] * Product(g[1..]) == 1;
      GridOfOne(g[1..]);
      assert forall k :: 1 <= k < |g| ==> g[k] == g[1..][k - 1];
    }
  }

  /** The grid has tiles exactly when the tensor has elements. */
  lemma GridPositive(tr: TensorTraits)
    requires tr.Valid()
    ensures Product(tr.Grid()) >= 1 <==> Product(tr.shape) >= 1
  {
    ProductPositive(tr.Grid());
    ProductPositive(tr.shape);
    forall k | 0 <= k < tr.Ndim()
      ensures tr.Grid()[k] >= 1 <==> tr.shape[k] >= 1
    {
      DimCover(tr.shape[k], tr.basetile[k]);
    }
  }
}
