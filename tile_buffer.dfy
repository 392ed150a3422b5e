/**
 * The storage of a tile: the byte size a tile asks its buffer handle for,
 * the capacity and overflow check made before wrapping a caller's buffer,
 * and element access to a tile acquired in local memory.
 *
 * `size_t` is 64 bits wide, so `nelems * sizeof(T)` is computed modulo 2^64;
 * a tile's element count is an `Index` (signed 64-bit), hence below 2^63.
 */
module TileBuffer {
  import opened IndexAlgebra
  import opened TileCopy

  /** 2^64: one more than the largest `size_t`. */
  const SizeModulus: nat := 0x1_0000_0000_0000_0000

  /** 2^63: one more than the largest `Index`. */
  const IndexBound: nat := 0x8000_0000_0000_0000

  datatype SizeError = InsufficientBuffer | SizeOverflow

  datatype Result<T> = Ok(value: T) | Err(error: SizeError)

  /** A buffer handle: the bytes it holds, its registration mode, and whether the caller owns the memory. */
  datatype Handle = Handle(bytes: nat, mode: AccessMode, userBuffer: bool)

  datatype Tile = Tile(shape: seq<nat>, handle: Handle)

  /** `nelems * sizeof(T)` in `size_t` arithmetic. */
  function SizeMul(n: nat, s: nat): nat
  {
    (n * s) % SizeModulus
  }

  /**
   * The overflow test `size / sizeof(T) != nelems` is exact: it fails
   * precisely when the true product does not fit in `size_t`.
   */
  lemma WrapDetect(n: nat, s: nat)
    requires s >= 1
    ensures SizeMul(n, s) / s == n <==> n * s < SizeModulus
  {
    var w := SizeMul(n, s);
    if n * s < SizeModulus {
      assert w == n * s;
      DivModOf(0, s, n);
      assert n * s == 0 + s * n;
    } else {
      var q := (n * s) / SizeModulus;
      assert n * s == w + SizeModulus * q;
      assert q >= 1;
      assert w < n * s;
    }
  }

  /**
   * `_get_size`: fails when the buffer holds fewer elements than the tile
   * needs, then when the byte size does not fit in `size_t`; otherwise the
   * exact byte size.
   */
  function GetSize(nelems: nat, elemSize: nat, ptrNelems: int): (r: Result<nat>)
    requires 1 <= elemSize < SizeModulus && nelems < IndexBound && -(IndexBound as int) <= ptrNelems < IndexBound
    ensures r == Err(InsufficientBuffer) <==> nelems > ptrNelems
    ensures r == Err(SizeOverflow) <==> nelems <= ptrNelems && nelems * elemSize >= SizeModulus
    ensures r.Ok? <==> nelems <= ptrNelems && nelems * elemSize < SizeModulus
    ensures r.Ok? ==> r.value == nelems * elemSize
  {
    WrapDetect(nelems, elemSize);
    if nelems > ptrNelems then Err(InsufficientBuffer)
    else
      var size := SizeMul(nelems, elemSize);
      if size / elemSize != nelems then Err(SizeOverflow) else Ok(size)
  }

  /**
   * The constructor that wraps a caller's buffer of `ptrNelems` elements:
   * built only when `_get_size` succeeds, registered read-write with the
   * exact byte size, and otherwise failing with `_get_size`'s error.
   */
  function TileFromBuffer(shape: seq<nat>, elemSize: nat, ptrNelems: int): (r: Result<Tile>)
    requires 1 <= elemSize < SizeModulus && Product(shape) < IndexBound && -(IndexBound as int) <= ptrNelems < IndexBound
    ensures r.Ok? <==> Product(shape) <= ptrNelems && Product(shape) * elemSize < SizeModulus
    ensures r.Ok? ==> r.value == Tile(shape, Handle(Product(shape) * elemSize, RW, true))
    ensures r.Err? ==> r.error == if Product(shape) > ptrNelems then InsufficientBuffer else SizeOverflow
  {
    match GetSize(Product(shape), elemSize, ptrNelems)
    case Ok(size) => Ok(Tile(shape, Handle(size, RW, true)))
    case Err(e) => Err(e)
  }

  /**
   * The runtime-allocated constructor as written: the request is
   * `nelems * sizeof(T)` in `size_t` arithmetic, with no overflow check.
   */
  function RuntimeTileAsWritten(shape: seq<nat>, elemSize: nat): (t: Tile)
    requires 1 <= elemSize < SizeModulus && Product(shape) < IndexBound
    ensures t.shape == shape && t.handle.mode == R && !t.handle.userBuffer
    ensures t.handle.bytes < SizeModulus
    ensures t.handle.bytes == Product(shape) * elemSize <==> Product(shape) * elemSize < SizeModulus
  {
    WrapDetect(Product(shape), elemSize);
    Tile(shape, Handle(SizeMul(Product(shape), elemSize), R, false))
  }

  /** A tile of 2^62 four-byte elements asks for a buffer of 0 bytes. */
  lemma RuntimeRequestWraps()
    ensures Product([0x4000_0000_0000_0000]) * 4 == SizeModulus
    ensures RuntimeTileAsWritten([0x4000_0000_0000_0000], 4).handle.bytes == 0
  {
    assert Product([0x4000_0000_0000_0000]) == 0x4000_0000_0000_0000 * Product([]);
  }

  /**
   * The runtime-allocated constructor with the overflow test that
   * `_get_size` makes: built registered read-only and runtime-owned with the
   * exact byte size when it fits in `size_t`, failing otherwise.
   */
  function RuntimeTile(shape: seq<nat>, elemSize: nat): (r: Result<Tile>)
    requires 1 <= elemSize < SizeModulus && Product(shape) < IndexBound
    ensures r.Ok? <==> Product(shape) * elemSize < SizeModulus
    ensures r.Ok? ==> r.value == Tile(shape, Handle(Product(shape) * elemSize, R, false))
    ensures r.Err? ==> r.error == SizeOverflow
  {
    WrapDetect(Product(shape), elemSize);
    var size := SizeMul(Product(shape), elemSize);
    if size / elemSize != Product(shape) then Err(SizeOverflow)
    else Ok(Tile(shape, Handle(size, R, false)))
  }

  /** Where the checked constructor succeeds it asks for what the unchecked one asks for. */
  lemma RuntimeTileAgrees(shape: seq<nat>, elemSize: nat)
    requires 1 <= elemSize < SizeModulus && Product(shape) < IndexBound
    ensures RuntimeTile(shape, elemSize).Ok? ==> RuntimeTile(shape, elemSize).value == RuntimeTileAsWritten(shape, elemSize)
  {
  }

  /** A tile acquired in local memory: element access to its buffer. */
  class TileLocalData<T> {
    const buffer: array<T>
    const mode: AccessMode

    constructor(buffer: array<T>, mode: AccessMode)
      ensures this.buffer == buffer && this.mode == mode
    {
      this.buffer := buffer;
      this.mode := mode;
    }

    /** `operator[](i) const`: element i of the buffer. */
    function Get(i: nat): (v: T)
      reads buffer
      requires i < buffer.Length
      ensures v in buffer[..]
    {
      buffer[i]
    }

    /** `operator[](i) = v`: element i becomes v, every other element keeps its value. */
    method Set(i: nat, v: T)
      requires i < buffer.Length
      modifies buffer
      ensures buffer[..] == old(buffer[..])[i := v]
      ensures Get(i) == v
      ensures forall j :: 0 <= j < buffer.Length && j != i ==> Get(j) == old(Get(j))
    {
      buffer[i] := v;
    }
  }
}
