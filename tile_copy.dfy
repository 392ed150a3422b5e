/**
 * Copy of the intersection of two tiles placed in one coordinate space.
 *
 * `PlanIntersection` is the per-dimension loop of `copy_intersection_work`:
 * it finds the boxes disjoint or computes the local starts of the overlap in
 * both tiles, its shape, and whether the destination is fully overwritten.
 * `CpuCopyIntersection` is the codelet: an odometer over two index vectors
 * kept in a scratch buffer, with two linear offsets kept in step through the
 * strides. `CopyIntersectionWork` chooses the task (scalar codelet, write-only
 * or read-write codelet, or nothing) and runs it at once.
 */
module TileCopy {
  import opened IndexAlgebra

  datatype Option<T> = None | Some(value: T)

  /** Access modes of a task's buffers. */
  datatype AccessMode = R | W | RW | Scratch

  /** The codelets `copy_intersection_work` submits. */
  datatype Codelet = CopyNdim0 | CopyIntersection

  /** A submitted task: its codelet, the destination's access mode, and whether a scratch buffer is attached. */
  datatype Task = Task(codelet: Codelet, dstMode: AccessMode, usesScratch: bool)

  /** The overlap of two boxes in the local coordinates of each, and the write-only flag. */
  datatype Overlap = Overlap(srcStart: seq<nat>, dstStart: seq<nat>, copyShape: seq<nat>, fullOverwrite: bool)

  predicate SameRank(srcShape: seq<nat>, srcOffset: seq<int>, dstShape: seq<nat>, dstOffset: seq<int>)
  {
    |srcOffset| == |srcShape| && |dstShape| == |srcShape| && |dstOffset| == |srcShape|
  }

  /** The box [start, start + shape) contains g. */
  predicate InBox(g: seq<int>, start: seq<int>, shape: seq<nat>)
    requires |g| == |start| == |shape|
  {
    forall k :: 0 <= k < |g| ==> start[k] <= g[k] < start[k] + shape[k]
  }

  /** Element at multi-index `idx` of a Fortran-ordered buffer of shape `shape`. */
  function Element<T>(buf: seq<T>, shape: seq<nat>, idx: seq<int>): T
    requires |buf| == Product(shape) && InBounds(shape, idx)
  {
    IndexRoundTrip(shape, idx);
    buf[IndexToLinear(shape, idx)]
  }

  function Max(a: int, b: int): int { if a < b then b else a }
  function Min(a: int, b: int): int { if a < b then a else b }

  /** The disjointness test of `copy_intersection_work` in dimension i. */
  predicate DisjointAt(srcShape: seq<nat>, srcOffset: seq<int>, dstShape: seq<nat>, dstOffset: seq<int>, i: nat)
    requires SameRank(srcShape, srcOffset, dstShape, dstOffset) && i < |srcShape|
  {
    srcOffset[i] + srcShape[i] <= dstOffset[i] || dstOffset[i] + dstShape[i] <= srcOffset[i]
  }

  predicate Disjoint(srcShape: seq<nat>, srcOffset: seq<int>, dstShape: seq<nat>, dstOffset: seq<int>)
    requires SameRank(srcShape, srcOffset, dstShape, dstOffset)
  {
    exists i :: 0 <= i < |srcShape| && DisjointAt(srcShape, srcOffset, dstShape, dstOffset, i)
  }

  /**
   * Reference definition of the overlap: in every dimension it is
   * [max of the offsets, min of the ends), expressed relative to each tile.
   */
  function Intersection(srcShape: seq<nat>, srcOffset: seq<int>, dstShape: seq<nat>, dstOffset: seq<int>): Option<Overlap>
    requires SameRank(srcShape, srcOffset, dstShape, dstOffset)
  {
    if Disjoint(srcShape, srcOffset, dstShape, dstOffset) then None
    else
      var n := |srcShape|;
      var lo := seq(n, i requires 0 <= i < n => Max(srcOffset[i], dstOffset[i]));
      var hi := seq(n, i requires 0 <= i < n => Min(srcOffset[i] + srcShape[i], dstOffset[i] + dstShape[i]));
      Some(Overlap(
        seq(n, i requires 0 <= i < n => (lo[i] - srcOffset[i]) as nat),
        seq(n, i requires 0 <= i < n => (lo[i] - dstOffset[i]) as nat),
        seq(n, i requires 0 <= i < n => if hi[i] < lo[i] then 0 else (hi[i] - lo[i]) as nat),
        forall i :: 0 <= i < n ==> hi[i] - lo[i] == dstShape[i]))
  }

  /**
   * What a copy of the intersection promises, in global coordinates: every
   * destination element whose global coordinate lies in the source box holds
   * the source element at that coordinate; every other one keeps its value.
   */
  function CopiedIntersection<T>(d: seq<T>, s: seq<T>, srcShape: seq<nat>, srcOffset: seq<int>,
                                 dstShape: seq<nat>, dstOffset: seq<int>): (r: seq<T>)
    requires SameRank(srcShape, srcOffset, dstShape, dstOffset)
    requires |d| == Product(dstShape) && |s| == Product(srcShape)
    ensures |r| == |d|
  {
    seq(|d|, k requires 0 <= k < |d| =>
      var g := AddVec(dstOffset, LinearToIndex(dstShape, k));
      if InBox(g, srcOffset, srcShape) then Element(s, srcShape, SubVec(g, srcOffset)) else d[k])
  }

  /** A sub-box fits in a box of the given shape. */
  predicate Fits(start: seq<nat>, copyShape: seq<nat>, shape: seq<nat>)
  {
    |start| == |copyShape| == |shape| && forall k :: 0 <= k < |shape| ==> start[k] + copyShape[k] <= shape[k]
  }

  function SourceOf(srcStart: seq<nat>, dstStart: seq<nat>, g: seq<int>): (r: seq<int>)
    requires |srcStart| == |dstStart| == |g|
    ensures |r| == |g|
  {
    AddVec(srcStart, SubVec(g, dstStart))
  }

  lemma SourceInBounds(srcShape: seq<nat>, srcStart: seq<nat>, dstStart: seq<nat>, copyShape: seq<nat>, g: seq<int>)
    requires Fits(srcStart, copyShape, srcShape) && |dstStart| == |g| == |srcShape|
    requires InBox(g, dstStart, copyShape)
    ensures InBounds(srcShape, SourceOf(srcStart, dstStart, g))
  {
  }

  /**
   * What the codelet promises, in local coordinates: the destination
   * elements of the sub-box [dstStart, dstStart + copyShape) hold the
   * matching source elements of [srcStart, srcStart + copyShape); every other
   * destination element keeps its value.
   */
  function BoxCopied<T>(d: seq<T>, s: seq<T>, srcShape: seq<nat>, srcStart: seq<nat>,
                        dstShape: seq<nat>, dstStart: seq<nat>, copyShape: seq<nat>): (r: seq<T>)
    requires Fits(srcStart, copyShape, srcShape) && |dstStart| == |srcShape| && |dstShape| == |srcShape|
    requires |d| == Product(dstShape) && |s| == Product(srcShape)
    ensures |r| == |d|
  {
    seq(|d|, k requires 0 <= k < |d| =>
      var g := LinearToIndex(dstShape, k);
      if InBox(g, dstStart, copyShape) then
        SourceInBounds(srcShape, srcStart, dstStart, copyShape, g);
        Element(s, srcShape, SourceOf(srcStart, dstStart, g))
      else d[k])
  }

  // ---------------------------------------------------------------------------
  // copy_intersection_work: the overlap loop

  /** The per-dimension loop of `copy_intersection_work`, with its early return. */
  method PlanIntersection(srcShape: seq<nat>, srcOffset: seq<int>, dstShape: seq<nat>, dstOffset: seq<int>)
    returns (plan: Option<Overlap>)
    requires SameRank(srcShape, srcOffset, dstShape, dstOffset)
    ensures plan == Intersection(srcShape, srcOffset, dstShape, dstOffset)
  {
    var ndim := |srcShape|;
    var srcStart: seq<nat>, dstStart: seq<nat>, copyShape: seq<nat> := [], [], [];
    var fullOverwrite := true;
    for i := 0 to ndim
      invariant |srcStart| == i && |dstStart| == i && |copyShape| == i
      invariant forall k :: 0 <= k < i ==> !DisjointAt(srcShape, srcOffset, dstShape, dstOffset, k)
      invariant forall k :: 0 <= k < i ==>
        srcStart[k] == Max(srcOffset[k], dstOffset[k]) - srcOffset[k] &&
        dstStart[k] == Max(srcOffset[k], dstOffset[k]) - dstOffset[k] &&
        copyShape[k] == Min(srcOffset[k] + srcShape[k], dstOffset[k] + dstShape[k]) - Max(srcOffset[k], dstOffset[k])
      invariant fullOverwrite <==> forall k :: 0 <= k < i ==> copyShape[k] == dstShape[k]
    {
      // Disjoint in dimension i: no task.
      if srcOffset[i] + srcShape[i] <= dstOffset[i] || dstOffset[i] + dstShape[i] <= srcOffset[i] {
        assert DisjointAt(srcShape, srcOffset, dstShape, dstOffset, i);
        return None;
      }
      if srcOffset[i] < dstOffset[i] {
        // The source starts first: the overlap begins at dst_start 0.
        var s := dstOffset[i] - srcOffset[i];
        dstStart := dstStart + [0];
        srcStart := srcStart + [s];
        copyShape := copyShape + [if srcShape[i] - s < dstShape[i] then srcShape[i] - s else dstShape[i]];
      } else {
        // The destination starts no later: the overlap begins at src_start 0.
        var s := srcOffset[i] - dstOffset[i];
        dstStart := dstStart + [s];
        srcStart := srcStart + [0];
        copyShape := copyShape + [if dstShape[i] - s < srcShape[i] then dstShape[i] - s else srcShape[i]];
      }
      // A shorter overlap than the destination rules out write-only access.
      if copyShape[i] != dstShape[i] {
        fullOverwrite := false;
      }
    }
    plan := Some(Overlap(srcStart, dstStart, copyShape, fullOverwrite));
    ghost var expected := Intersection(srcShape, srcOffset, dstShape, dstOffset);
    assert expected.Some?;
    assert expected.value.srcStart == srcStart;
    assert expected.value.dstStart == dstStart;
    assert expected.value.copyShape == copyShape;
  }

  // ---------------------------------------------------------------------------
  // cpu_copy_intersection: the odometer codelet

  /**
   * One step of the odometer for one index vector, kept at
   * `scratch[base..base + n]`: coordinate 0 advances (`++src_index[0]`), then
   * while a coordinate has run past the end of the sub-box it is reset to its
   * start and the next coordinate advances, and the linear offset is corrected
   * through the strides. Relative to `start`, the index moves from `r` to its
   * successor.
   */
  method Advance(scratch: array<int>, base: nat, start: seq<nat>, copyShape: seq<nat>, stride: seq<nat>,
                 offset: int, ghost r: seq<nat>, ghost before: seq<int>, ghost after: seq<int>) returns (next: int)
    requires |start| == |copyShape| == |stride| >= 1 && |before| == base
    requires stride[0] == 1 && InBounds(copyShape, r) && NotLast(copyShape, r)
    requires scratch[..] == before + AddVec(start, r) + after
    requires offset == Offset(AddVec(start, r), stride) + 1
    modifies scratch
    ensures scratch[..] == before + AddVec(start, Succ(copyShape, r)) + after
    ensures next == Offset(AddVec(start, Succ(copyShape, r)), stride)
  {
    var ndim := |copyShape|;
    ghost var f := FirstBelowMax(copyShape, r, 0);
    assert AddVec(start, r)[0 := scratch[base] + 1] == AddVec(start, Carried(r, 0));
    BumpDigit(scratch, base, 0, scratch[base] + 1, before, AddVec(start, r), after);
    next := offset;
    var j: int := 0;
    while scratch[base + j] == start[j] + copyShape[j]
      invariant 0 <= j <= f
      invariant forall k :: 0 <= k < j ==> r[k] + 1 == copyShape[k]
      invariant scratch[..] == before + AddVec(start, Carried(r, j)) + after
      invariant next == offset + CarryShift(copyShape, stride, j)
      decreases ndim - j
    {
      ghost var cur := AddVec(start, Carried(r, j));
      assert scratch[base + j] == cur[j];
      CarriedStep(start, r, j, cur);
      CarryDigit(scratch, base, j, start[j], before, cur, after);
      j := j + 1;
      var ext: int, step: int := copyShape[j - 1], stride[j - 1];
      var back := ext * step;
      next := next + stride[j] - back;
    }
    assert scratch[base + j] == AddVec(start, Carried(r, j))[j];
    CarryOffsetTotal(start, copyShape, stride, r, j);
  }

  /** The offset corrections of the first j carries: back by each extent, forward by each next stride. */
  ghost function CarryShift(copyShape: seq<nat>, stride: seq<nat>, j: nat): int
    requires j < |copyShape| == |stride|
  {
    if j == 0 then 0 else CarryShift(copyShape, stride, j - 1) + stride[j] - copyShape[j - 1] * stride[j - 1]
  }

  /**
   * The offset the carry loop reaches after j carries is the offset of the
   * index it has built: the start of the sub-box plus Carried(r, j).
   */
  lemma {:induction false} CarryOffsetTotal(start: seq<nat>, copyShape: seq<nat>, stride: seq<nat>, r: seq<nat>, j: nat)
    requires |start| == |r| == |copyShape| == |stride| && j < |r| && stride[0] == 1
    requires forall k :: 0 <= k < j ==> r[k] + 1 == copyShape[k]
    ensures Offset(AddVec(start, Carried(r, j)), stride)
            == Offset(AddVec(start, r), stride) + 1 + CarryShift(copyShape, stride, j)
  {
    if j == 0 {
      assert AddVec(start, Carried(r, 0)) == AddVec(start, r)[0 := start[0] + r[0] + 1];
      OffsetUpdate(AddVec(start, r), stride, 0, start[0] + r[0] + 1);
    } else {
      CarryOffsetTotal(start, copyShape, stride, r, j - 1);
      var cur := AddVec(start, Carried(r, j - 1));
      CarryOffset(cur, stride, start, copyShape, j - 1);
      CarriedStep(start, r, j - 1, cur);
    }
  }

  /** The offset correction of one carry: back by the extent of dimension j, forward by one stride of j + 1. */
  lemma CarryOffset(cur: seq<int>, stride: seq<nat>, start: seq<nat>, copyShape: seq<nat>, j: nat)
    requires j + 1 < |cur| == |stride| == |start| == |copyShape|
    requires cur[j] == start[j] + copyShape[j]
    ensures Offset(cur[j := start[j]][j + 1 := cur[j + 1] + 1], stride)
            == Offset(cur, stride) + stride[j + 1] - copyShape[j] * stride[j]
  {
    OffsetUpdate(cur, stride, j, start[j]);
    OffsetUpdate(cur[j := start[j]], stride, j + 1, cur[j + 1] + 1);
  }

  /** One carry: coordinate j wraps back to its start and coordinate j + 1 advances. */
  lemma CarriedStep(start: seq<nat>, r: seq<nat>, j: nat, cur: seq<int>)
    requires j + 1 < |r| == |start| && cur == AddVec(start, Carried(r, j))
    ensures cur[j := start[j]][j + 1 := cur[j + 1] + 1] == AddVec(start, Carried(r, j + 1))
  {
  }

  /**
   * One carry on the index vector stored between `before` and `after` in the
   * scratch buffer: coordinate j is reset to `first` and coordinate j + 1
   * advances by one.
   */
  method CarryDigit(scratch: array<int>, base: nat, j: nat, first: int,
                    ghost before: seq<int>, ghost idx: seq<int>, ghost after: seq<int>)
    requires |before| == base && j + 1 < |idx| && scratch[..] == before + idx + after
    modifies scratch
    ensures scratch[..] == before + idx[j := first][j + 1 := idx[j + 1] + 1] + after
  {
    BumpDigit(scratch, base, j, first, before, idx, after);
    assert scratch[base + j + 1] == idx[j + 1];
    BumpDigit(scratch, base, j + 1, scratch[base + j + 1] + 1, before, idx[j := first], after);
  }

  /** Coordinate j of the index vector stored between `before` and `after` in the scratch buffer becomes v. */
  method BumpDigit(scratch: array<int>, base: nat, j: nat, v: int,
                   ghost before: seq<int>, ghost idx: seq<int>, ghost after: seq<int>)
    requires |before| == base && j < |idx| && scratch[..] == before + idx + after
    modifies scratch
    ensures scratch[..] == before + idx[j := v] + after
  {
    scratch[base + j] := v;
    assert scratch[..] == before + idx[j := v] + after by {
      assert forall k :: 0 <= k < scratch.Length ==> scratch[k] == (before + idx[j := v] + after)[k];
    }
  }

  /** The destination as the codelet leaves it after copying the first n elements of the sub-box. */
  ghost function PartialCopy<T>(d: seq<T>, s: seq<T>, srcShape: seq<nat>, srcStart: seq<nat>,
                                dstShape: seq<nat>, dstStart: seq<nat>, copyShape: seq<nat>, n: int): (r: seq<T>)
    requires Fits(srcStart, copyShape, srcShape) && Fits(dstStart, copyShape, dstShape)
    requires |d| == Product(dstShape) && |s| == Product(srcShape)
    ensures |r| == |d|
  {
    seq(|d|, k requires 0 <= k < |d| => PartialAt(d, s, srcShape, srcStart, dstShape, dstStart, copyShape, n, k))
  }

  /** Element k of `PartialCopy`: copied when it lies among the first n elements of the sub-box. */
  ghost function PartialAt<T>(d: seq<T>, s: seq<T>, srcShape: seq<nat>, srcStart: seq<nat>,
                              dstShape: seq<nat>, dstStart: seq<nat>, copyShape: seq<nat>, n: int, k: nat): T
    requires Fits(srcStart, copyShape, srcShape) && Fits(dstStart, copyShape, dstShape)
    requires |d| == Product(dstShape) && |s| == Product(srcShape) && k < |d|
  {
    var g := LinearToIndex(dstShape, k);
    if InBox(g, dstStart, copyShape) && IndexToLinear(copyShape, SubVec(g, dstStart)) < n then
      SourceInBounds(srcShape, srcStart, dstStart, copyShape, g);
      Element(s, srcShape, SourceOf(srcStart, dstStart, g))
    else d[k]
  }

  /** Writing the element at sub-box index `rel` turns the first I2L(rel) copied elements into one more. */
  lemma PartialCopyStep<T>(d: seq<T>, s: seq<T>, srcShape: seq<nat>, srcStart: seq<nat>,
                           dstShape: seq<nat>, dstStart: seq<nat>, copyShape: seq<nat>, rel: seq<nat>)
    requires Fits(srcStart, copyShape, srcShape) && Fits(dstStart, copyShape, dstShape)
    requires |d| == Product(dstShape) && |s| == Product(srcShape) && InBounds(copyShape, rel)
    ensures 0 <= IndexToLinear(dstShape, AddVec(dstStart, rel)) < |d|
    ensures 0 <= IndexToLinear(srcShape, AddVec(srcStart, rel)) < |s|
    ensures PartialCopy(d, s, srcShape, srcStart, dstShape, dstStart, copyShape, IndexToLinear(copyShape, rel))
              [IndexToLinear(dstShape, AddVec(dstStart, rel)) := s[IndexToLinear(srcShape, AddVec(srcStart, rel))]]
            == PartialCopy(d, s, srcShape, srcStart, dstShape, dstStart, copyShape, IndexToLinear(copyShape, rel) + 1)
  {
    var e := IndexToLinear(copyShape, rel);
    var dp := IndexToLinear(dstShape, AddVec(dstStart, rel));
    var sp := IndexToLinear(srcShape, AddVec(srcStart, rel));
    IndexRoundTrip(dstShape, AddVec(dstStart, rel));
    IndexRoundTrip(srcShape, AddVec(srcStart, rel));
    var before := PartialCopy(d, s, srcShape, srcStart, dstShape, dstStart, copyShape, e);
    var after := PartialCopy(d, s, srcShape, srcStart, dstShape, dstStart, copyShape, e + 1);
    forall k | 0 <= k < |d|
      ensures before[dp := s[sp]][k] == after[k]
    {
      PartialAtStep(d, s, srcShape, srcStart, dstShape, dstStart, copyShape, rel, k);
    }
  }

  /** Element k gains the source element exactly when it is the destination element of sub-box index `rel`. */
  lemma PartialAtStep<T>(d: seq<T>, s: seq<T>, srcShape: seq<nat>, srcStart: seq<nat>,
                         dstShape: seq<nat>, dstStart: seq<nat>, copyShape: seq<nat>, rel: seq<nat>, k: nat)
    requires Fits(srcStart, copyShape, srcShape) && Fits(dstStart, copyShape, dstShape)
    requires |d| == Product(dstShape) && |s| == Product(srcShape) && InBounds(copyShape, rel) && k < |d|
    ensures 0 <= IndexToLinear(dstShape, AddVec(dstStart, rel)) < |d|
    ensures 0 <= IndexToLinear(srcShape, AddVec(srcStart, rel)) < |s|
    ensures PartialAt(d, s, srcShape, srcStart, dstShape, dstStart, copyShape, IndexToLinear(copyShape, rel) + 1, k)
            == if k == IndexToLinear(dstShape, AddVec(dstStart, rel))
               then s[IndexToLinear(srcShape, AddVec(srcStart, rel))]
               else PartialAt(d, s, srcShape, srcStart, dstShape, dstStart, copyShape, IndexToLinear(copyShape, rel), k)
  {
    var dp := IndexToLinear(dstShape, AddVec(dstStart, rel));
    IndexRoundTrip(dstShape, AddVec(dstStart, rel));
    IndexRoundTrip(srcShape, AddVec(srcStart, rel));
    if k == dp {
      PartialAtHit(d, s, srcShape, srcStart, dstShape, dstStart, copyShape, rel);
    } else {
      PartialAtMiss(d, s, srcShape, srcStart, dstShape, dstStart, copyShape, rel, k);
    }
  }

  /** The element written at sub-box index `rel` is the source element at the same offset from the source start. */
  lemma PartialAtHit<T>(d: seq<T>, s: seq<T>, srcShape: seq<nat>, srcStart: seq<nat>,
                        dstShape: seq<nat>, dstStart: seq<nat>, copyShape: seq<nat>, rel: seq<nat>)
    requires Fits(srcStart, copyShape, srcShape) && Fits(dstStart, copyShape, dstShape)
    requires |d| == Product(dstShape) && |s| == Product(srcShape) && InBounds(copyShape, rel)
    requires InBounds(dstShape, AddVec(dstStart, rel)) && InBounds(srcShape, AddVec(srcStart, rel))
    requires 0 <= IndexToLinear(dstShape, AddVec(dstStart, rel)) < |d|
    requires 0 <= IndexToLinear(srcShape, AddVec(srcStart, rel)) < |s|
    ensures PartialAt(d, s, srcShape, srcStart, dstShape, dstStart, copyShape, IndexToLinear(copyShape, rel) + 1,
                      IndexToLinear(dstShape, AddVec(dstStart, rel)))
            == s[IndexToLinear(srcShape, AddVec(srcStart, rel))]
  {
    var g := AddVec(dstStart, rel);
    IndexRoundTrip(dstShape, g);
    SubAdd(dstStart, rel);
    assert SourceOf(srcStart, dstStart, g) == AddVec(srcStart, rel);
    IndexRoundTrip(srcShape, AddVec(srcStart, rel));
  }

  /** Any other destination element keeps its value: no other element has sub-box index `rel`. */
  lemma PartialAtMiss<T>(d: seq<T>, s: seq<T>, srcShape: seq<nat>, srcStart: seq<nat>,
                         dstShape: seq<nat>, dstStart: seq<nat>, copyShape: seq<nat>, rel: seq<nat>, k: nat)
    requires Fits(srcStart, copyShape, srcShape) && Fits(dstStart, copyShape, dstShape)
    requires |d| == Product(dstShape) && |s| == Product(srcShape) && InBounds(copyShape, rel) && k < |d|
    requires k != IndexToLinear(dstShape, AddVec(dstStart, rel))
    ensures PartialAt(d, s, srcShape, srcStart, dstShape, dstStart, copyShape, IndexToLinear(copyShape, rel) + 1, k)
            == PartialAt(d, s, srcShape, srcStart, dstShape, dstStart, copyShape, IndexToLinear(copyShape, rel), k)
  {
    var g := LinearToIndex(dstShape, k);
    if InBox(g, dstStart, copyShape) && IndexToLinear(copyShape, SubVec(g, dstStart)) == IndexToLinear(copyShape, rel) {
      IndexInjective(copyShape, SubVec(g, dstStart), rel);
      AddSub(dstStart, g, rel);
      LinearRoundTrip(dstShape, k);
      assert false;
    }
  }

  /** Before any element is copied, the destination is untouched. */
  lemma PartialCopyNone<T>(d: seq<T>, s: seq<T>, srcShape: seq<nat>, srcStart: seq<nat>,
                           dstShape: seq<nat>, dstStart: seq<nat>, copyShape: seq<nat>)
    requires Fits(srcStart, copyShape, srcShape) && Fits(dstStart, copyShape, dstShape)
    requires |d| == Product(dstShape) && |s| == Product(srcShape)
    ensures PartialCopy(d, s, srcShape, srcStart, dstShape, dstStart, copyShape, 0) == d
  {
    forall k | 0 <= k < |d|
      ensures PartialCopy(d, s, srcShape, srcStart, dstShape, dstStart, copyShape, 0)[k] == d[k]
    {
      var g := LinearToIndex(dstShape, k);
      if InBox(g, dstStart, copyShape) {
        IndexRoundTrip(copyShape, SubVec(g, dstStart));
      }
    }
  }

  /** Once every element of the sub-box is copied, the destination is the box copy. */
  lemma PartialCopyComplete<T>(d: seq<T>, s: seq<T>, srcShape: seq<nat>, srcStart: seq<nat>,
                               dstShape: seq<nat>, dstStart: seq<nat>, copyShape: seq<nat>)
    requires Fits(srcStart, copyShape, srcShape) && Fits(dstStart, copyShape, dstShape)
    requires |d| == Product(dstShape) && |s| == Product(srcShape)
    ensures PartialCopy(d, s, srcShape, srcStart, dstShape, dstStart, copyShape, Product(copyShape))
            == BoxCopied(d, s, srcShape, srcStart, dstShape, dstStart, copyShape)
  {
    forall k | 0 <= k < |d|
      ensures PartialCopy(d, s, srcShape, srcStart, dstShape, dstStart, copyShape, Product(copyShape))[k]
              == BoxCopied(d, s, srcShape, srcStart, dstShape, dstStart, copyShape)[k]
    {
      var g := LinearToIndex(dstShape, k);
      if InBox(g, dstStart, copyShape) {
        IndexRoundTrip(copyShape, SubVec(g, dstStart));
      }
    }
  }

  /**
   * The codelet `cpu_copy_intersection`. The two index vectors live in the
   * scratch buffer (source index at [0, ndim), destination index at
   * [ndim, 2*ndim)); the source and destination offsets move through the
   * strides in step with them. The first element is copied before the loop,
   * unconditionally, so the sub-box must hold at least one element.
   */
  method CpuCopyIntersection<T>(ndim: nat, srcStart: seq<nat>, srcStride: seq<nat>, copyShape: seq<nat>,
                                dstStart: seq<nat>, dstStride: seq<nat>,
                                src: seq<T>, dst: array<T>, scratch: array<int>,
                                ghost srcShape: seq<nat>, ghost dstShape: seq<nat>)
    requires ndim >= 1 && |copyShape| == ndim
    requires Fits(srcStart, copyShape, srcShape) && Fits(dstStart, copyShape, dstShape)
    requires srcStride == Strides(srcShape) && dstStride == Strides(dstShape)
    requires |src| == Product(srcShape) && dst.Length == Product(dstShape)
    requires Product(copyShape) >= 1
    requires scratch.Length >= 2 * ndim && dst as object != scratch as object
    modifies dst, scratch
    ensures dst[..] == BoxCopied(old(dst[..]), src, srcShape, srcStart, dstShape, dstStart, copyShape)
  {
    ghost var d0 := dst[..];
    var nelems := InitIndices(ndim, srcStart, copyShape, dstStart, scratch);
    var srcOffset := StartOffset(srcStart, srcStride);
    var dstOffset := StartOffset(dstStart, dstStride);
    ghost var idx := Zeros(ndim);
    ZeroIndex(copyShape);
    assert AddVec(srcStart, idx) == srcStart && AddVec(dstStart, idx) == dstStart;
    PartialCopyNone(d0, src, srcShape, srcStart, dstShape, dstStart, copyShape);
    CopyElement(srcStart, srcStride, copyShape, dstStart, dstStride, src, dst, srcShape, dstShape,
                srcOffset, dstOffset, d0, idx);
    CopyRest(ndim, nelems, srcStart, srcStride, copyShape, dstStart, dstStride, src, dst, scratch,
             srcShape, dstShape, srcOffset + 1, dstOffset + 1, d0, scratch[2 * ndim..]);
  }

  /**
   * The element loop of the codelet: with the first element copied, advance
   * both index vectors and offsets and copy the next element, up to the last
   * element of the sub-box.
   */
  method CopyRest<T>(ndim: nat, nelems: nat, srcStart: seq<nat>, srcStride: seq<nat>, copyShape: seq<nat>,
                     dstStart: seq<nat>, dstStride: seq<nat>,
                     src: seq<T>, dst: array<T>, scratch: array<int>,
                     ghost srcShape: seq<nat>, ghost dstShape: seq<nat>,
                     srcOffset0: int, dstOffset0: int, ghost d0: seq<T>, ghost rest: seq<int>)
    requires ndim >= 1 && |copyShape| == ndim
    requires Fits(srcStart, copyShape, srcShape) && Fits(dstStart, copyShape, dstShape)
    requires srcStride == Strides(srcShape) && dstStride == Strides(dstShape)
    requires |src| == Product(srcShape) && dst.Length == Product(dstShape) && |d0| == dst.Length
    requires nelems == Product(copyShape) >= 1
    requires scratch.Length >= 2 * ndim && dst as object != scratch as object
    requires scratch[..] == srcStart + dstStart + rest
    requires srcOffset0 == Offset(srcStart, srcStride) + 1 && dstOffset0 == Offset(dstStart, dstStride) + 1
    requires dst[..] == PartialCopy(d0, src, srcShape, srcStart, dstShape, dstStart, copyShape, 1)
    modifies dst, scratch
    ensures dst[..] == BoxCopied(d0, src, srcShape, srcStart, dstShape, dstStart, copyShape)
  {
    var srcOffset, dstOffset := srcOffset0, dstOffset0;
    ghost var idx := Zeros(ndim);
    ZeroIndex(copyShape);
    assert AddVec(srcStart, idx) == srcStart && AddVec(dstStart, idx) == dstStart;
    for i := 1 to nelems
      invariant InBounds(copyShape, idx) && IndexToLinear(copyShape, idx) == i - 1
      invariant scratch[..] == AddVec(srcStart, idx) + AddVec(dstStart, idx) + rest
      invariant srcOffset == Offset(AddVec(srcStart, idx), srcStride) + 1
      invariant dstOffset == Offset(AddVec(dstStart, idx), dstStride) + 1
      invariant dst[..] == PartialCopy(d0, src, srcShape, srcStart, dstShape, dstStart, copyShape, i)
    {
      srcOffset, dstOffset := AdvanceBoth(ndim, srcStart, srcStride, copyShape, dstStart, dstStride,
                                          scratch, srcOffset, dstOffset, idx, rest);
      idx := Succ(copyShape, idx);
      CopyElement(srcStart, srcStride, copyShape, dstStart, dstStride, src, dst, srcShape, dstShape,
                  srcOffset, dstOffset, d0, idx);
      srcOffset := srcOffset + 1;
      dstOffset := dstOffset + 1;
    }
    PartialCopyComplete(d0, src, srcShape, srcStart, dstShape, dstStart, copyShape);
  }

  /** `dst[dst_offset] = src[src_offset]` for the element at sub-box index `rel`: one more element is copied. */
  method CopyElement<T>(srcStart: seq<nat>, srcStride: seq<nat>, copyShape: seq<nat>,
                        dstStart: seq<nat>, dstStride: seq<nat>, src: seq<T>, dst: array<T>,
                        ghost srcShape: seq<nat>, ghost dstShape: seq<nat>,
                        srcOffset: int, dstOffset: int, ghost d0: seq<T>, ghost rel: seq<nat>)
    requires Fits(srcStart, copyShape, srcShape) && Fits(dstStart, copyShape, dstShape)
    requires srcStride == Strides(srcShape) && dstStride == Strides(dstShape)
    requires |src| == Product(srcShape) && dst.Length == Product(dstShape) && |d0| == dst.Length
    requires InBounds(copyShape, rel)
    requires srcOffset == Offset(AddVec(srcStart, rel), srcStride)
    requires dstOffset == Offset(AddVec(dstStart, rel), dstStride)
    requires dst[..] == PartialCopy(d0, src, srcShape, srcStart, dstShape, dstStart, copyShape, IndexToLinear(copyShape, rel))
    modifies dst
    ensures dst[..] == PartialCopy(d0, src, srcShape, srcStart, dstShape, dstStart, copyShape, IndexToLinear(copyShape, rel) + 1)
  {
    StridedOffset(srcShape, AddVec(srcStart, rel));
    StridedOffset(dstShape, AddVec(dstStart, rel));
    PartialCopyStep(d0, src, srcShape, srcStart, dstShape, dstStart, copyShape, rel);
    dst[dstOffset] := src[srcOffset];
  }

  /** The two carry loops of one iteration of the element loop: both index vectors and both offsets move to the next element. */
  method AdvanceBoth(ndim: nat, srcStart: seq<nat>, srcStride: seq<nat>, copyShape: seq<nat>,
                     dstStart: seq<nat>, dstStride: seq<nat>, scratch: array<int>,
                     srcOffset: int, dstOffset: int, ghost idx: seq<nat>, ghost rest: seq<int>)
    returns (srcNext: int, dstNext: int)
    requires ndim >= 1 && |copyShape| == |srcStart| == |dstStart| == |srcStride| == |dstStride| == ndim
    requires srcStride[0] == 1 && dstStride[0] == 1
    requires InBounds(copyShape, idx) && IndexToLinear(copyShape, idx) + 1 < Product(copyShape)
    requires scratch[..] == AddVec(srcStart, idx) + AddVec(dstStart, idx) + rest
    requires srcOffset == Offset(AddVec(srcStart, idx), srcStride) + 1
    requires dstOffset == Offset(AddVec(dstStart, idx), dstStride) + 1
    modifies scratch
    ensures NotLast(copyShape, idx)
    ensures scratch[..] == AddVec(srcStart, Succ(copyShape, idx)) + AddVec(dstStart, Succ(copyShape, idx)) + rest
    ensures srcNext == Offset(AddVec(srcStart, Succ(copyShape, idx)), srcStride)
    ensures dstNext == Offset(AddVec(dstStart, Succ(copyShape, idx)), dstStride)
  {
    NotLastBelow(copyShape, idx);
    srcNext := Advance(scratch, 0, srcStart, copyShape, srcStride, srcOffset, idx,
                       [], AddVec(dstStart, idx) + rest);
    dstNext := Advance(scratch, ndim, dstStart, copyShape, dstStride, dstOffset, idx,
                       AddVec(srcStart, Succ(copyShape, idx)), rest);
  }

  /**
   * The second loop of the codelet, for one buffer: the linear offset of the
   * sub-box start, beginning from `start[0]` since the first stride is 1.
   */
  method StartOffset(start: seq<nat>, stride: seq<nat>) returns (offset: int)
    requires |start| == |stride| >= 1 && stride[0] == 1
    ensures offset == Offset(start, stride)
  {
    offset := start[0];
    assert start[..1] == [start[0]] && stride[..1] == [stride[0]];
    for i := 1 to |start|
      invariant offset == Offset(start[..i], stride[..i])
    {
      assert start[..i + 1] == start[..i] + [start[i]] && stride[..i + 1] == stride[..i] + [stride[i]];
      OffsetSnoc(start[..i], stride[..i], start[i], stride[i]);
      offset := offset + start[i] * stride[i];
    }
    assert start[..|start|] == start && stride[..|start|] == stride;
  }

  /** The first loop of the codelet: the number of elements of the sub-box, and both index vectors set to their starts. */
  method InitIndices(ndim: nat, srcStart: seq<nat>, copyShape: seq<nat>, dstStart: seq<nat>, scratch: array<int>)
    returns (nelems: nat)
    requires |srcStart| == |copyShape| == |dstStart| == ndim && scratch.Length >= 2 * ndim
    modifies scratch
    ensures nelems == Product(copyShape)
    ensures scratch[..] == srcStart + dstStart + old(scratch[2 * ndim..])
  {
    nelems := 1;
    for i := 0 to ndim
      invariant nelems == Product(copyShape[..i])
      invariant forall k :: 0 <= k < i ==> scratch[k] == srcStart[k] && scratch[ndim + k] == dstStart[k]
      invariant scratch[2 * ndim..] == old(scratch[2 * ndim..])
    {
      assert copyShape[..i + 1] == copyShape[..i] + [copyShape[i]];
      ProductSnoc(copyShape[..i], copyShape[i]);
      nelems := nelems * copyShape[i];
      scratch[i] := srcStart[i];
      scratch[ndim + i] := dstStart[i];
    }
    assert copyShape[..ndim] == copyShape;
    assert scratch[..] == srcStart + dstStart + old(scratch[2 * ndim..]) by {
      assert forall k :: 2 * ndim <= k < scratch.Length ==> scratch[k] == scratch[2 * ndim..][k - 2 * ndim];
    }
  }

  // ---------------------------------------------------------------------------
  // Properties of the overlap

  /** The destination box lies inside the source box in every dimension. */
  predicate DstInsideSrc(srcShape: seq<nat>, srcOffset: seq<int>, dstShape: seq<nat>, dstOffset: seq<int>)
    requires SameRank(srcShape, srcOffset, dstShape, dstOffset)
  {
    forall i :: 0 <= i < |srcShape| ==>
      srcOffset[i] <= dstOffset[i] && dstOffset[i] + dstShape[i] <= srcOffset[i] + srcShape[i]
  }

  /**
   * In each dimension one of the local starts is 0 and the other is the
   * offset difference, so both name the same global coordinate.
   */
  lemma PlanStarts(srcShape: seq<nat>, srcOffset: seq<int>, dstShape: seq<nat>, dstOffset: seq<int>)
    requires SameRank(srcShape, srcOffset, dstShape, dstOffset)
    requires Intersection(srcShape, srcOffset, dstShape, dstOffset).Some?
    ensures var o := Intersection(srcShape, srcOffset, dstShape, dstOffset).value;
      |o.srcStart| == |o.dstStart| == |o.copyShape| == |srcShape| &&
      forall i :: 0 <= i < |srcShape| ==>
        srcOffset[i] + o.srcStart[i] == dstOffset[i] + o.dstStart[i] &&
        if srcOffset[i] < dstOffset[i] then o.dstStart[i] == 0 && o.srcStart[i] == dstOffset[i] - srcOffset[i]
        else o.srcStart[i] == 0 && o.dstStart[i] == srcOffset[i] - dstOffset[i]
  {
  }

  /**
   * The overlap length is the length of the intersection of the two
   * intervals, and the sub-box fits inside both tiles.
   */
  lemma PlanFits(srcShape: seq<nat>, srcOffset: seq<int>, dstShape: seq<nat>, dstOffset: seq<int>)
    requires SameRank(srcShape, srcOffset, dstShape, dstOffset)
    requires Intersection(srcShape, srcOffset, dstShape, dstOffset).Some?
    ensures var o := Intersection(srcShape, srcOffset, dstShape, dstOffset).value;
      Fits(o.srcStart, o.copyShape, srcShape) && Fits(o.dstStart, o.copyShape, dstShape) &&
      forall i :: 0 <= i < |srcShape| ==>
        o.copyShape[i] == Min(srcOffset[i] + srcShape[i], dstOffset[i] + dstShape[i]) - Max(srcOffset[i], dstOffset[i])
  {
    var o := Intersection(srcShape, srcOffset, dstShape, dstOffset).value;
    forall i | 0 <= i < |srcShape|
      ensures o.copyShape[i] == Min(srcOffset[i] + srcShape[i], dstOffset[i] + dstShape[i]) - Max(srcOffset[i], dstOffset[i])
    {
      assert !DisjointAt(srcShape, srcOffset, dstShape, dstOffset, i);
    }
  }

  /** The overlap has elements exactly when neither tile is empty. */
  lemma PlanPositive(srcShape: seq<nat>, srcOffset: seq<int>, dstShape: seq<nat>, dstOffset: seq<int>)
    requires SameRank(srcShape, srcOffset, dstShape, dstOffset)
    requires Intersection(srcShape, srcOffset, dstShape, dstOffset).Some?
    ensures Product(Intersection(srcShape, srcOffset, dstShape, dstOffset).value.copyShape) >= 1
            <==> Product(srcShape) >= 1 && Product(dstShape) >= 1
  {
    var o := Intersection(srcShape, srcOffset, dstShape, dstOffset).value;
    PlanFits(srcShape, srcOffset, dstShape, dstOffset);
    ProductPositive(o.copyShape);
    ProductPositive(srcShape);
    ProductPositive(dstShape);
    if Product(srcShape) >= 1 && Product(dstShape) >= 1 {
      forall i | 0 <= i < |srcShape|
        ensures o.copyShape[i] >= 1
      {
        assert !DisjointAt(srcShape, srcOffset, dstShape, dstOffset, i);
      }
    }
  }

  /** The write-only flag is set exactly when the destination box lies inside the source box. */
  lemma FullOverwriteIff(srcShape: seq<nat>, srcOffset: seq<int>, dstShape: seq<nat>, dstOffset: seq<int>)
    requires SameRank(srcShape, srcOffset, dstShape, dstOffset)
    requires Intersection(srcShape, srcOffset, dstShape, dstOffset).Some?
    ensures Intersection(srcShape, srcOffset, dstShape, dstOffset).value.fullOverwrite
            <==> DstInsideSrc(srcShape, srcOffset, dstShape, dstOffset)
  {
  }

  /**
   * When the destination box lies inside the source box the copy overwrites
   * every destination element, so its old contents do not matter: this is
   * what makes the write-only access mode safe.
   */
  lemma WriteOnlyIndependent<T>(d1: seq<T>, d2: seq<T>, s: seq<T>, srcShape: seq<nat>, srcOffset: seq<int>,
                                dstShape: seq<nat>, dstOffset: seq<int>)
    requires SameRank(srcShape, srcOffset, dstShape, dstOffset)
    requires |d1| == |d2| == Product(dstShape) && |s| == Product(srcShape)
    requires DstInsideSrc(srcShape, srcOffset, dstShape, dstOffset)
    ensures CopiedIntersection(d1, s, srcShape, srcOffset, dstShape, dstOffset)
            == CopiedIntersection(d2, s, srcShape, srcOffset, dstShape, dstOffset)
  {
    forall k | 0 <= k < |d1|
      ensures CopiedIntersection(d1, s, srcShape, srcOffset, dstShape, dstOffset)[k]
              == CopiedIntersection(d2, s, srcShape, srcOffset, dstShape, dstOffset)[k]
    {
      var l := LinearToIndex(dstShape, k);
      assert InBox(AddVec(dstOffset, l), srcOffset, srcShape);
    }
  }

  /** A local destination coordinate of the sub-box is a global coordinate inside the source box, and back. */
  lemma PlanPoint(srcShape: seq<nat>, srcOffset: seq<int>, dstShape: seq<nat>, dstOffset: seq<int>, g: seq<int>)
    requires SameRank(srcShape, srcOffset, dstShape, dstOffset)
    requires Intersection(srcShape, srcOffset, dstShape, dstOffset).Some?
    requires InBounds(dstShape, g)
    ensures var o := Intersection(srcShape, srcOffset, dstShape, dstOffset).value;
      |o.srcStart| == |o.dstStart| == |o.copyShape| == |g| &&
      (InBox(AddVec(dstOffset, g), srcOffset, srcShape) <==> InBox(g, o.dstStart, o.copyShape)) &&
      SubVec(AddVec(dstOffset, g), srcOffset) == SourceOf(o.srcStart, o.dstStart, g)
  {
    var o := Intersection(srcShape, srcOffset, dstShape, dstOffset).value;
    PlanStarts(srcShape, srcOffset, dstShape, dstOffset);
    PlanFits(srcShape, srcOffset, dstShape, dstOffset);
    assert SubVec(AddVec(dstOffset, g), srcOffset) == SourceOf(o.srcStart, o.dstStart, g);
  }

  /** Copying the planned sub-box is copying the intersection in global coordinates. */
  lemma PlanCopiesIntersection<T>(d: seq<T>, s: seq<T>, srcShape: seq<nat>, srcOffset: seq<int>,
                                  dstShape: seq<nat>, dstOffset: seq<int>)
    requires SameRank(srcShape, srcOffset, dstShape, dstOffset)
    requires |d| == Product(dstShape) && |s| == Product(srcShape)
    requires Intersection(srcShape, srcOffset, dstShape, dstOffset).Some?
    ensures var o := Intersection(srcShape, srcOffset, dstShape, dstOffset).value;
      Fits(o.srcStart, o.copyShape, srcShape) && Fits(o.dstStart, o.copyShape, dstShape) &&
      BoxCopied(d, s, srcShape, o.srcStart, dstShape, o.dstStart, o.copyShape)
      == CopiedIntersection(d, s, srcShape, srcOffset, dstShape, dstOffset)
  {
    var o := Intersection(srcShape, srcOffset, dstShape, dstOffset).value;
    PlanFits(srcShape, srcOffset, dstShape, dstOffset);
    forall k | 0 <= k < |d|
      ensures BoxCopied(d, s, srcShape, o.srcStart, dstShape, o.dstStart, o.copyShape)[k]
              == CopiedIntersection(d, s, srcShape, srcOffset, dstShape, dstOffset)[k]
    {
      PlanPoint(srcShape, srcOffset, dstShape, dstOffset, LinearToIndex(dstShape, k));
    }
  }

  /** Disjoint boxes: the copy of the intersection changes nothing. */
  lemma DisjointUnchanged<T>(d: seq<T>, s: seq<T>, srcShape: seq<nat>, srcOffset: seq<int>,
                             dstShape: seq<nat>, dstOffset: seq<int>)
    requires SameRank(srcShape, srcOffset, dstShape, dstOffset)
    requires |d| == Product(dstShape) && |s| == Product(srcShape)
    requires Disjoint(srcShape, srcOffset, dstShape, dstOffset)
    ensures CopiedIntersection(d, s, srcShape, srcOffset, dstShape, dstOffset) == d
  {
    var i :| 0 <= i < |srcShape| && DisjointAt(srcShape, srcOffset, dstShape, dstOffset, i);
    forall k | 0 <= k < |d|
      ensures CopiedIntersection(d, s, srcShape, srcOffset, dstShape, dstOffset)[k] == d[k]
    {
      var l := LinearToIndex(dstShape, k);
      assert 0 <= l[i] < dstShape[i];
      assert !InBox(AddVec(dstOffset, l), srcOffset, srcShape);
    }
  }

  /** A sub-box with a zero extent holds no element: its box copy changes nothing. */
  lemma EmptyBoxUnchanged<T>(d: seq<T>, s: seq<T>, srcShape: seq<nat>, srcStart: seq<nat>,
                             dstShape: seq<nat>, dstStart: seq<nat>, copyShape: seq<nat>)
    requires Fits(srcStart, copyShape, srcShape) && Fits(dstStart, copyShape, dstShape)
    requires |d| == Product(dstShape) && |s| == Product(srcShape)
    requires Product(copyShape) == 0
    ensures BoxCopied(d, s, srcShape, srcStart, dstShape, dstStart, copyShape) == d
  {
    ProductPositive(copyShape);
    var i :| 0 <= i < |copyShape| && copyShape[i] == 0;
    forall k | 0 <= k < |d|
      ensures BoxCopied(d, s, srcShape, srcStart, dstShape, dstStart, copyShape)[k] == d[k]
    {
      assert !InBox(LinearToIndex(dstShape, k), dstStart, copyShape);
    }
  }

  /** With no dimension, the copy of the intersection replaces the single element. */
  lemma ScalarCopied<T>(d: seq<T>, s: seq<T>)
    requires |d| == 1 && |s| == 1
    ensures CopiedIntersection(d, s, [], [], [], []) == [s[0]]
  {
    assert LinearToIndex([], 0) == [];
    assert InBox(AddVec([], []), [], []);
    assert Element(s, [], SubVec(AddVec([], []), [])) == s[0];
  }

  // ---------------------------------------------------------------------------
  // The overlap of an empty tile

  /**
   * The submission decision of `copy_intersection_work` as written: a codelet
   * runs for a scalar tile, and for every pair of boxes the per-dimension test
   * does not find disjoint.
   */
  predicate SubmitsAsWritten(srcShape: seq<nat>, srcOffset: seq<int>, dstShape: seq<nat>, dstOffset: seq<int>)
    requires SameRank(srcShape, srcOffset, dstShape, dstOffset)
  {
    |srcShape| == 0 || !Disjoint(srcShape, srcOffset, dstShape, dstOffset)
  }

  /**
   * With at least one dimension, the code as written submits the codelet over
   * a zero-extent sub-box exactly when the boxes are not disjoint and one of
   * the tiles is empty.
   */
  lemma SubmitsEmptyIff(srcShape: seq<nat>, srcOffset: seq<int>, dstShape: seq<nat>, dstOffset: seq<int>)
    requires SameRank(srcShape, srcOffset, dstShape, dstOffset) && |srcShape| > 0
    ensures SubmitsAsWritten(srcShape, srcOffset, dstShape, dstOffset) &&
            Product(Intersection(srcShape, srcOffset, dstShape, dstOffset).value.copyShape) == 0
            <==> !Disjoint(srcShape, srcOffset, dstShape, dstOffset) && (Product(srcShape) == 0 || Product(dstShape) == 0)
  {
    if !Disjoint(srcShape, srcOffset, dstShape, dstOffset) {
      PlanPositive(srcShape, srcOffset, dstShape, dstOffset);
    }
  }

  /**
   * An empty source tile of shape [0] at offset [1] is not found disjoint from
   * a destination of shape [2] at offset [0]: the codelet is submitted with a
   * zero-extent sub-box, and its unconditional first copy reads position 0 of
   * a source that has no element.
   */
  lemma EmptyTileSubmitted()
    ensures SameRank([0], [1], [2], [0]) && SubmitsAsWritten([0], [1], [2], [0])
    ensures Intersection([0], [1], [2], [0]) == Some(Overlap([0], [1], [0], false))
    ensures Offset(Intersection([0], [1], [2], [0]).value.srcStart, Strides([0])) >= Product([0])
  {
    assert !DisjointAt([0], [1], [2], [0], 0);
    var o := Intersection([0], [1], [2], [0]).value;
    assert o.srcStart == [0] && o.dstStart == [1] && o.copyShape == [0];
  }

  /**
   * An empty destination tile of shape [0] at offset [1] is not found
   * disjoint from a source of shape [2] at offset [0]: the zero-extent
   * sub-box equals the destination shape, so the codelet is submitted
   * write-only, and its unconditional first copy writes position 0 of a
   * destination that has no element.
   */
  lemma EmptyDstSubmitted()
    ensures SameRank([2], [0], [0], [1]) && SubmitsAsWritten([2], [0], [0], [1])
    ensures Intersection([2], [0], [0], [1]) == Some(Overlap([1], [0], [0], true))
    ensures DstInsideSrc([2], [0], [0], [1])
    ensures Offset(Intersection([2], [0], [0], [1]).value.dstStart, Strides([0])) >= Product([0])
  {
    assert !DisjointAt([2], [0], [0], [1], 0);
    var o := Intersection([2], [0], [0], [1]).value;
    assert o.srcStart == [1] && o.dstStart == [0] && o.copyShape == [0];
  }

  // ---------------------------------------------------------------------------
  // copy_intersection_work

  /** `cpu_copy_intersection_ndim0`: the single destination element becomes the source element. */
  method CpuCopyIntersectionNdim0<T>(src: seq<T>, dst: array<T>)
    requires |src| == 1 && dst.Length == 1
    modifies dst
    ensures dst[..] == [src[0]]
  {
    dst[0] := src[0];
  }

  /**
   * `copy_intersection_work` with the codelet run at once: the scalar codelet
   * for zero dimensions, nothing for disjoint boxes or an empty overlap, and
   * otherwise the odometer codelet with write-only access when the
   * destination box lies inside the source box and read-write access
   * otherwise. The returned task records the codelet and access mode submitted.
   */
  method CopyIntersectionWork<T>(src: seq<T>, srcShape: seq<nat>, srcOffset: seq<int>,
                                 dst: array<T>, dstShape: seq<nat>, dstOffset: seq<int>, scratch: array<int>)
    returns (task: Option<Task>)
    requires SameRank(srcShape, srcOffset, dstShape, dstOffset)
    requires |src| == Product(srcShape) && dst.Length == Product(dstShape)
    requires scratch.Length >= 2 * |srcShape| && dst as object != scratch as object
    modifies dst, scratch
    ensures dst[..] == CopiedIntersection(old(dst[..]), src, srcShape, srcOffset, dstShape, dstOffset)
    ensures |srcShape| == 0 ==> task == Some(Task(CopyNdim0, W, false))
    ensures |srcShape| > 0 && Disjoint(srcShape, srcOffset, dstShape, dstOffset) ==> task == None
    ensures |srcShape| > 0 && !Disjoint(srcShape, srcOffset, dstShape, dstOffset) ==>
              (task.Some? <==> Product(srcShape) >= 1 && Product(dstShape) >= 1)
    ensures |srcShape| > 0 && task.Some? ==>
              task.value == Task(CopyIntersection, if DstInsideSrc(srcShape, srcOffset, dstShape, dstOffset) then W else RW, true)
  {
    var ndim := |srcShape|;
    if ndim == 0 {
      ScalarCopied(dst[..], src);
      CpuCopyIntersectionNdim0(src, dst);
      return Some(Task(CopyNdim0, W, false));
    }
    var plan := PlanIntersection(srcShape, srcOffset, dstShape, dstOffset);
    if plan.None? {
      DisjointUnchanged(dst[..], src, srcShape, srcOffset, dstShape, dstOffset);
      return None;
    }
    var o := plan.value;
    PlanCopiesIntersection(dst[..], src, srcShape, srcOffset, dstShape, dstOffset);
    PlanPositive(srcShape, srcOffset, dstShape, dstOffset);
    FullOverwriteIff(srcShape, srcOffset, dstShape, dstOffset);
    if Product(o.copyShape) == 0 {
      EmptyBoxUnchanged(dst[..], src, srcShape, o.srcStart, dstShape, o.dstStart, o.copyShape);
      return None;
    }
    task := Some(Task(CopyIntersection, if o.fullOverwrite then W else RW, true));
    CpuCopyIntersection(ndim, o.srcStart, Strides(srcShape), o.copyShape, o.dstStart, Strides(dstShape),
                        src, dst, scratch, srcShape, dstShape);
  }
}
