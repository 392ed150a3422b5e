/**
 * Index algebra of a Fortran-ordered box: number of elements, strides
 * (stride[0] = 1, stride[i] = stride[i-1] * shape[i-1]), the stride-weighted
 * offset of a multi-index, the conversions between a linear offset and a
 * multi-index (first dimension varies fastest), and the odometer successor
 * that the copy kernel and the gather loop compute with a carry.
 */
module IndexAlgebra {

  /** Number of elements of a box; 1 for a zero-dimensional (scalar) box. */
  function Product(s: seq<nat>): nat
  {
    if |s| == 0 then 1 else s[0] * Product(s[1..])
  }

  /** A box has elements exactly when no extent is zero. */
  lemma {:induction false} ProductPositive(s: seq<nat>)
    ensures Product(s) >= 1 <==> forall k :: 0 <= k < |s| ==> s[k] >= 1
  {
    if |s| > 0 {
      ProductPositive(s[1..]);
      assert forall k :: 1 <= k < |s| ==> s[k] == s[1..][k - 1];
      if Product(s[1..]) >= 1 && s[0] >= 1 {
        MulMono(s[0], 1, Product(s[1..]));
      }
    }
  }

  /** Every entry of `v` multiplied by `c`. */
  function Scale(c: nat, v: seq<nat>): (r: seq<nat>)
    ensures |r| == |v|
    ensures forall k :: 0 <= k < |v| ==> r[k] == c * v[k]
  {
    seq(|v|, k requires 0 <= k < |v| => c * v[k])
  }

  /** Subtracting the start and adding it back gives the coordinate again. */
  lemma AddSub(a: seq<int>, g: seq<int>, r: seq<int>)
    requires |a| == |g| && SubVec(g, a) == r
    ensures g == AddVec(a, r)
  {
    assert forall k :: 0 <= k < |g| ==> g[k] == AddVec(a, r)[k];
  }

  /** Adding an offset and subtracting the start again gives the offset back. */
  lemma SubAdd(a: seq<int>, r: seq<int>)
    requires |a| == |r|
    ensures SubVec(AddVec(a, r), a) == r
  {
    assert forall k :: 0 <= k < |r| ==> SubVec(AddVec(a, r), a)[k] == r[k];
  }

  /** Fortran strides of a shape. */
  function Strides(s: seq<nat>): (r: seq<nat>)
    ensures |r| == |s|
    ensures |s| > 0 ==> r[0] == 1
  {
    if |s| == 0 then [] else [1] + Scale(s[0], Strides(s[1..]))
  }

  /** Entry-wise sum of two vectors of the same length. */
  function AddVec(a: seq<int>, b: seq<int>): (r: seq<int>)
    requires |a| == |b|
    ensures |r| == |a|
    ensures forall k :: 0 <= k < |a| ==> r[k] == a[k] + b[k]
  {
    seq(|a|, k requires 0 <= k < |a| => a[k] + b[k])
  }

  /** Entry-wise difference of two vectors of the same length. */
  function SubVec(a: seq<int>, b: seq<int>): (r: seq<int>)
    requires |a| == |b|
    ensures |r| == |a|
    ensures forall k :: 0 <= k < |a| ==> r[k] == a[k] - b[k]
  {
    seq(|a|, k requires 0 <= k < |a| => a[k] - b[k])
  }

  /** Stride-weighted sum: the linear position of a multi-index. */
  function Offset(idx: seq<int>, stride: seq<int>): int
    requires |idx| == |stride|
  {
    if |idx| == 0 then 0 else idx[0] * stride[0] + Offset(idx[1..], stride[1..])
  }

  /** A multi-index lies inside the box [0, s). */
  predicate InBounds(s: seq<nat>, idx: seq<int>)
  {
    |idx| == |s| && forall k :: 0 <= k < |s| ==> 0 <= idx[k] < s[k]
  }

  /** `index_to_linear`: the position of a multi-index in a Fortran-ordered box (Horner form). */
  function IndexToLinear(s: seq<nat>, idx: seq<int>): int
    requires |idx| == |s|
  {
    if |s| == 0 then 0 else idx[0] + s[0] * IndexToLinear(s[1..], idx[1..])
  }

  /** `linear_to_index`: decomposition of a linear position, first dimension fastest. */
  function LinearToIndex(s: seq<nat>, e: nat): (r: seq<nat>)
    requires e < Product(s)
    ensures InBounds(s, r)
  {
    if |s| == 0 then []
    else
      DivBelowProduct(s, e);
      [e % s[0]] + LinearToIndex(s[1..], e / s[0])
  }

  /** The origin multi-index of rank n. */
  function Zeros(n: nat): (z: seq<nat>)
    ensures |z| == n && forall k :: 0 <= k < n ==> z[k] == 0
  {
    seq(n, k => 0)
  }

  /** With the carry stopping at `j`: entries below `j` reset to 0, entry `j` advanced. */
  function Carried(r: seq<nat>, j: nat): (c: seq<nat>)
    requires j < |r|
    ensures |c| == |r|
  {
    seq(|r|, k requires 0 <= k < |r| => if k < j then 0 else if k == j then r[j] + 1 else r[k])
  }

  // ---------------------------------------------------------------------------
  // Arithmetic helpers

  lemma MulMono(a: nat, x: int, y: int)
    requires x <= y
    ensures a * x <= a * y
  {
  }

  lemma DivBelow(e: nat, a: nat, p: nat)
    requires e < a * p
    ensures a > 0 && e / a < p
  {
    assert a != 0;
    if e / a >= p {
      MulMono(a, p, e / a);
    }
  }

  lemma DivBelowProduct(s: seq<nat>, e: nat)
    requires |s| > 0 && e < Product(s)
    ensures s[0] > 0 && e / s[0] < Product(s[1..])
  {
    DivBelow(e, s[0], Product(s[1..]));
  }

  /** Division with remainder is unique. */
  lemma DivModOf(a: int, b: int, x: int)
    requires 0 <= a < b
    ensures (a + b * x) % b == a && (a + b * x) / b == x
  {
    var n := a + b * x;
    var q, r := n / b, n % b;
    assert b * q + r == n;
    assert b * (q - x) == a - r;
    if q - x >= 1 {
      MulMono(b, 1, q - x);
    } else if q - x <= -1 {
      MulMono(b, q - x, -1);
    }
  }

  // ---------------------------------------------------------------------------
  // Strides and offsets

  lemma {:induction false} OffsetScale(v: seq<int>, c: nat, w: seq<nat>)
    requires |v| == |w|
    ensures Offset(v, Scale(c, w)) == c * Offset(v, w)
  {
    if |v| > 0 {
      assert Scale(c, w)[1..] == Scale(c, w[1..]);
      OffsetScale(v[1..], c, w[1..]);
      assert v[0] * (c * w[0]) == c * (v[0] * w[0]);
    }
  }

  /** The stride-weighted offset through the Fortran strides is the position of the multi-index. */
  lemma {:induction false} StridedOffset(s: seq<nat>, idx: seq<int>)
    requires |idx| == |s|
    ensures Offset(idx, Strides(s)) == IndexToLinear(s, idx)
  {
    if |s| > 0 {
      assert Strides(s)[1..] == Scale(s[0], Strides(s[1..]));
      OffsetScale(idx[1..], s[0], Strides(s[1..]));
      StridedOffset(s[1..], idx[1..]);
    }
  }

  /** The Fortran stride rule: stride[0] = 1 and stride[i] = stride[i-1] * shape[i-1]. */
  lemma {:induction false} StridesFortran(s: seq<nat>, i: nat)
    requires 0 < i < |s|
    ensures Strides(s)[0] == 1
    ensures Strides(s)[i] == Strides(s)[i - 1] * s[i - 1]
  {
    if i == 1 {
      assert Strides(s)[1] == s[0] * Strides(s[1..])[0];
    } else {
      StridesFortran(s[1..], i - 1);
      assert Strides(s)[i] == s[0] * Strides(s[1..])[i - 1];
      assert Strides(s)[i - 1] == s[0] * Strides(s[1..])[i - 2];
    }
  }

  /** Changing one coordinate moves the offset by the change times that stride. */
  lemma {:induction false} OffsetUpdate(idx: seq<int>, stride: seq<int>, k: nat, v: int)
    requires |idx| == |stride| && k < |idx|
    ensures Offset(idx[k := v], stride) == Offset(idx, stride) + (v - idx[k]) * stride[k]
  {
    if k == 0 {
      assert idx[k := v][1..] == idx[1..];
    } else {
      assert idx[k := v][1..] == idx[1..][k - 1 := v];
      OffsetUpdate(idx[1..], stride[1..], k - 1, v);
    }
  }

  lemma {:induction false} OffsetSnoc(idx: seq<int>, stride: seq<int>, a: int, b: int)
    requires |idx| == |stride|
    ensures Offset(idx + [a], stride + [b]) == Offset(idx, stride) + a * b
  {
    if |idx| > 0 {
      assert (idx + [a])[1..] == idx[1..] + [a];
      assert (stride + [b])[1..] == stride[1..] + [b];
      OffsetSnoc(idx[1..], stride[1..], a, b);
    }
  }

  lemma {:induction false} ProductSnoc(s: seq<nat>, x: nat)
    ensures Product(s + [x]) == Product(s) * x
  {
    if |s| > 0 {
      assert (s + [x])[1..] == s[1..] + [x];
      ProductSnoc(s[1..], x);
    }
  }

  // ---------------------------------------------------------------------------
  // linear_to_index and index_to_linear are inverse bijections

  /** index_to_linear(linear_to_index(e)) == e. */
  lemma {:induction false} LinearRoundTrip(s: seq<nat>, e: nat)
    requires e < Product(s)
    ensures IndexToLinear(s, LinearToIndex(s, e)) == e
  {
    if |s| > 0 {
      DivBelowProduct(s, e);
      var q, m := e / s[0], e % s[0];
      var r := LinearToIndex(s, e);
      assert r == [m] + LinearToIndex(s[1..], q);
      assert r[1..] == LinearToIndex(s[1..], q);
      LinearRoundTrip(s[1..], q);
      assert e == m + s[0] * q;
    }
  }

  /** A mixed-radix digit pair stays below the product of the radices. */
  lemma DigitBound(a: int, b: nat, x: int, p: nat)
    requires 0 <= a < b && 0 <= x < p
    ensures 0 <= a + b * x < b * p
  {
    MulMono(b, 0, x);
    MulMono(b, x, p - 1);
    assert b * (p - 1) == b * p - b;
  }

  /** An in-bounds multi-index has a position below nelems. */
  lemma {:induction false} IndexBelow(s: seq<nat>, idx: seq<int>)
    requires InBounds(s, idx)
    ensures 0 <= IndexToLinear(s, idx) < Product(s)
  {
    if |s| > 0 {
      IndexBelow(s[1..], idx[1..]);
      DigitBound(idx[0], s[0], IndexToLinear(s[1..], idx[1..]), Product(s[1..]));
    }
  }

  /** An in-bounds multi-index has a position below nelems, and linear_to_index recovers it. */
  lemma {:induction false} IndexRoundTrip(s: seq<nat>, idx: seq<int>)
    requires InBounds(s, idx)
    ensures 0 <= IndexToLinear(s, idx) < Product(s)
    ensures LinearToIndex(s, IndexToLinear(s, idx)) == idx
  {
    IndexBelow(s, idx);
    if |s| > 0 {
      var x := IndexToLinear(s[1..], idx[1..]);
      var e := IndexToLinear(s, idx);
      IndexRoundTrip(s[1..], idx[1..]);
      DivModOf(idx[0], s[0], x);
      assert LinearToIndex(s, e) == [e % s[0]] + LinearToIndex(s[1..], e / s[0]);
      assert [idx[0]] + idx[1..] == idx;
    }
  }

  /** Two in-bounds multi-indices share a position only if they are equal. */
  lemma IndexInjective(s: seq<nat>, a: seq<int>, b: seq<int>)
    requires InBounds(s, a) && InBounds(s, b)
    requires IndexToLinear(s, a) == IndexToLinear(s, b)
    ensures a == b
  {
    IndexRoundTrip(s, a);
    IndexRoundTrip(s, b);
  }

  // ---------------------------------------------------------------------------
  // The odometer

  /** The last multi-index (every coordinate at its maximum) has position nelems - 1. */
  lemma {:induction false} AllMaxIsLast(s: seq<nat>, r: seq<int>)
    requires |r| == |s|
    requires forall k :: 0 <= k < |s| ==> s[k] >= 1 && r[k] == s[k] - 1
    ensures IndexToLinear(s, r) == Product(s) - 1
  {
    if |s| > 0 {
      AllMaxIsLast(s[1..], r[1..]);
    }
  }

  lemma CarriedCons(r: seq<nat>, j: nat)
    requires 0 < j < |r|
    ensures Carried(r, j) == [0] + Carried(r[1..], j - 1)
  {
  }

  /**
   * The odometer step on multi-indices: wrapping the maximal coordinates
   * below `j` to 0 and advancing coordinate `j` moves the position by one.
   */
  lemma {:induction false} CarriedIsNext(s: seq<nat>, r: seq<nat>, j: nat)
    requires InBounds(s, r) && j < |s|
    requires forall k :: 0 <= k < j ==> r[k] == s[k] - 1
    requires r[j] + 1 < s[j]
    ensures InBounds(s, Carried(r, j))
    ensures IndexToLinear(s, Carried(r, j)) == IndexToLinear(s, r) + 1
  {
    var c := Carried(r, j);
    if j == 0 {
      assert c[1..] == r[1..];
    } else {
      var t := r[1..];
      var s' := s[1..];
      assert forall k :: 0 <= k < j - 1 ==> t[k] == s'[k] - 1 by {
        assert forall k :: 0 <= k < j - 1 ==> t[k] == r[k + 1] && s'[k] == s[k + 1];
      }
      CarriedIsNext(s', t, j - 1);
      CarriedCons(r, j);
      assert c[1..] == Carried(t, j - 1);
      var x := IndexToLinear(s', t);
      assert IndexToLinear(s, c) == 0 + s[0] * (x + 1);
      assert IndexToLinear(s, r) == (s[0] - 1) + s[0] * x;
      CarryArith(s[0], x);
    }
  }

  lemma CarryArith(b: int, x: int)
    ensures 0 + b * (x + 1) == (b - 1) + b * x + 1
  {
  }

  /** Some coordinate of r is below its maximum: r is not the last multi-index. */
  predicate NotLast(s: seq<nat>, r: seq<nat>)
  {
    |r| == |s| && exists k :: 0 <= k < |s| && r[k] + 1 < s[k]
  }

  /** The first coordinate at or after i that is below its maximum. */
  function FirstBelowMax(s: seq<nat>, r: seq<nat>, i: nat): (j: nat)
    requires InBounds(s, r) && i <= |s|
    requires exists k :: i <= k < |s| && r[k] + 1 < s[k]
    ensures i <= j < |s| && r[j] + 1 < s[j]
    ensures forall k :: i <= k < j ==> r[k] + 1 == s[k]
    decreases |s| - i
  {
    if r[i] + 1 < s[i] then i else FirstBelowMax(s, r, i + 1)
  }

  /** The odometer successor of a multi-index that is not the last one. */
  function Succ(s: seq<nat>, r: seq<nat>): (n: seq<nat>)
    requires InBounds(s, r) && NotLast(s, r)
    ensures InBounds(s, n)
    ensures IndexToLinear(s, n) == IndexToLinear(s, r) + 1
  {
    var j := FirstBelowMax(s, r, 0);
    CarriedIsNext(s, r, j);
    Carried(r, j)
  }

  /** A multi-index whose position is below the last one is not the last multi-index. */
  lemma NotLastBelow(s: seq<nat>, r: seq<nat>)
    requires InBounds(s, r) && IndexToLinear(s, r) + 1 < Product(s)
    ensures NotLast(s, r)
  {
    if !NotLast(s, r) {
      AllMaxIsLast(s, r);
    }
  }

  /** In a non-empty box the origin is a multi-index, at position 0. */
  lemma {:induction false} ZeroIndex(s: seq<nat>)
    requires Product(s) >= 1
    ensures InBounds(s, Zeros(|s|))
    ensures IndexToLinear(s, Zeros(|s|)) == 0
  {
    var z := Zeros(|s|);
    if |s| > 0 {
      assert s[0] * Product(s[1..]) >= 1;
      ZeroIndex(s[1..]);
      assert z[1..] == Zeros(|s| - 1);
    }
  }

  /**
   * Incrementing a linear position is the odometer step: the position below
   * the last one has a successor multi-index, and it is the index of e + 1.
   */
  lemma LinearSucc(s: seq<nat>, e: nat)
    requires e + 1 < Product(s)
    ensures NotLast(s, LinearToIndex(s, e))
    ensures LinearToIndex(s, e + 1) == Succ(s, LinearToIndex(s, e))
  {
    var r := LinearToIndex(s, e);
    LinearRoundTrip(s, e);
    if !NotLast(s, r) {
      AllMaxIsLast(s, r);
    }
    IndexRoundTrip(s, Succ(s, r));
  }
}
