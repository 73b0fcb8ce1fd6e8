/**
 * Shapes and strides of tensor descriptors (src/sgpt.c:21-32, 47-54, 71-85):
 * extents past the rank default to 1, strides are row-major byte strides
 * derived from the element size, and all size arithmetic is done in size_t.
 */
module SgptShape {
  import opened SgptTypes

  /** The exact product of a sequence of extents. */
  function Product(s: seq<int>): int
    decreases |s|
  {
    if |s| == 0 then 1 else Product(s[..|s| - 1]) * s[|s| - 1]
  }

  /**
   * elem * s[0] * ... * s[|s|-1] as src/sgpt.c computes it: each extent is
   * converted to size_t and every partial product is reduced modulo 2^64.
   */
  function WrappedProduct(elem: uint64, s: seq<int>): uint64
    decreases |s|
  {
    if |s| == 0 then elem else U64(WrappedProduct(elem, s[..|s| - 1]) * U64(s[|s| - 1]))
  }

  /** The descriptor's four extents: the given ones, then 1 past the rank. */
  function PaddedShape(ne: seq<int64>): (s: seq<int64>)
    requires |ne| <= MAX_DIMS
    ensures |s| == MAX_DIMS
    ensures forall i :: 0 <= i < MAX_DIMS ==> s[i] == if i < |ne| then ne[i] else 1
  {
    ne + seq(MAX_DIMS - |ne|, _ => 1)
  }

  /** The stride of dimension k is the size_t product of the element size and the extents below k. */
  function Strides(elem: uint64, shape: seq<int64>): (nb: seq<uint64>)
    requires |shape| == MAX_DIMS
    ensures |nb| == MAX_DIMS && nb[0] == elem
    ensures forall i :: 1 <= i < MAX_DIMS ==> nb[i] == U64(nb[i - 1] * U64(shape[i - 1]))
  {
    assert forall i :: 1 <= i < MAX_DIMS ==> shape[..i][..i - 1] == shape[..i - 1];
    seq(MAX_DIMS, k requires 0 <= k < MAX_DIMS => WrappedProduct(elem, shape[..k]))
  }

  /** The layout every descriptor built by the arena has: padded extents and derived strides. */
  predicate DerivedLayout(t: Tensor) {
    |t.ne| == MAX_DIMS && 0 <= t.nDims <= MAX_DIMS &&
    (forall i :: t.nDims as int <= i < MAX_DIMS ==> t.ne[i] == 1) &&
    t.nb == Strides(ElemSize(t.elemType), t.ne)
  }

  /**
   * The descriptor sgpt_new_tensor_impl writes (src/sgpt.c:70-85) for a
   * descriptor placed at `addr`: an owned tensor (data == Null) keeps its
   * elements right after the descriptor, a view uses the given data pointer.
   */
  function Describe(elemType: ElemType, ne: seq<int64>, data: Ptr, addr: int): (t: Tensor)
    requires |ne| <= MAX_DIMS
    ensures DerivedLayout(t) && t.elemType == elemType && t.nDims as int == |ne|
    ensures forall i :: 0 <= i < |ne| ==> t.ne[i] == ne[i]
    ensures t.op == OpNone && t.src0 == Null && t.src1 == Null
    ensures t.data == if data.Null? then addr + TENSOR_SIZE else data.addr
  {
    var shape := PaddedShape(ne);
    Tensor(elemType, |ne|, shape, Strides(ElemSize(elemType), shape), OpNone, Null, Null,
           if data.Null? then addr + TENSOR_SIZE else data.addr)
  }

  /** sgpt_are_same_shape (src/sgpt.c:21-32): all four extents agree. */
  function SameShape(a: Tensor, b: Tensor): (r: bool)
    requires |a.ne| == MAX_DIMS && |b.ne| == MAX_DIMS
    ensures r <==> a.ne == b.ne
  {
    var same := a.ne[0] == b.ne[0] && a.ne[1] == b.ne[1] && a.ne[2] == b.ne[2] && a.ne[3] == b.ne[3];
    assert same ==> a.ne == b.ne;
    same
  }

  /** Every extent is positive, and the extents and element size are small enough that no size_t product wraps. */
  predicate NoWrap(elem: uint64, shape: seq<int>) {
    (forall i :: 0 <= i < |shape| ==> shape[i] >= 1) &&
    elem * Product(shape) + TENSOR_SIZE < U64_MOD
  }

  /** Row-major, C-contiguous strides: nb[0] is positive and nb[i+1] == nb[i] * ne[i]. */
  predicate RowMajor(t: Tensor) {
    |t.ne| == MAX_DIMS && |t.nb| == MAX_DIMS && t.nb[0] > 0 &&
    (forall i :: 0 <= i < MAX_DIMS ==> t.ne[i] >= 1) &&
    (forall i :: 0 <= i < MAX_DIMS - 1 ==> t.nb[i + 1] == t.nb[i] * t.ne[i])
  }

  lemma {:induction false} ProductPrefixBound(s: seq<int>, k: nat)
    requires k <= |s|
    requires forall i :: 0 <= i < |s| ==> s[i] >= 1
    ensures 1 <= Product(s[..k]) <= Product(s)
  {
    if k < |s| {
      var p := s[..|s| - 1];
      assert p[..k] == s[..k];
      ProductPrefixBound(p, k);
      assert Product(s) == Product(p) * s[|s| - 1];
      assert Product(p) <= Product(p) * s[|s| - 1];
    } else {
      assert s[..k] == s;
      if |s| > 0 {
        ProductPrefixBound(s[..|s| - 1], |s| - 1);
        assert s[..|s| - 1][..|s| - 1] == s[..|s| - 1];
      }
    }
  }

  /** Without wrap-around, the size_t product is the exact one. */
  lemma {:induction false} WrappedProductExact(elem: uint64, s: seq<int>)
    requires forall i :: 0 <= i < |s| ==> 1 <= s[i] < U64_MOD
    requires elem * Product(s) < U64_MOD
    ensures WrappedProduct(elem, s) == elem * Product(s)
  {
    if |s| > 0 {
      var p := s[..|s| - 1];
      ProductPrefixBound(s, |s| - 1);
      assert elem * Product(p) <= elem * Product(s);
      WrappedProductExact(elem, p);
      assert Product(s) == Product(p) * s[|s| - 1];
      assert WrappedProduct(elem, p) * s[|s| - 1] == elem * Product(s);
    }
  }

  /** Whatever the extents, the size_t running product is congruent to the exact one modulo 2^64. */
  lemma {:induction false} WrappedProductCongruent(elem: uint64, s: seq<int>)
    ensures (WrappedProduct(elem, s) - elem * Product(s)) % U64_MOD == 0
  {
    if |s| > 0 {
      var p, x := s[..|s| - 1], s[|s| - 1];
      WrappedProductCongruent(elem, p);
      var w, e := WrappedProduct(elem, p), elem * Product(p);
      MulCongruent(w, e, U64(x), x);
      ModTrans(U64(w * U64(x)), w * U64(x), e * x);
      MulAssociative(elem, Product(p), x);
    }
  }

  /** Extents of 1 at the end change neither product. */
  lemma {:induction false} PaddingKeepsProduct(elem: uint64, ne: seq<int64>, k: nat)
    requires |ne| <= k <= MAX_DIMS
    ensures Product(PaddedShape(ne)[..k]) == Product(ne)
    ensures WrappedProduct(elem, PaddedShape(ne)[..k]) == WrappedProduct(elem, ne)
  {
    var s := PaddedShape(ne);
    if k == |ne| {
      assert s[..k] == ne;
    } else {
      PaddingKeepsProduct(elem, ne, k - 1);
      var p, q := s[..k], s[..k - 1];
      assert p[..k - 1] == q;
      assert p[k - 1] == 1;
      assert Product(p) == Product(q) * 1;
      assert WrappedProduct(elem, p) == U64(WrappedProduct(elem, q) * 1);
    }
  }

  lemma MulMonotone(c: int, a: int, b: int)
    requires 0 <= c && a <= b
    ensures c * a <= c * b
  {
  }

  lemma MulAssociative(a: int, b: int, c: int)
    ensures a * (b * c) == (a * b) * c
  {
  }

  /** Without wrap-around, stride k is the exact product of the element size and the extents below k. */
  lemma StrideExact(elem: uint64, shape: seq<int64>, k: nat)
    requires |shape| == MAX_DIMS && k < MAX_DIMS && NoWrap(elem, shape)
    ensures Strides(elem, shape)[k] == elem * Product(shape[..k])
  {
    ProductPrefixBound(shape, k);
    MulMonotone(elem, Product(shape[..k]), Product(shape));
    WrappedProductExact(elem, shape[..k]);
  }

  /**
   * Stride derivation: a tensor with derived strides and no wrap-around has
   * nb[0] == element size, nb[i] == nb[i-1] * ne[i-1], and
   * nb[k] == element size * ne[0] * ... * ne[k-1].
   */
  lemma StridesRowMajor(t: Tensor)
    requires DerivedLayout(t) && NoWrap(ElemSize(t.elemType), t.ne)
    ensures RowMajor(t) && t.nb[0] == ElemSize(t.elemType)
    ensures forall k :: 0 <= k < MAX_DIMS ==> t.nb[k] == ElemSize(t.elemType) * Product(t.ne[..k])
  {
    var elem := ElemSize(t.elemType);
    forall k | 0 <= k < MAX_DIMS
      ensures t.nb[k] == elem * Product(t.ne[..k])
    {
      StrideExact(elem, t.ne, k);
    }
    forall i | 0 <= i < MAX_DIMS - 1
      ensures t.nb[i + 1] == t.nb[i] * t.ne[i]
    {
      var p, e := Product(t.ne[..i]), t.ne[i] as int;
      assert t.ne[..i + 1][..i] == t.ne[..i];
      assert Product(t.ne[..i + 1]) == p * e;
      assert t.nb[i + 1] == elem * (p * e);
      MulAssociative(elem, p, e);
    }
  }

  /**
   * The expectations of test_new_tensor (tests/sgpt_test.c:25-67) on F32
   * tensors: (4) pads to (4, 1, 1, 1) with strides (4, 16, 16, 16); (2, 3)
   * to (2, 3, 1, 1) with (4, 8, 24, 24); (2, 3, 5) to (2, 3, 5, 1) with
   * (4, 8, 24, 120); and (2, 3, 5, 7) has strides (4, 8, 24, 120).
   */
  lemma StrideExample()
    ensures Describe(F32, [2, 3, 5, 7], Null, 0).nb == [4, 8, 24, 120]
    ensures Describe(F32, [4], Null, 0).ne == [4, 1, 1, 1]
    ensures Describe(F32, [4], Null, 0).nb == [4, 16, 16, 16]
    ensures Describe(F32, [2, 3], Null, 0).ne == [2, 3, 1, 1]
    ensures Describe(F32, [2, 3], Null, 0).nb == [4, 8, 24, 24]
    ensures Describe(F32, [2, 3, 5], Null, 0).ne == [2, 3, 5, 1]
    ensures Describe(F32, [2, 3, 5], Null, 0).nb == [4, 8, 24, 120]
  {
    var v := Describe(F32, [2, 3], Null, 0);
    assert v.ne[0] == 2 && v.ne[1] == 3;
    assert v.nb[1] == 8 && v.nb[2] == 24 && v.nb[3] == 24;
    var w := Describe(F32, [2, 3, 5], Null, 0);
    assert w.ne[0] == 2 && w.ne[1] == 3 && w.ne[2] == 5;
    assert w.nb[1] == 8 && w.nb[2] == 24 && w.nb[3] == 120;
    var t := Describe(F32, [2, 3, 5, 7], Null, 0);
    assert t.nb[1] == 8 && t.nb[2] == 24 && t.nb[3] == 120;
    var u := Describe(F32, [4], Null, 0);
    assert u.ne[0] == 4;
    assert u.nb[1] == 16 && u.nb[2] == 16 && u.nb[3] == 16;
  }

  /**
   * Rebuilding a descriptor from a tensor's own type, rank and extents (as
   * sgpt_dup_tensor and sgpt_view_tensor do) reproduces its type, rank,
   * extents and strides, whatever the data pointer.
   */
  lemma CloneShape(src: Tensor, data: Ptr, addr: int)
    requires DerivedLayout(src)
    ensures var t := Describe(src.elemType, src.ne[..src.nDims], data, addr);
      t.elemType == src.elemType && t.nDims == src.nDims && t.ne == src.ne && t.nb == src.nb &&
      SameShape(t, src)
  {
    var t := Describe(src.elemType, src.ne[..src.nDims], data, addr);
    assert forall i :: 0 <= i < MAX_DIMS ==> t.ne[i] == src.ne[i];
    assert t.ne == src.ne;
  }
}
