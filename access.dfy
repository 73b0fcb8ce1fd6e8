/**
 * Typed i32 element access (src/sgpt.c:148-204). An element's byte location
 * is the tensor's data address plus the sum of index * stride over the
 * indices given. Memory is modelled as one int32 cell per byte address:
 * every access through an I32 tensor is a whole word at that address.
 */
module SgptAccess {
  import opened SgptTypes
  import opened SgptShape
  import opened SgptArena

  /** loc of src/sgpt.c:150-154: idxs[0] * nb[0] + ... + idxs[n-1] * nb[n-1]. */
  function Offset(nb: seq<int>, idxs: seq<int>): int
    requires |idxs| <= |nb|
    decreases |idxs|
  {
    if |idxs| == 0 then 0 else Offset(nb, idxs[..|idxs| - 1]) + idxs[|idxs| - 1] * nb[|idxs| - 1]
  }

  /** The address an access through `t` at `idxs` reads or writes. */
  function Location(t: Tensor, idxs: seq<int>): int
    requires |idxs| <= |t.nb|
  {
    t.data + Offset(t.nb, idxs)
  }

  /** The per-index check as written in src/sgpt.c:152 and 181: idxs[i] <= ne[i]. */
  predicate AdmittedAsWritten(t: Tensor, idxs: seq<int>)
    requires |idxs| <= |t.ne|
  {
    forall i :: 0 <= i < |idxs| ==> idxs[i] <= t.ne[i]
  }

  /** The range the indices are meant to have: 0 <= idxs[i] < ne[i]. */
  predicate InRange(t: Tensor, idxs: seq<int>) {
    |idxs| <= |t.ne| && forall i :: 0 <= i < |idxs| ==> 0 <= idxs[i] < t.ne[i]
  }

  /** A descriptor the accessors can read (four extents and strides) and an index list of at most four. */
  predicate Accessible(t: Tensor, idxs: seq<int>) {
    |t.ne| == MAX_DIMS && |t.nb| == MAX_DIMS && |idxs| <= MAX_DIMS
  }

  /** Whenever the checks pass, the location lies inside memory of `size` cells. */
  predicate Addressable(t: Tensor, idxs: seq<int>, size: int)
    requires Accessible(t, idxs)
  {
    t.elemType == I32 && InRange(t, idxs) ==> 0 <= Location(t, idxs) < size
  }

  /** sgpt_get_i32 (src/sgpt.c:148-156) on memory `m`. */
  function ReadI32(t: Tensor, idxs: seq<int>, m: seq<int32>): Result<int32>
    requires Accessible(t, idxs) && Addressable(t, idxs, |m|)
  {
    if t.elemType != I32 then Err(TypeMismatch)
    else if !InRange(t, idxs) then Err(IndexOutOfRange)
    else Ok(m[Location(t, idxs)])
  }

  /** sgpt_set_i32 (src/sgpt.c:177-185) on memory `m`: the outcome and the memory afterwards. */
  function WriteI32(t: Tensor, idxs: seq<int>, value: int32, m: seq<int32>): (Outcome, seq<int32>)
    requires Accessible(t, idxs) && Addressable(t, idxs, |m|)
  {
    if t.elemType != I32 then (Fail(TypeMismatch), m)
    else if !InRange(t, idxs) then (Fail(IndexOutOfRange), m)
    else (Pass, m[Location(t, idxs) := value])
  }

  lemma {:induction false} RowMajorClosedForm(t: Tensor, k: nat)
    requires RowMajor(t) && k < MAX_DIMS
    ensures t.nb[k] == t.nb[0] * Product(t.ne[..k])
  {
    if k > 0 {
      RowMajorClosedForm(t, k - 1);
      assert t.ne[..k][..k - 1] == t.ne[..k - 1];
      MulAssociative(t.nb[0], Product(t.ne[..k - 1]), t.ne[k - 1]);
    }
  }

  /** One digit of a mixed-radix number: a lower part below s plus x < e units of s stays below s * e. */
  lemma DigitBound(o: int, b0: int, s: int, x: int, e: int)
    requires 0 <= o && 0 < b0 && o + b0 <= s && 0 <= x < e
    ensures 0 <= o + x * s
    ensures o + x * s + b0 <= s * e
  {
    MulMonotone(s, x + 1, e);
    assert x * s + s == s * (x + 1);
  }

  /** Mixed-radix digits are unique: equal sums with lower parts below s have equal digits. */
  lemma DigitUnique(o1: int, o2: int, x1: int, x2: int, s: int)
    requires 0 <= o1 < s && 0 <= o2 < s && 0 <= x1 && 0 <= x2
    requires o1 + x1 * s == o2 + x2 * s
    ensures x1 == x2 && o1 == o2
  {
    if x1 < x2 {
      MulMonotone(s, x1 + 1, x2);
      assert false;
    } else if x2 < x1 {
      MulMonotone(s, x2 + 1, x1);
      assert false;
    }
  }

  /**
   * With row-major strides, an in-range index list of length k addresses a
   * byte offset from 0 up to nb[0] * (ne[0] * ... * ne[k-1]) - nb[0].
   */
  lemma {:induction false} OffsetBound(t: Tensor, idxs: seq<int>)
    requires RowMajor(t) && InRange(t, idxs) && |idxs| <= MAX_DIMS
    ensures 0 <= Offset(t.nb, idxs)
    ensures Offset(t.nb, idxs) + t.nb[0] <= t.nb[0] * Product(t.ne[..|idxs|])
  {
    var k := |idxs|;
    if k > 0 {
      var p := idxs[..k - 1];
      var x, e, s := idxs[k - 1], t.ne[k - 1] as int, t.nb[k - 1] as int;
      var b0, q := t.nb[0] as int, Product(t.ne[..k - 1]);
      assert InRange(t, p);
      OffsetBound(t, p);
      RowMajorClosedForm(t, k - 1);
      assert s == b0 * q;
      assert t.ne[..k][..k - 1] == t.ne[..k - 1];
      assert Product(t.ne[..k]) == q * e;
      MulAssociative(b0, q, e);
      assert Offset(t.nb, idxs) == Offset(t.nb, p) + x * s;
      DigitBound(Offset(t.nb, p), b0, s, x, e);
    }
  }

  /** Row-major strides make in-range offsets injective: distinct index lists of one length never share a location. */
  lemma {:induction false} OffsetInjective(t: Tensor, a: seq<int>, b: seq<int>)
    requires RowMajor(t) && InRange(t, a) && InRange(t, b) && |a| == |b| <= MAX_DIMS
    requires Offset(t.nb, a) == Offset(t.nb, b)
    ensures a == b
  {
    var k := |a|;
    if k > 0 {
      var pa, pb := a[..k - 1], b[..k - 1];
      var s := t.nb[k - 1] as int;
      assert InRange(t, pa) && InRange(t, pb);
      OffsetBound(t, pa);
      OffsetBound(t, pb);
      RowMajorClosedForm(t, k - 1);
      assert Offset(t.nb, a) == Offset(t.nb, pa) + a[k - 1] * s;
      assert Offset(t.nb, b) == Offset(t.nb, pb) + b[k - 1] * s;
      DigitUnique(Offset(t.nb, pa), Offset(t.nb, pb), a[k - 1], b[k - 1], s);
      OffsetInjective(t, pa, pb);
      assert a == pa + [a[k - 1]] && b == pb + [b[k - 1]];
    }
  }

  /**
   * Every in-range element of a row-major tensor lies within its payload of
   * nb[0] * ne[0] * ne[1] * ne[2] * ne[3] bytes after the data address.
   */
  lemma OffsetWithinPayload(t: Tensor, idxs: seq<int>)
    requires RowMajor(t) && InRange(t, idxs) && |idxs| <= MAX_DIMS
    ensures 0 <= Offset(t.nb, idxs)
    ensures Offset(t.nb, idxs) + t.nb[0] <= t.nb[0] * Product(t.ne)
  {
    OffsetBound(t, idxs);
    ProductPrefixBound(t.ne, |idxs|);
    MulMonotone(t.nb[0], Product(t.ne[..|idxs|]), Product(t.ne));
  }

  /**
   * Round trip and frame: after a set at in-range `a`, a get at `a` returns
   * the value set, and a get at any other in-range `b` of the same length
   * returns what it returned before.
   */
  lemma SetThenGet(t: Tensor, a: seq<int>, b: seq<int>, v: int32, m: seq<int32>)
    requires RowMajor(t) && t.elemType == I32
    requires InRange(t, a) && InRange(t, b) && |a| == |b| <= MAX_DIMS
    requires Addressable(t, a, |m|) && Addressable(t, b, |m|)
    ensures WriteI32(t, a, v, m).0 == Pass
    ensures ReadI32(t, b, WriteI32(t, a, v, m).1) == Ok(if a == b then v else m[Location(t, b)])
    ensures ReadI32(t, b, m) == Ok(m[Location(t, b)])
  {
    if a != b && Location(t, a) == Location(t, b) {
      OffsetInjective(t, a, b);
    }
  }

  /**
   * A set through a row-major tensor passes exactly for an I32 tensor and
   * in-range indices, changes nothing when it fails, and when it passes
   * changes no cell outside the tensor's payload
   * [data, data + nb[0] * ne[0] * ne[1] * ne[2] * ne[3]).
   */
  lemma WriteStaysInPayload(t: Tensor, idxs: seq<int>, v: int32, m: seq<int32>)
    requires RowMajor(t) && Accessible(t, idxs) && Addressable(t, idxs, |m|)
    ensures var (r, m') := WriteI32(t, idxs, v, m);
      (r == Pass <==> t.elemType == I32 && InRange(t, idxs)) &&
      (r != Pass ==> m' == m) &&
      |m'| == |m| &&
      forall j :: 0 <= j < |m| && (j < t.data || t.data + t.nb[0] * Product(t.ne) <= j) ==> m'[j] == m[j]
  {
    if t.elemType == I32 && InRange(t, idxs) {
      OffsetWithinPayload(t, idxs);
    }
  }

  /**
   * View aliasing: a view made by sgpt_view_tensor and its source compute the
   * same location for every index list, so every get agrees and a set
   * through one is a set through the other.
   */
  lemma ViewAliases(st: ArenaState, src: Tensor, idxs: seq<int>, v: int32, m: seq<int32>)
    requires Inv(st) && DerivedLayout(src)
    requires Accessible(src, idxs) && Addressable(src, idxs, |m|)
    ensures var r := NewTensor(st, src.elemType, src.ne[..src.nDims], At(src.data)).1;
      r.Ok? ==>
        var view := r.value.desc;
        Location(view, idxs) == Location(src, idxs) &&
        ReadI32(view, idxs, m) == ReadI32(src, idxs, m) &&
        WriteI32(view, idxs, v, m) == WriteI32(src, idxs, v, m)
  {
    ViewTensorShares(st, src);
  }

  /**
   * An in-range access through an owned tensor of positive extents fresh
   * from the arena stays inside that tensor's own record: after its
   * descriptor and before the end of the record, hence clear of every other
   * record and every header. No wrap-around needs to be assumed: a request
   * the allocation admits is too small to wrap.
   */
  lemma OwnedAccessStaysInRecord(st: ArenaState, elemType: ElemType, ne: seq<int64>, idxs: seq<int>)
    requires Inv(st) && |ne| <= MAX_DIMS && forall i :: 0 <= i < |ne| ==> ne[i] >= 1
    requires |idxs| <= MAX_DIMS
    ensures var (st', r) := NewTensor(st, elemType, ne, Null);
      r.Ok? && InRange(r.value.desc, idxs) ==>
        var t := r.value.desc;
        var o := st'.objects[|st.objects|];
        t.data == st.memBuffer + o.offset + TENSOR_SIZE &&
        t.data <= Location(t, idxs) &&
        Location(t, idxs) + ElemSize(elemType) <= st.memBuffer + End(o)
  {
    var (st', r) := NewTensor(st, elemType, ne, Null);
    NewTensorOutcome(st, elemType, ne, Null);
    if r.Ok? && InRange(r.value.desc, idxs) {
      var t := r.value.desc;
      var size := RequestedSize(elemType, ne, true);
      AdmittedDoesNotWrap(st, elemType, ne);
      AllocationPlacement(st, size);
      StridesRowMajor(t);
      OffsetWithinPayload(t, idxs);
      RequestedSizeExact(elemType, ne);
    }
  }

  /** A request of positive extents that the allocation admits is too small for any product to wrap. */
  lemma AdmittedDoesNotWrap(st: ArenaState, elemType: ElemType, ne: seq<int64>)
    requires |ne| <= MAX_DIMS && forall i :: 0 <= i < |ne| ==> ne[i] >= 1
    requires Admits(st, ExactRequest(elemType, ne, true))
    ensures NoWrap(ElemSize(elemType), PaddedShape(ne))
  {
    PaddingKeepsProduct(ElemSize(elemType), ne, MAX_DIMS);
    assert PaddedShape(ne)[..MAX_DIMS] == PaddedShape(ne);
  }

  /**
   * The size_t product of src/sgpt.c:51 wraps for positive extents too:
   * with an empty 128-byte context, an F32 tensor of extents (2^31, 2^31)
   * requests 4 * 2^62 + 104, which wraps to 104, so both forms of the
   * capacity comparison pass and C records a descriptor-only record that
   * ends at the buffer's end. The in-range access (1, 0) through the
   * descriptor C returns then lies past the buffer. The model's allocation
   * refuses the tensor.
   */
  lemma ProductWrapsAsWritten()
    ensures var st := Initial(InitParams(128, 0));
      var ne: seq<int64> := [0x8000_0000, 0x8000_0000];
      var size := RequestedSize(F32, ne, true);
      var t := Describe(F32, ne, Null, OBJECT_SIZE);
      size == TENSOR_SIZE && FitsAsWritten(st, size) && Fits(st, size) &&
      InRange(t, [1, 0]) && Location(t, [1, 0]) + ElemSize(F32) > st.memBuffer + st.memSize &&
      NewTensor(st, F32, ne, Null).1 == Err(OutOfMemory)
  {
    var ne: seq<int64> := [0x8000_0000, 0x8000_0000];
    assert WrappedProduct(4, ne) == 0 by {
      assert ne[..1] == [0x8000_0000] && ne[..1][..0] == [];
    }
    assert Product(ne) == 0x4000_0000_0000_0000 by {
      assert ne[..1] == [0x8000_0000] && ne[..1][..0] == [];
    }
    var t := Describe(F32, ne, Null, OBJECT_SIZE);
    assert t.ne[0] == 0x8000_0000 && t.ne[1] == 0x8000_0000;
    assert t.nb[0] == 4;
    assert [1, 0][..1] == [1] && [1][..0] == [];
  }

  /**
   * The check as written (AdmittedAsWritten, LocateAsWritten) lets through
   * an index equal to the extent: on a 2 x 2 I32 tensor, (2, 0) passes and
   * addresses the same element as the in-range (0, 1); on a 1-D I32 tensor
   * of two elements, index 2 passes and addresses the first byte after the
   * payload, where the next record's header goes; negative indices pass too.
   */
  lemma IndexCheckAdmitsOutOfRange()
    ensures var t := Describe(I32, [2, 2], Null, 0);
      AdmittedAsWritten(t, [2, 0]) && !InRange(t, [2, 0]) && InRange(t, [0, 1]) &&
      Offset(t.nb, [2, 0]) == Offset(t.nb, [0, 1])
    ensures var u := Describe(I32, [2], Null, 0);
      AdmittedAsWritten(u, [2]) && !InRange(u, [2]) &&
      Offset(u.nb, [2]) == ElemSize(I32) * Product(u.ne) &&
      AdmittedAsWritten(u, [-1]) && !InRange(u, [-1])
  {
    var t := Describe(I32, [2, 2], Null, 0);
    assert t.nb[1] == 8;
    assert [2, 0][..1] == [2] && [2][..0] == [];
    assert [0, 1][..1] == [0] && [0][..0] == [];
    var u := Describe(I32, [2], Null, 0);
    assert u.ne == [2, 1, 1, 1];
    PaddingKeepsProduct(4, [2], MAX_DIMS);
    assert u.ne[..MAX_DIMS] == u.ne;
    assert [2][..0] == [];
  }

  /**
   * The index loop shared by sgpt_get_i32 and sgpt_set_i32
   * (src/sgpt.c:149-154 and 178-183): reject a non-I32 tensor, then add up
   * idxs[i] * nb[i], rejecting the first index outside 0 .. ne[i] - 1 (the
   * intended range; the C check admits ne[i] itself and negative indices).
   */
  method Locate(t: Tensor, idxs: seq<int32>) returns (r: Result<int>)
    requires Accessible(t, idxs)
    ensures t.elemType != I32 ==> r == Err(TypeMismatch)
    ensures t.elemType == I32 && !InRange(t, idxs) ==> r == Err(IndexOutOfRange)
    ensures t.elemType == I32 && InRange(t, idxs) ==> r == Ok(Offset(t.nb, idxs))
  {
    if t.elemType != I32 {
      return Err(TypeMismatch);
    }
    var loc := 0;
    for i := 0 to |idxs|
      invariant loc == Offset(t.nb, idxs[..i])
      invariant forall j :: 0 <= j < i ==> 0 <= idxs[j] < t.ne[j]
    {
      if !(0 <= idxs[i] < t.ne[i]) {
        return Err(IndexOutOfRange);
      }
      assert idxs[..i + 1][..i] == idxs[..i];
      loc := loc + idxs[i] * t.nb[i];
    }
    assert idxs[..|idxs|] == idxs;
    return Ok(loc);
  }

  /**
   * The same loop with the per-index check exactly as src/sgpt.c:152 and 181
   * write it (idxs[i] <= ne[i]): it accepts every index list
   * AdmittedAsWritten describes, including ones outside the intended range.
   */
  method LocateAsWritten(t: Tensor, idxs: seq<int32>) returns (r: Result<int>)
    requires Accessible(t, idxs)
    ensures t.elemType != I32 ==> r == Err(TypeMismatch)
    ensures t.elemType == I32 && !AdmittedAsWritten(t, idxs) ==> r == Err(IndexOutOfRange)
    ensures t.elemType == I32 && AdmittedAsWritten(t, idxs) ==> r == Ok(Offset(t.nb, idxs))
  {
    if t.elemType != I32 {
      return Err(TypeMismatch);
    }
    var loc := 0;
    for i := 0 to |idxs|
      invariant loc == Offset(t.nb, idxs[..i])
      invariant forall j :: 0 <= j < i ==> idxs[j] <= t.ne[j]
    {
      if !(idxs[i] <= t.ne[i]) {
        return Err(IndexOutOfRange);
      }
      assert idxs[..i + 1][..i] == idxs[..i];
      loc := loc + idxs[i] * t.nb[i];
    }
    assert idxs[..|idxs|] == idxs;
    return Ok(loc);
  }

  /** sgpt_get_i32 (src/sgpt.c:148-156): the i32 at the indexed location. */
  method GetI32(t: Tensor, idxs: seq<int32>, heap: array<int32>) returns (r: Result<int32>)
    requires Accessible(t, idxs) && Addressable(t, idxs, heap.Length)
    ensures r == ReadI32(t, idxs, heap[..])
  {
    var loc := Locate(t, idxs);
    if loc.Err? {
      return Err(loc.error);
    }
    r := Ok(heap[t.data + loc.value]);
  }

  /** sgpt_set_i32 (src/sgpt.c:177-185): store the value at the indexed location, in place. */
  method SetI32(t: Tensor, idxs: seq<int32>, value: int32, heap: array<int32>) returns (r: Outcome)
    requires Accessible(t, idxs) && Addressable(t, idxs, heap.Length)
    modifies heap
    ensures (r, heap[..]) == WriteI32(t, idxs, value, old(heap[..]))
  {
    var loc := Locate(t, idxs);
    if loc.Err? {
      return Fail(loc.error);
    }
    heap[t.data + loc.value] := value;
    r := Pass;
  }

  /** sgpt_get_i32_1d (src/sgpt.c:158-160). */
  method GetI32_1D(t: Tensor, i0: int32, heap: array<int32>) returns (r: Result<int32>)
    requires Accessible(t, [i0]) && Addressable(t, [i0], heap.Length)
    ensures r == ReadI32(t, [i0], heap[..])
  {
    r := GetI32(t, [i0], heap);
  }

  /** sgpt_get_i32_2d (src/sgpt.c:162-165). */
  method GetI32_2D(t: Tensor, i0: int32, i1: int32, heap: array<int32>) returns (r: Result<int32>)
    requires Accessible(t, [i0, i1]) && Addressable(t, [i0, i1], heap.Length)
    ensures r == ReadI32(t, [i0, i1], heap[..])
  {
    r := GetI32(t, [i0, i1], heap);
  }

  /** sgpt_get_i32_3d (src/sgpt.c:167-170). */
  method GetI32_3D(t: Tensor, i0: int32, i1: int32, i2: int32, heap: array<int32>) returns (r: Result<int32>)
    requires Accessible(t, [i0, i1, i2]) && Addressable(t, [i0, i1, i2], heap.Length)
    ensures r == ReadI32(t, [i0, i1, i2], heap[..])
  {
    r := GetI32(t, [i0, i1, i2], heap);
  }

  /** sgpt_get_i32_4d (src/sgpt.c:172-175). */
  method GetI32_4D(t: Tensor, i0: int32, i1: int32, i2: int32, i3: int32, heap: array<int32>)
    returns (r: Result<int32>)
    requires Accessible(t, [i0, i1, i2, i3]) && Addressable(t, [i0, i1, i2, i3], heap.Length)
    ensures r == ReadI32(t, [i0, i1, i2, i3], heap[..])
  {
    r := GetI32(t, [i0, i1, i2, i3], heap);
  }

  /** sgpt_set_i32_1d (src/sgpt.c:187-189). */
  method SetI32_1D(t: Tensor, i0: int32, value: int32, heap: array<int32>) returns (r: Outcome)
    requires Accessible(t, [i0]) && Addressable(t, [i0], heap.Length)
    modifies heap
    ensures (r, heap[..]) == WriteI32(t, [i0], value, old(heap[..]))
  {
    r := SetI32(t, [i0], value, heap);
  }

  /** sgpt_set_i32_2d (src/sgpt.c:191-194). */
  method SetI32_2D(t: Tensor, i0: int32, i1: int32, value: int32, heap: array<int32>) returns (r: Outcome)
    requires Accessible(t, [i0, i1]) && Addressable(t, [i0, i1], heap.Length)
    modifies heap
    ensures (r, heap[..]) == WriteI32(t, [i0, i1], value, old(heap[..]))
  {
    r := SetI32(t, [i0, i1], value, heap);
  }

  /** sgpt_set_i32_3d (src/sgpt.c:196-199). */
  method SetI32_3D(t: Tensor, i0: int32, i1: int32, i2: int32, value: int32, heap: array<int32>)
    returns (r: Outcome)
    requires Accessible(t, [i0, i1, i2]) && Addressable(t, [i0, i1, i2], heap.Length)
    modifies heap
    ensures (r, heap[..]) == WriteI32(t, [i0, i1, i2], value, old(heap[..]))
  {
    r := SetI32(t, [i0, i1, i2], value, heap);
  }

  /** sgpt_set_i32_4d (src/sgpt.c:201-204). */
  method SetI32_4D(t: Tensor, i0: int32, i1: int32, i2: int32, i3: int32, value: int32, heap: array<int32>)
    returns (r: Outcome)
    requires Accessible(t, [i0, i1, i2, i3]) && Addressable(t, [i0, i1, i2, i3], heap.Length)
    modifies heap
    ensures (r, heap[..]) == WriteI32(t, [i0, i1, i2, i3], value, old(heap[..]))
  {
    r := SetI32(t, [i0, i1, i2, i3], value, heap);
  }
}
